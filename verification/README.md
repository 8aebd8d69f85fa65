# Verification of the data-transfer core

This project models the parts of the repository that move content between peers, and
proves what they promise. Each module follows one component:

- `CborGrammar`, `CborBuffering`, `CborFraming`, `CborStream`: finding the end of one CBOR
  object in bytes that arrive in arbitrary chunks. `CborGrammar` is the grammar of section
  2.1 of RFC 7049; `CborBuffering` holds the byte-wise machine and the class that refines
  it; `CborFraming` relates machine and grammar in both directions; `CborStream` is the
  reader on top.
- `CborEncodeStream`: the encoder that feeds them, with lists and ordered maps.
- `Bits`, `RlePlus`, `RlePlusRoundTrip`, `RlePlusForm`: RLE+ bit strings, the two stream
  classes, the round trip between them, and the wire form itself.
- `Blake2`: BLAKE2b and BLAKE2s contexts against section 3.3 of RFC 7693.
- `ProtobufWire`, `IpldNode`, `IpldNodeImpl`, `IpldNodeReading`, `MerkleDag`: the
  hand-written node encoder with its precomputed lengths, the parser that undoes it and what
  it makes of any other message, the node object with its cached block, and the
  depth-limited fetch of a graph.
- `MessageQueue`: the write queue of a stream and the two endpoints that fill it.
- `PeerProtocol`, `PeerRuns`, `PeerContext`, `PeerEndpoints`: the peer state machine as
  functions, what every run of it keeps, the object whose methods are proved to make exactly
  these steps, and that object together with the endpoints of `MessageQueue`.
- `PeerDelivery`, `PeerClosing`, `PeerEffects`: what each step means for those outside: which
  callbacks a message leads to, when and why a peer closes, and what the other calls do.
- `LocalRequests`, `AnswerProtocol`: the requests of this host and their callbacks; how
  several instances agree on the answer to one remote request, and the object that keeps
  their statuses.
- `Basics`, `Ordered`, `IntSets`, `Logs`, `ResponseStatus`: bytes and results, ordered maps,
  logs of events, and status codes.

Code that works in place is modelled by classes and loops, each proved against a function
or an invariant; the laws are lemmas about these functions over all inputs and all runs.
Callbacks are entries of a log. What the program takes from outside (chunks of bytes,
completions of writes, the clock, the outcome of a lookup, the order in which tasks run) is
an input, quantified over. Whether a message fits is an input of the peer, and the answer of
its endpoints in `PeerEndpoints`.

Machine arithmetic is explicit where it matters: the doubled count of a map and the shift
of a CBOR head are taken modulo 2^64, the run lengths of RLE+ in w bits, the counter of
BLAKE2 in two words, the request counter in 32 bits. Sizes of objects in memory are
assumed to be below 2^64.

## What was found

- A CBOR map head that announces 2^63 pairs or more ends its map too early, as the doubled
  count wraps. Over all inputs, the machine finishes without meeting such a head exactly on
  the readable items. No object that fits into memory contains such a map.
- The RLE+ law fails for exactly one set: the one that contains every value of the type.
- A request passed to `enqueueRequest` gets neither accepted nor called back when the peer
  is open and has no endpoint, or when the endpoint overflows; the peer is closed then,
  which notifies all other requests. The second case is reachable.
- A cancel that names the request of another stream leaves the id in that stream's list.
  When that stream closes, it takes with it a request of the same id that was made anew
  through another stream. Closing a stream forgets exactly its own requests if and only if
  no id it lists is mapped to another stream, and over every run without such a cancel it
  does.
- Two instances can answer a request both as found and as not found, in some order of steps,
  if and only if one of them finds content and one finds nothing. It takes a late
  registration: of an instance that finds content after a check has passed, or of one that
  finds nothing after the request was forgotten. Without these two no run answers both.
- With atomic tasks a request stays unanswered if the task that happens to run last is one
  whose lookup failed. The Merkle DAG service of this repository never reports a lookup that
  selected nothing, so with it "not found" is never answered.
- Appending a list stream to itself, and nothing else, breaks the stream: both heads
  announce one item too many, and a reader of the bytes waits for an item that never comes.
- The ids of rejected requests start anew after their notification, while subscriptions to
  them live on. Dropping a subscription ends what is registered under its id; that is its
  own registration if and only if that one has not ended before.

## Model

| member | source | states |
|---|---|---|
| `CborFraming.FramedExactlyIff` | common/libp2p/cbor_buffering.cpp:85-149 | Exact framing: for every well-formed item and whatever follows it, the machine takes the encoding and not one byte more and is then done, if and only if the item holds no major type 7 item and no map of 2^63 or more pairs |
| `CborFraming.FinishesIffItem` | common/libp2p/cbor_buffering.cpp:85-149 | Over arbitrary bytes: the machine is done after n bytes if and only if those n bytes encode one item in which every container holds what the machine takes its head to announce, the doubled count of a map in 64 bits |
| `CborFraming.FinishesIffReadable` | common/libp2p/cbor_buffering.cpp:85-149 | The converse of exact framing in the terms of RFC 7049: over all inputs, the machine is done after n bytes and has met no map head of 2^63 pairs or more if and only if those n bytes are a well-formed item without major type 7 and without such a map |
| `CborFraming.FinishedIsItemIff` | common/libp2p/cbor_buffering.cpp:136-138 | When the machine is done, the bytes it took are a well-formed item if and only if it met no map head of 2^63 pairs or more |
| `CborFraming.AcceptedIsWellFormedIff` | common/libp2p/cbor_buffering.cpp:119-147 | An item the machine reads to its end holds no major type 7 item, and it is well-formed if and only if no map in it announces 2^63 pairs or more |
| `CborFraming.MeetsWideIff` | common/libp2p/cbor_buffering.cpp:117-138 | Reading items, the machine completes such a head if and only if one of the items contains such a map |
| `CborFraming.ProperPrefixIsNotDone` | common/libp2p/cbor_buffering.cpp:69-149 | On every proper prefix of a readable item the machine takes all bytes and is not done |
| `CborFraming.CutsDoNotMatter` | common/libp2p/cbor_buffering.cpp:85-149 | Chunk independence: any way of cutting the input reaches the same state after the same number of bytes, or fails at the same absolute byte with the same error |
| `CborFraming.FeedAppend` | common/libp2p/cbor_buffering.cpp:85-149 | What was done with the first part of an input does not depend on what follows; an unfinished object has eaten all of it |
| `CborFraming.Progress` | common/libp2p/cbor_buffering.cpp:100-148 | `consume` on an unfinished object either finishes it or eats the whole input |
| `CborFraming.SafeReadSize` | common/libp2p/cbor_buffering.cpp:80-83 | `moreBytes` never exceeds what any completion of the object still has, so reading that much cannot run into the next object |
| `CborFraming.WideMapEndsEarly` | common/libp2p/cbor_buffering.cpp:136-138 | The machine multiplication fails here: a map head of 2^63 pairs pushes zero items and the object ends after its nine head bytes |
| `CborFraming.AddressableHasNoWideMap` | common/libp2p/cbor_buffering.cpp:136-138 | No item whose encoding is shorter than 2^64 bytes contains such a map |
| `CborFraming.CoverageOfWellFormed` | common/libp2p/cbor_buffering.cpp:119-147 | On well-formed items the expectation of the machine falls short exactly if a wide map occurs, and meets the item exactly if neither that nor a major type 7 item occurs |
| `CborFraming.FeedForest` | common/libp2p/cbor_buffering.cpp:100-147 | For any list of items and any number pending: read whole when the count suffices and no major type 7 head is met, otherwise stopped before the end, with the reason |
| `CborFraming.Parse` | common/libp2p/cbor_buffering.cpp:100-147 | Whenever the machine finishes with p items pending, the bytes it took are the encodings of exactly p items |
| `CborBuffering.CborBuffering.Consume` | common/libp2p/cbor_buffering.cpp:85-149 | The code with its stack of counts refines a machine with a single number of pending items: same consumed bytes, same state, same error |
| `CborBuffering.CborBuffering.ReadItem` | common/libp2p/cbor_buffering.cpp:100-147 | One turn of the outer loop makes progress and leaves the meaning of the remaining input unchanged |
| `CborBuffering.CborBuffering.BeginHead` | common/libp2p/cbor_buffering.cpp:12-60 | The first byte of a head is accepted or refused as byte-wise reading does, at that byte |
| `CborFraming.FirstRefusesIff` | common/libp2p/cbor_buffering.cpp:12-60 | Major type 7 is refused as a type whatever follows, and additional information of 28 or more as a value, and nothing else is |
| `CborBuffering.CborBuffering.ContinueHead` | common/libp2p/cbor_buffering.cpp:62-67 | The extension bytes are read as far as the input goes, and the head stays open only if the input ended |
| `CborBuffering.CborBuffering.CompleteHead` | common/libp2p/cbor_buffering.cpp:117-146 | A complete head replaces one pending item by its own items, skips the payload that is there, and leaves no finished count on the stack |
| `CborBuffering.CborBuffering.PopFinished` | common/libp2p/cbor_buffering.cpp:143-146 | Popping finished counts keeps the sum of pending items and leaves a positive innermost count |
| `CborBuffering.CborBuffering.IsDone` | common/libp2p/cbor_buffering.cpp:69-72 | Done exactly if nothing is pending in the sum of the stack and no payload byte is missing |
| `CborBuffering.CborBuffering.MoreBytes` | common/libp2p/cbor_buffering.cpp:80-83 | The missing bytes of the open head or payload, else one for an unfinished object, else none |
| `CborBuffering.CborBuffering.Reset` | common/libp2p/cbor_buffering.cpp:74-78 | A done machine expects exactly one item afterwards |
| `CborStream.Reassembly` | common/libp2p/cbor_stream.cpp:12-54 | If the bytes delivered so far begin a concatenation of encoded items, the i-th object handed out is the i-th encoding, no read fails, and with all bytes there a read still waits only past the last item |
| `CborStream.CborStream.ReadRaw` | common/libp2p/cbor_stream.cpp:12-18 | A read yields an object, waits, or fails, and in each case every delivered byte is accounted for: in the objects, in order, or still in the buffer |
| `CborStream.CborStream.OnRead` | common/libp2p/cbor_stream.cpp:32-42 | The same after a chunk of at most the reserve has been stored: bytes behind the object wait for the next read |
| `CborStream.CborStream.Consume` | common/libp2p/cbor_stream.cpp:45-54 | Handing only the unread tail to the machine amounts to reading the whole object from its start |
| `CborStream.CborStream.ReadMore` | common/libp2p/cbor_stream.cpp:25-43 | Delivers exactly the framed prefix when done, otherwise makes room behind the bytes that belong to the object |
| `CborStream.FramedPrefix` | common/libp2p/cbor_stream.cpp:25-30 | The bytes handed out are an object of their own, framed exactly |
| `CborEncodeStream.OneItemIsFramed` | codec/cbor/cbor_encode_stream.cpp:125-140 | Agreement of encoder and reader: the bytes of a one-item stream are framed exactly by the buffering machine if and only if no boolean or null was written into it |
| `CborEncodeStream.CborEncodeStream.Append` | codec/cbor/cbor_encode_stream.cpp:10-22 | Every scalar adds one well-formed item, so the data is always a concatenation of exactly `count` items |
| `CborEncodeStream.CborEncodeStream.PutInteger` | codec/cbor/cbor_encode_stream.hpp:22-49 | A signed or unsigned integer becomes the one item of that value, with the head that MinimalIsShortest speaks of |
| `CborEncodeStream.MinimalIsShortest` | codec/cbor/cbor_encode_stream.hpp:22-49 | No other width that an argument fits is as short as the one written |
| `CborEncodeStream.WrittenIsShortest` | codec/cbor/cbor_encode_stream.cpp:10-123 | Every item of every stream is at all depths the shortest: no well-formed item of the same value takes fewer bytes |
| `CborEncodeStream.CborEncodeStream.PutBool` | codec/cbor/cbor_encode_stream.hpp:29-48 | A boolean becomes the simple value 20 or 21 |
| `CborEncodeStream.CborEncodeStream.PutNull` | codec/cbor/cbor_encode_stream.cpp:111-123 | Null becomes the simple value 22 |
| `CborEncodeStream.CborEncodeStream.PutBytes` | codec/cbor/cbor_encode_stream.cpp:10-22 | Bytes become one byte string item |
| `CborEncodeStream.CborEncodeStream.PutText` | codec/cbor/cbor_encode_stream.cpp:24-36 | A string becomes one text item |
| `CborEncodeStream.CborEncodeStream.PutCid` | codec/cbor/cbor_encode_stream.cpp:38-57 | Tag and byte string together are one item although only the byte string is counted; a CID without byte form leaves the stream as it was |
| `CborEncodeStream.CborEncodeStream.PutStream` | codec/cbor/cbor_encode_stream.cpp:59-65 | Adds the items of another stream, or one list item. The stream stays a concatenation of `count` items if and only if it is not a list appended to itself; for that case, the exact bytes |
| `CborEncodeStream.SelfAppendIsUnfinished` | codec/cbor/cbor_encode_stream.cpp:59-65 | The bytes of a list of readable items appended to itself: the machine takes all of them and still waits for one item |
| `CborEncodeStream.SelfAppendIsNoItem` | codec/cbor/cbor_encode_stream.cpp:59-65 | So they are the encoding of no readable item |
| `CborEncodeStream.CborEncodeStream.PutMap` | codec/cbor/cbor_encode_stream.cpp:80-109 | Entries are written strictly ascending by `LessCborKey`, none lost, as one map item; a value that is not a single item stops the encoding with head and count already changed |
| `CborEncodeStream.CborEncodeStream.WriteEntries` | codec/cbor/cbor_encode_stream.cpp:102-106 | The second loop writes keys and values in turn, in order |
| `CborEncodeStream.SortEntries` | codec/cbor/cbor_encode_stream.cpp:93-101 | The first loop ends with an ordered map of exactly the encoded entries, or at the first value that is not a single item |
| `CborEncodeStream.EncodedKeyInjective` | codec/cbor/cbor_encode_stream.cpp:93-101 | Different names have different encoded keys, so re-keying loses no entry |
| `CborEncodeStream.LessCborKeyStrictTotal` | codec/cbor/cbor_encode_stream.cpp:67-78 | The key comparison is a strict total order |
| `CborEncodeStream.LessCborKeyIff` | codec/cbor/cbor_encode_stream.cpp:67-78 | The shorter key is less, and of keys of one length the one with the lower byte where they first differ |
| `Ordered.LexLessIff` | ipfs_lite/ipld/impl/ipld_node_impl.cpp:66-70 | The order of std::map over strings: the lower byte at the first difference, or a proper prefix |
| `CborEncodeStream.MapBytesAreCanonical` | codec/cbor/cbor_encode_stream.cpp:93-106 | Two ordered maps with the same entries have the same bytes |
| `CborEncodeStream.CborEncodeStream.BytesAreOuter` | codec/cbor/cbor_encode_stream.cpp:125-140 | The bytes delivered are the encoding of the items, or of the one list of them |
| `CborEncodeStream.CborEncodeStream.Data` | codec/cbor/cbor_encode_stream.cpp:125-140 | A list gets the array head of its count in front, any other stream nothing |
| `RlePlusRoundTrip.RoundTripIff` | codec/rle/rle_plus_decoding_stream.hpp:36-70 | For every set of w-bit values, decoding its encoding gives the set, or MaxSizeExceed exactly when it is too large for the object limit, if and only if the set is not the whole type |
| `RlePlusRoundTrip.RoundTrip` | codec/rle/rle_plus_encoding_stream.hpp:26-52 | No other decode error can occur for a set smaller than the type |
| `RlePlusRoundTrip.FullSetIsLost` | codec/rle/rle_plus_encoding_stream.hpp:143-143 | The whole type: the growing run counts to 2^w, wraps to zero, and the set decodes as empty |
| `RlePlusRoundTrip.EncodeThenDecode` | codec/rle/rle_plus_decoding_stream.hpp:36-70 | The two stream objects, used one after the other, meet the law if and only if the set is not the whole type |
| `RlePlusRoundTrip.PeriodsDescribe` | codec/rle/rle_plus_encoding_stream.hpp:124-153 | The run lengths of a set: none is zero, none fills the type, they end at the largest element, and the present runs are exactly the set |
| `RlePlusRoundTrip.BlockIsSeen` | codec/rle/rle_plus_decoding_stream.hpp:44-44 | Every block holds a set bit, so the loop does not stop in front of one that was written |
| `RlePlusRoundTrip.DecodeAllBlocks` | codec/rle/rle_plus_decoding_stream.hpp:44-63 | Reading written blocks followed by any number of zero bits reads exactly those blocks |
| `RlePlusRoundTrip.TakeVarintInverts` | codec/rle/rle_plus_decoding_stream.hpp:182-188 | The bytes of a long block are found again, whatever follows |
| `RlePlusRoundTrip.UnpackInverts` | codec/rle/rle_plus_decoding_stream.hpp:109-130 | Unpacking a varint of a w-bit value gives it back without overflow |
| `RlePlusRoundTrip.ReadLong` | codec/rle/rle_plus_decoding_stream.hpp:179-189 | A long block of any length that fits the type is read back, whatever follows |
| `RlePlusRoundTrip.ReadSmall` | codec/rle/rle_plus_decoding_stream.hpp:155-158 | So is a single or small block |
| `Bits.BytesRoundTrip` | codec/rle/rle_plus_encoding_stream.hpp:58-64 | Packing bits into bytes and unpacking adds zero bits only, fewer than eight |
| `RlePlus.RLEPlusEncodingStream.GetPeriods` | codec/rle/rle_plus_encoding_stream.hpp:124-153 | The loop computes the run lengths, with the last run counted in w bits |
| `RlePlus.RLEPlusEncodingStream.Put` | codec/rle/rle_plus_encoding_stream.hpp:26-52 | Two version bits, the magnitude of the first run, and one block for each run; the bits of the blocks are those of BlockForm |
| `RlePlusForm.BlockForm` | codec/rle/rle_plus_encoding_stream.hpp:37-50 | A run of one is the bit 1; a run below 16 is 01 and four bits; any other is 00 and the bytes of a varint; lowest bit first |
| `RlePlusForm.BlockIsShortest` | codec/rle/rle_plus_encoding_stream.hpp:37-50 | Whatever bits a decoder reads as a run of that length, the block written for it is not longer |
| `RlePlusForm.EncodingForm` | codec/rle/rle_plus_encoding_stream.hpp:26-52 | The encoding begins with version 0 and whether 0 is in the set, and takes no more bits than any other blocks for its runs |
| `Bits.VarintAt` | codec/rle/rle_plus_encoding_stream.hpp:96-109 | Byte i of a varint holds bits 7i to 7i + 6, and its highest bit says whether another follows |
| `Bits.VarintLength` | codec/rle/rle_plus_encoding_stream.hpp:96-109 | A varint has the least number of bytes that seven bits each allow |
| `RlePlus.RLEPlusEncodingStream.PushSmallBlock` | codec/rle/rle_plus_encoding_stream.hpp:79-88 | Appends the small block of the value, four bits, lowest first |
| `RlePlus.RLEPlusEncodingStream.PushLongBlock` | codec/rle/rle_plus_encoding_stream.hpp:95-109 | Appends the long block of the value as a varint |
| `RlePlus.RLEPlusEncodingStream.PushByte` | codec/rle/rle_plus_encoding_stream.cpp:12-19 | Appends the eight bits of a byte, lowest first |
| `RlePlus.RLEPlusEncodingStream.InitContent` | codec/rle/rle_plus_encoding_stream.cpp:5-10 | Discards earlier content and leaves the version bits |
| `RlePlus.RLEPlusEncodingStream.Data` | codec/rle/rle_plus_encoding_stream.hpp:58-64 | The bytes unpack to the bits written so far, followed by fewer than eight zero bits |
| `RlePlus.RLEPlusDecodingStream.Get` | codec/rle/rle_plus_decoding_stream.hpp:36-70 | The decoder computes, for arbitrary bytes, the set or the error the format gives them |
| `RlePlusForm.VersionMismatchIff` | codec/rle/rle_plus_decoding_stream.hpp:38-41 | Fewer than four bits or a version other than 0, and nothing else, is a version mismatch |
| `RlePlusForm.SizeLimitIff` | codec/rle/rle_plus_decoding_stream.hpp:64-68 | With a right header, a set that would take more than 2^20 bytes is MaxSizeExceed; otherwise the result is that of the blocks |
| `RlePlusForm.UnpackOverflowIff` | codec/rle/rle_plus_decoding_stream.hpp:110-130 | A varint overflows the type exactly if its last byte is to be shifted by more than the width |
| `RlePlus.RLEPlusDecodingStream.DecodeAll` | codec/rle/rle_plus_decoding_stream.hpp:44-63 | The loop over blocks, as long as a bit is left set |
| `RlePlus.RLEPlusDecodingStream.DecodeBlock` | codec/rle/rle_plus_decoding_stream.hpp:46-62 | One turn reads the next block in the form its first bits announce and moves behind it |
| `RlePlus.RLEPlusDecodingStream.ReadHeader` | codec/rle/rle_plus_decoding_stream.hpp:38-42 | Accepted exactly if there are four bits and the version is zero; the third bit is the first magnitude |
| `RlePlus.RLEPlusDecodingStream.AnyBitLeft` | codec/rle/rle_plus_decoding_stream.hpp:44-44 | True exactly if a bit at or behind the position is set |
| `RlePlus.RLEPlusDecodingStream.GetSpan` | codec/rle/rle_plus_decoding_stream.hpp:83-101 | The value of the next bits, or an index error that leaves the position alone |
| `RlePlus.RLEPlusDecodingStream.UnpackBytes` | codec/rle/rle_plus_decoding_stream.hpp:109-130 | The bytes put together in w bits, or an overflow error |
| `RlePlus.RLEPlusDecodingStream.DecodeRun` | codec/rle/rle_plus_decoding_stream.hpp:159-170 | A run inserts its numbers if the magnitude says so, moves past them in w bits, and flips the magnitude |
| `RlePlus.RLEPlusDecodingStream.DecodeSingleBlock` | codec/rle/rle_plus_decoding_stream.hpp:138-147 | A run of one |
| `RlePlus.RLEPlusDecodingStream.DecodeSmallBlock` | codec/rle/rle_plus_decoding_stream.hpp:155-171 | A run of four bits length, or an index error |
| `RlePlus.RLEPlusDecodingStream.DecodeLongBlock` | codec/rle/rle_plus_decoding_stream.hpp:179-202 | A run of varint length, or an index or overflow error |
| `Blake2.HashChunks` | crypto/blake2/blake2s.c:107-201 | For every key, message and split into updates, the digest is that of the whole input by section 3.3 of RFC 7693 |
| `Blake2.Blake2` | crypto/blake2/blake2b.c:173-184 | The one-shot function is section 3.3 of RFC 7693, and refuses exactly the illegal parameters |
| `Blake2.Blake2Context.Init` | crypto/blake2/blake2b.c:99-127 | A keyed context stands where one that has taken the padded key block stands; the chain is the IV combined with digest length, key length, 1 and 1 as the first bytes of a parameter block; illegal parameters leave the context alone |
| `Blake2.InitialChainIs` | crypto/blake2/blake2b.c:108-111 | Section 2.5 of RFC 7693: the first chain word differs from the IV by the bytes digest length, key length, 1, 1 and zeros, the other words are those of the IV |
| `Blake2.XorBit` | crypto/blake2/blake2b.c:111-111 | Bit k of the combination is set exactly if it is set in one of the two words and not in the other |
| `Blake2.IvOf2b` | crypto/blake2/blake2b.c:39-42 | Section 2.6: each word of the IV is the fractional part of the square root of its prime |
| `Blake2.IvOf2s` | crypto/blake2/blake2s.c:49-56 | The same in 32 bits |
| `Blake2.SizesOf2b` | crypto/blake2/blake2b.c:99-127 | Section 2.1: blocks of 128 bytes, keys and digests of at most 64, words of 64 bits |
| `Blake2.SizesOf2s` | crypto/blake2/blake2s.c:107-201 | Blocks of 64 bytes, keys and digests of at most 32, words of 32 bits |
| `Blake2.Blake2Context.AbsorbKey` | crypto/blake2/blake2b.c:121-124 | The key and the zeros behind it are the first block, not compressed yet |
| `Blake2.Blake2Context.Update` | crypto/blake2/blake2b.c:131-147 | The context stands where it would after the whole input so far, however it was cut |
| `Blake2.Blake2Context.Flush` | crypto/blake2/blake2b.c:137-144 | Only a full block in front of more input is compressed, with the byte count behind it and without the last flag |
| `Blake2.Blake2Context.Final` | crypto/blake2/blake2b.c:152-169 | The calls of F, with block, two-word offset and last flag, are exactly those of the reference; the output is the leading bytes of the final chain |
| `Blake2.Blake2Context.Count` | crypto/blake2/blake2b.c:155-158 | The two counter words hold the byte total modulo the square of the word size |
| `Blake2.CallsCoverInput` | crypto/blake2/blake2b.c:131-163 | The reference itself: its blocks are the input filled with zeros to the end of the last block, and only the last call is flagged |
| `Blake2.CounterAdd` | crypto/blake2/blake2b.c:138-141 | Adding to the low word and carrying on overflow is addition in two words |
| `Blake2.ByteIndex` | crypto/blake2/blake2b.c:165-168 | The byte picked by shift and mask is that of the little-endian chain |
| `Blake2.LastBlock` | crypto/blake2/blake2b.c:160-163 | The padded buffer is the last block of the reference, also for an empty input and a multiple of the block size |
| `IpldNodeImpl.NodeRoundTripIff` | ipfs_lite/ipld/impl/ipld_node_impl.cpp:124-158 | Parsing an encoded node gives it back if and only if all its links are version 0 CIDs |
| `IpldNodeImpl.DecodeEncoded` | ipfs_lite/ipld/impl/ipld_node_encoder_pb.cpp:69-73 | In general every link comes back as the version 0 CID of its multihash, everything else unchanged |
| `IpldNodeImpl.ReencodeIsIdentical` | ipfs_lite/ipld/impl/ipld_node_encoder_pb.cpp:14-28 | What was parsed is encoded to the same bytes |
| `IpldNodeImpl.ParseNodeInverts` | ipfs_lite/ipld/impl/ipld_node_encoder_pb.cpp:14-28 | The bytes are a PBNode message with this content, these links and these destinations |
| `IpldNodeImpl.DecodedIsOrdered` | ipfs_lite/ipld/impl/ipld_node_impl.cpp:134-155 | Whatever bytes are parsed, links and destinations are ordered and without duplicates |
| `IpldNodeImpl.CreateFromRawBytes` | ipfs_lite/ipld/impl/ipld_node_impl.cpp:124-158 | The two loops compute the node of the message: the first link of a name stays, a bad CID is an error |
| `IpldNodeReading.DecodedIs` | ipfs_lite/ipld/impl/ipld_node_impl.cpp:124-158 | For any list of fields: refused if a link is no message or has no sha2-256 hash; else the last content, all destinations, and of the links the first of each name |
| `IpldNodeReading.RefusedIff` | ipfs_lite/ipld/impl/ipld_node_impl.cpp:124-133 | Raw bytes are invalid exactly if they, or a link in them, are no list of fields |
| `IpldNodeImpl.IPLDNodeImpl.GetIPLDBlock` | ipfs_lite/ipld/impl/ipld_node_impl.cpp:160-167 | The cached block is that of the present value, however the node was changed before |
| `IpldNodeImpl.IPLDNodeImpl.GetCID` | ipfs_lite/ipld/impl/ipld_node_impl.cpp:12-15 | The CID of the present value |
| `IpldNodeImpl.IPLDNodeImpl.GetRawBytes` | ipfs_lite/ipld/impl/ipld_node_impl.cpp:17-20 | The encoding of the present value |
| `IpldNodeImpl.IPLDNodeImpl.Assign` | ipfs_lite/ipld/impl/ipld_node_impl.cpp:27-31 | Replaces the content only |
| `IpldNodeImpl.IPLDNodeImpl.AddLink` | ipfs_lite/ipld/impl/ipld_node_impl.cpp:66-70 | Adds a link unless the name is taken, in which case the old link stays |
| `IpldNodeImpl.IPLDNodeImpl.AddChild` | ipfs_lite/ipld/impl/ipld_node_impl.cpp:38-45 | Adds a link to the CID of the present value of the child, which is not changed |
| `IpldNodeImpl.IPLDNodeImpl.RemoveLink` | ipfs_lite/ipld/impl/ipld_node_impl.cpp:56-64 | Exactly the link of that name goes |
| `IpldNodeImpl.IPLDNodeImpl.GetLink` | ipfs_lite/ipld/impl/ipld_node_impl.cpp:47-54 | A link is returned if and only if it is in the node under that name, so at most one has the name; LINK_NOT_FOUND if and only if none has |
| `IpldNodeImpl.IPLDNodeImpl.AddDestination` | ipfs_lite/ipld/impl/ipld_node_impl.cpp:88-92 | The destination is present afterwards, once |
| `IpldNodeImpl.IPLDNodeImpl.RemoveDestination` | ipfs_lite/ipld/impl/ipld_node_impl.cpp:94-98 | Exactly that destination goes |
| `IpldNodeImpl.IPLDNodeImpl.ClearDestinations` | ipfs_lite/ipld/impl/ipld_node_impl.cpp:110-114 | No destination is left; content and links stay |
| `IpldNode.LinkLengthIsExact` | ipfs_lite/ipld/impl/ipld_node_encoder_pb.cpp:30-41 | The length computed for a link is the number of bytes its message takes |
| `IpldNode.MeasureLinks` | ipfs_lite/ipld/impl/ipld_node_encoder_pb.cpp:45-55 | The first loop computes every link length and their total with headers, which is zero only without links |
| `IpldNode.WriteLinks` | ipfs_lite/ipld/impl/ipld_node_encoder_pb.cpp:58-84 | The second loop fills the buffer exactly |
| `IpldNode.WriteLink` | ipfs_lite/ipld/impl/ipld_node_encoder_pb.cpp:62-83 | One link takes its header and exactly the announced length |
| `IpldNode.SerializeLinks` | ipfs_lite/ipld/impl/ipld_node_encoder_pb.cpp:43-88 | The bytes are the links as PBNode fields |
| `IpldNode.SerializeContent` | ipfs_lite/ipld/impl/ipld_node_encoder_pb.cpp:90-104 | The bytes are the content as a PBNode field, none if it is empty |
| `IpldNode.SerializeDestinations` | ipfs_lite/ipld/impl/ipld_node_encoder_pb.cpp:106-125 | The bytes are the destinations as PBNode fields, in a buffer that is filled exactly |
| `IpldNode.Encode` | ipfs_lite/ipld/impl/ipld_node_encoder_pb.cpp:14-28 | The bytes read as one field 2 for each link, in order, then the content as field 1 unless it is empty, then one field 3 for each destination, in order; a link reads as hash, name and size |
| `IpldNode.NodeMessageIsUnique` | ipfs_lite/ipld/impl/ipld_node_encoder_pb.cpp:14-28 | No other bytes do, so these fields in this order fix the CID of a node |
| `ProtobufWire.FieldForm` | ipfs_lite/ipld/impl/ipld_node_encoder_pb.cpp:58-84 | A field is one byte of number and wire type, 0 for a varint and 2 for bytes, and then the varint, or the length and the bytes |
| `IpldNode.CreateTag` | ipfs_lite/ipld/impl/ipld_node_encoder_pb.cpp:151-157 | A one-byte tag from which field number and wire type can be read |
| `IpldNode.CodedOutputStream.WriteBytesField` | ipfs_lite/ipld/impl/ipld_node_encoder_pb.cpp:66-73 | Tag, length and bytes fit and are the wire form of the field |
| `ProtobufWire.ReadFieldsInverts` | ipfs_lite/ipld/impl/ipld_node_encoder_pb.cpp:58-84 | Reading fields undoes writing them, whatever they are |
| `MerkleDag.FetchGraphOnDepth` | ipfs_lite/ipfs/merkledag/impl/merkledag_service_impl.cpp:87-100 | Succeeds exactly when every node within the depth can be read, and then is the unfolding of the graph cut there; DUPLICATE_LEAF never occurs. Without a depth, for every graph without a cycle below the given node |
| `MerkleDag.UnfoldingIsUnique` | ipfs_lite/ipfs/merkledag/impl/merkledag_service_impl.cpp:87-100 | There is only one unfolding, so the fetched tree is determined by store, root and depth |
| `MerkleDag.BuildGraph` | ipfs_lite/ipfs/merkledag/impl/merkledag_service_impl.cpp:102-134 | Fills a leaf with the unfoldings behind its links, or fails with UNRESOLVED_LINK and a path to a node that cannot be read |
| `MerkleDag.BuildChild` | ipfs_lite/ipfs/merkledag/impl/merkledag_service_impl.cpp:113-126 | The leaf of one child is its unfolding one level less deep |
| `MerkleDag.MerkleDagService.FetchGraph` | ipfs_lite/ipfs/merkledag/impl/merkledag_service_impl.cpp:76-85 | The same over the nodes of the store |
| `MerkleDag.MerkleDagService.AddNode` | ipfs_lite/ipfs/merkledag/impl/merkledag_service_impl.cpp:17-21 | The bytes of the present value are stored under its CID; the node is not changed |
| `MerkleDag.MerkleDagService.GetNode` | ipfs_lite/ipfs/merkledag/impl/merkledag_service_impl.cpp:28-32 | The node parsed from what is stored, or the reason there is none |
| `MerkleDag.AddThenGet` | ipfs_lite/ipfs/merkledag/impl/merkledag_service_impl.cpp:17-32 | A node with version 0 links that was added is read back as it was and keeps its CID |
| `MerkleDag.StoreIsMapped` | ipfs_lite/ipfs/merkledag/impl/merkledag_service_impl.cpp:28-32 | Every node read from a store has its links ordered and distinct |
| `MerkleDag.Select` | ipfs_lite/ipfs/merkledag/impl/merkledag_service_impl.cpp:44-74 | The handler is offered root and direct children in order until it refuses one; the number offered is never zero |
| `MerkleDag.Leaf.InsertSubLeaf` | ipfs_lite/ipfs/merkledag/leaf.cpp:16-24 | Adds a child unless the name is taken, in which case nothing changes |
| `MerkleDag.Leaf.SubLeaf` | ipfs_lite/ipfs/merkledag/leaf.cpp:7-14 | There is a child if and only if the tree has the path of that one name, and the child has at every path what the tree has at that path behind the name |
| `MessageQueue.MessageQueue.Enqueue` | ipfs_lite/ipfs/graphsync/impl/network/message_queue.cpp:25-44 | Null and empty messages are ignored; until the first error, messages handed to the stream followed by those pending are those enqueued, in order, and nothing is pending without a write in flight |
| `MessageQueue.MessageQueue.BeginWrite` | ipfs_lite/ipfs/graphsync/impl/network/message_queue.cpp:73-114 | A stream that takes no more writes loses the message and reports it |
| `MessageQueue.MessageQueue.Dequeue` | ipfs_lite/ipfs/graphsync/impl/network/message_queue.cpp:60-71 | The first pending message is written next, and the pending bytes stay the sum of what is pending |
| `MessageQueue.MessageQueue.OnMessageWritten` | ipfs_lite/ipfs/graphsync/impl/network/message_queue.cpp:116-145 | Only a completion of the full length counts, in the total of bytes written too, and starts the next write; anything else ends the order guarantee |
| `MessageQueue.MessageQueue.Clear` | ipfs_lite/ipfs/graphsync/impl/network/message_queue.cpp:46-50 | Nothing is pending afterwards |
| `MessageQueue.MessageQueue.Close` | ipfs_lite/ipfs/graphsync/impl/network/message_queue.cpp:52-58 | Inactive, without stream and without pending messages |
| `MessageQueue.OutboundEndpoint.OnConnected` | ipfs_lite/ipfs/graphsync/impl/network/outbound_endpoint.cpp:12-29 | Everything that waited for the connection enters the queue in order, behind what is there |
| `MessageQueue.OutboundEndpoint.Enqueue` | ipfs_lite/ipfs/graphsync/impl/network/outbound_endpoint.cpp:48-73 | Overflow exactly if the bytes not yet handed over would pass the limit; accepted messages keep their order before and after the connection |
| `MessageQueue.OutboundEndpoint.ClearPendingMessages` | ipfs_lite/ipfs/graphsync/impl/network/outbound_endpoint.cpp:75-86 | Drops what waits, on whichever side of the connection, and nothing that was handed over |
| `MessageQueue.InboundEndpoint.AddBlockToResponse` | ipfs_lite/ipfs/graphsync/impl/network/inbound_endpoint.cpp:16-39 | Until the first failure, blocks of the messages sent followed by those in the builder are the blocks added; if no block exceeds the message limit, no message does |
| `MessageQueue.InboundEndpoint.Send` | ipfs_lite/ipfs/graphsync/impl/network/inbound_endpoint.cpp:46-81 | The builder is emptied in any case; its message is queued or the reason given |
| `MessageQueue.InboundEndpoint.SendResponse` | ipfs_lite/ipfs/graphsync/impl/network/inbound_endpoint.cpp:41-61 | The blocks gathered so far go out with the status, or the failure is recorded |
| `PeerRuns.RequestsAreConserved` | ipfs_lite/ipfs/graphsync/impl/network/peer_context.cpp:254-317 | Over every run and for each id: entries into the local ids = last callbacks + withdrawals + (1 if still there); so an accepted, uncancelled request has had exactly one last callback once the peer is closed |
| `PeerRuns.EveryRunKeeps` | ipfs_lite/ipfs/graphsync/impl/network/peer_context.cpp:388-555 | In every reachable state: remote requests name live streams that list them, a connected endpoint has a live stream, an open peer that connects has no streams, a closed peer has no local or remote ids, and the log keeps the discipline of callbacks |
| `PeerRuns.StepKeeps` | ipfs_lite/ipfs/graphsync/impl/network/peer_context.cpp:88-555 | Every entry point keeps all of that, for all inputs |
| `PeerRuns.CallbacksOnlyWhileOpen` | ipfs_lite/ipfs/graphsync/impl/network/peer_context.cpp:464-512 | At any moment: a callback finds its request accepted and not ended, nothing is accepted after the peer was reported closed, that is reported once, and a remote request is served through the stream it was last made through |
| `PeerRuns.LastCallbacksAreTerminal` | ipfs_lite/ipfs/graphsync/impl/network/peer_context.cpp:464-489 | If the peer is only ever closed with a terminal status, every last callback carries one |
| `PeerDelivery.MessageIsDelivered` | ipfs_lite/ipfs/graphsync/impl/network/peer_context.cpp:491-683 | A message on a live stream: each response whose id is open when it is handled is called back exactly once, with its own status, in order, and no other; an id stays open exactly if none of its responses was terminal; then each block is reported, with the first as root |
| `PeerDelivery.EveryMessageIsDelivered` | ipfs_lite/ipfs/graphsync/impl/network/peer_context.cpp:491-683 | So after every run |
| `PeerDelivery.NextRequestIsHandled` | ipfs_lite/ipfs/graphsync/impl/network/peer_context.cpp:514-555 | Each request of a message, after any others: a cancel takes the id back, a new id is handed on and served through this stream, a taken one is answered RS_REJECTED through the stream it belongs to, or the peer closes |
| `PeerDelivery.CompleteListForgets` | ipfs_lite/ipfs/graphsync/impl/network/peer_context.cpp:621-628 | A complete request list forgets what its stream had asked for |
| `PeerClosing.ClosesIff` | ipfs_lite/ipfs/graphsync/impl/network/peer_context.cpp:88-837 | Exactly when a step closes an open peer, for every entry point |
| `PeerClosing.ClosesForReason` | ipfs_lite/ipfs/graphsync/impl/network/peer_context.cpp:388-427 | A peer that closes is left with nothing, and with the status that says why |
| `PeerClosing.ReasonIsTold` | ipfs_lite/ipfs/graphsync/impl/network/peer_context.cpp:464-489 | Whatever a step does, the requests it abandons are told that status |
| `PeerClosing.NoticesAre` | ipfs_lite/ipfs/graphsync/impl/network/peer_context.cpp:464-489 | They are told in ascending order of their ids |
| `PeerClosing.StreamsAreReported` | ipfs_lite/ipfs/graphsync/impl/network/peer_context.cpp:429-462 | A step closes exactly the streams that are gone after it |
| `PeerEffects.LocalRequestsAreKept` | ipfs_lite/ipfs/graphsync/impl/network/peer_context.cpp:254-317 | A request is taken in once while the peer stays open; a cancel takes it back, and sends a message if there is an endpoint that takes it |
| `PeerEffects.AnswersAreServed` | ipfs_lite/ipfs/graphsync/impl/network/peer_context.cpp:336-380 | A response or block of an actual request goes out through the stream of the request, or the peer closes; of any other nothing happens |
| `PeerEffects.ConnectingUsesFirst` | ipfs_lite/ipfs/graphsync/impl/network/peer_context.cpp:88-214 | Connecting uses the first live stream, or waits for the one that comes first |
| `PeerEffects.MessageProlongs` | ipfs_lite/ipfs/graphsync/impl/network/peer_context.cpp:671-683 | A message gives its stream a minute from now, and leaves the time of others alone |
| `PeerEffects.WriteProlongs` | ipfs_lite/ipfs/graphsync/impl/network/peer_context.cpp:697-709 | So does a completed write |
| `PeerEffects.StreamBegins` | ipfs_lite/ipfs/graphsync/impl/network/peer_context.cpp:179-214 | A new stream begins with a minute |
| `PeerRuns.RequestLostIff` | ipfs_lite/ipfs/graphsync/impl/network/peer_context.cpp:254-297 | A new request is neither accepted nor called back exactly when the peer is open and has no endpoint or one that cannot take the message |
| `PeerRuns.RequestMayBeLost` | ipfs_lite/ipfs/graphsync/impl/network/peer_context.cpp:254-297 | A run in which this happens: a connected peer whose endpoint cannot take a request is closed, and no event concerns the request |
| `PeerRuns.SinkIsFound` | ipfs_lite/ipfs/graphsync/impl/network/peer_context.cpp:319-334 | The branch for a missing stream is never taken |
| `PeerRuns.ClosedIsForever` | ipfs_lite/ipfs/graphsync/impl/network/peer_context.cpp:388-400 | A closed peer stays closed, with the status it was closed with |
| `PeerRuns.CloseKeeps` | ipfs_lite/ipfs/graphsync/impl/network/peer_context.cpp:388-427 | Closing ends every local request and leaves no stream, no endpoint and the given status |
| `PeerRuns.CloseStreamKeeps` | ipfs_lite/ipfs/graphsync/impl/network/peer_context.cpp:429-462 | Closing a stream keeps the invariant, also when it closes the peer |
| `PeerRuns.NoticesEndAll` | ipfs_lite/ipfs/graphsync/impl/network/peer_context.cpp:464-489 | The closing callbacks end exactly the requests they are made for |
| `PeerRuns.ExactLostIff` | ipfs_lite/ipfs/graphsync/impl/network/peer_context.cpp:514-555 | A request message makes a stream list an id that is not its own if and only if it is a cancel of another stream's request |
| `PeerRuns.CleanRunsAreExact` | ipfs_lite/ipfs/graphsync/impl/network/peer_context.cpp:514-555 | Over every run in which no message cancels another stream's request, every stream lists exactly the requests made through it |
| `PeerRuns.ClosingForgetsItsOwnIff` | ipfs_lite/ipfs/graphsync/impl/network/peer_context.cpp:441-446 | In every state that keeps the invariant: closing a stream forgets exactly the requests made through it if and only if no id that it lists is mapped to another stream |
| `PeerRuns.CleanRunsForgetTheirOwn` | ipfs_lite/ipfs/graphsync/impl/network/peer_context.cpp:429-462 | So after every such run closing a stream forgets exactly the requests made through it |
| `PeerRuns.ClosingMayForgetAnother` | ipfs_lite/ipfs/graphsync/impl/network/peer_context.cpp:525-530 | A run with such a cancel, after which closing one stream forgets the request of another that stays open |
| `PeerRuns.TimerClosesTheIdle` | ipfs_lite/ipfs/graphsync/impl/network/peer_context.cpp:750-815 | The timer of an open peer closes exactly the streams that are idle and out of time, and the peer exactly when none is left |
| `PeerEffects.TimerLeaves` | ipfs_lite/ipfs/graphsync/impl/network/peer_context.cpp:765-803 | Exactly those streams stay that have time left or something to write; one that only waits for its window gets three minutes from now |
| `PeerContext.PeerContext.NeedToConnect` | ipfs_lite/ipfs/graphsync/impl/network/peer_context.cpp:88-108 | The step of the state machine; asks for a connection exactly when it creates an endpoint without a stream |
| `PeerContext.PeerContext.FinishStreamConfig` | ipfs_lite/ipfs/graphsync/impl/network/peer_context.cpp:179-214 | The step of the state machine: the stream that a connecting endpoint waits for becomes its stream, the first stream schedules the cleanup timer, and the timer of the peer starts anew |
| `PeerContext.PeerContext.ResetPeerTimeout` | ipfs_lite/ipfs/graphsync/impl/network/peer_context.cpp:731-748 | The step of the state machine: the timer of an open peer starts anew, a closed peer is left alone |
| `PeerContext.PeerContext.KeepAlive` | ipfs_lite/ipfs/graphsync/impl/network/peer_context.cpp:382-386 | The step of the state machine: the same from outside |
| `PeerContext.PeerContext.ConnectFailed` | ipfs_lite/ipfs/graphsync/impl/network/peer_context.cpp:228-240 | The step of the state machine: a failure closes the peer only while it is connecting |
| `PeerContext.PeerContext.EnqueueRequest` | ipfs_lite/ipfs/graphsync/impl/network/peer_context.cpp:254-297 | The step of the state machine, whose outcome for the request RequestLostIff describes |
| `PeerContext.PeerContext.CancelRequest` | ipfs_lite/ipfs/graphsync/impl/network/peer_context.cpp:299-317 | The step of the state machine: the id is withdrawn if the peer is open and has it; the cancel message goes to the endpoint if there is one that takes it, and is lost otherwise |
| `PeerContext.PeerContext.AddBlockToResponse` | ipfs_lite/ipfs/graphsync/impl/network/peer_context.cpp:336-357 | The step of the state machine; true exactly if the request is actual and its endpoint takes the block |
| `PeerContext.PeerContext.SendResponse` | ipfs_lite/ipfs/graphsync/impl/network/peer_context.cpp:359-380 | The step of the state machine, through the stream of the request or closing the peer |
| `PeerContext.PeerContext.Close` | ipfs_lite/ipfs/graphsync/impl/network/peer_context.cpp:388-427 | The loop over the streams, each closed by the recursive method, makes the closing step |
| `PeerContext.PeerContext.CloseStream` | ipfs_lite/ipfs/graphsync/impl/network/peer_context.cpp:429-462 | The step of the state machine, including the case that the last stream takes the peer with it |
| `PeerContext.PeerContext.CloseLocalRequests` | ipfs_lite/ipfs/graphsync/impl/network/peer_context.cpp:464-489 | One callback for each local id in ascending order, and no endpoint afterwards |
| `PeerContext.PeerContext.ForgetRequests` | ipfs_lite/ipfs/graphsync/impl/network/peer_context.cpp:441-444 | The loop removes exactly the given ids |
| `PeerContext.PeerContext.OnResponse` | ipfs_lite/ipfs/graphsync/impl/network/peer_context.cpp:491-512 | A response to an unknown id changes nothing; one to a local id is called back with its status, and the id stays exactly if the status is not terminal |
| `PeerContext.PeerContext.OnRequest` | ipfs_lite/ipfs/graphsync/impl/network/peer_context.cpp:514-555 | The step of the state machine: cancel, rejection of a duplicate, or a new request |
| `PeerContext.PeerContext.OnReaderEvent` | ipfs_lite/ipfs/graphsync/impl/network/peer_context.cpp:585-683 | All requests, responses and blocks of a message in order, behind a reset of the peer's timer; an error closes the stream |
| `PeerContext.PeerContext.ReadBlocks` | ipfs_lite/ipfs/graphsync/impl/network/peer_context.cpp:653-669 | Every block is reported with the first one as root |
| `PeerContext.PeerContext.OnWriterEvent` | ipfs_lite/ipfs/graphsync/impl/network/peer_context.cpp:685-709 | A write error closes the peer, a completed write prolongs its stream and resets the peer's timer |
| `PeerContext.PeerContext.OnStreamCleanupTimer` | ipfs_lite/ipfs/graphsync/impl/network/peer_context.cpp:750-837 | The step of the state machine, and the delay until the timer fires again: up to the latest expiry among the streams that wait |
| `PeerContext.PeerContext.FindTimedOut` | ipfs_lite/ipfs/graphsync/impl/network/peer_context.cpp:765-803 | One pass in map order extends exactly the starved streams and collects exactly the idle ones |
| `PeerContext.WaitsIff` | ipfs_lite/ipfs/graphsync/impl/network/peer_context.cpp:765-803 | The streams that determine the next firing are those that stay and have no write in flight |
| `ResponseStatus.KindsAre` | ipfs_lite/ipfs/graphsync/impl/common.cpp:41-54 | Of the codes of the protocol, all but the informational ones are terminal; errors are the internal and the failed ones |
| `PeerEndpoints.EnqueueRequest` | ipfs_lite/ipfs/graphsync/impl/network/peer_context.cpp:254-297 | Peer and outbound endpoint together: the peer makes the step in which a message fits exactly if it is empty or the bytes that wait and its own do not pass the limit; the endpoint takes exactly the non-empty message that fits, and nothing when the peer is closed or has no endpoint |
| `PeerEndpoints.CancelRequest` | ipfs_lite/ipfs/graphsync/impl/network/peer_context.cpp:299-317 | The same for the message of a cancel |
| `PeerEndpoints.SendResponse` | ipfs_lite/ipfs/graphsync/impl/network/peer_context.cpp:359-380 | Peer and inbound endpoint together: a response fits exactly if its message can be serialized and the queue is not over its limit; exactly then it is sent with the blocks gathered, and without a stream for the request the endpoint is left alone |
| `PeerEndpoints.AddBlockToResponse` | ipfs_lite/ipfs/graphsync/impl/network/peer_context.cpp:336-357 | A block fits exactly if it keeps the queue within its limit and a full message in front of it can be serialized; it is added, and true is returned, exactly if it fits and its request is actual |
| `LocalRequests.LocalRequests.NewRequest` | ipfs_lite/ipfs/graphsync/impl/local_requests.cpp:19-55 | The id is not in use among active or rejected requests, positive if it could be serialized and negative if not; exactly one callback is registered |
| `LocalRequests.LocalRequests.NextRequestId` | ipfs_lite/ipfs/graphsync/impl/local_requests.cpp:162-180 | The number of the generator if it is positive and unused, else the least unused positive id, within 32 bits |
| `LocalRequests.LocalRequests.NewRejectedRequest` | ipfs_lite/ipfs/graphsync/impl/local_requests.cpp:57-69 | The id is one below the counter and in use neither among active nor among rejected requests, exactly one callback is registered, and a notification is scheduled |
| `LocalRequests.LocalRequests.OnResponse` | ipfs_lite/ipfs/graphsync/impl/local_requests.cpp:71-92 | The callback registered under the id, and no other, gets the status; a terminal one removes it |
| `LocalRequests.LocalRequests.CancelAll` | ipfs_lite/ipfs/graphsync/impl/local_requests.cpp:129-134 | Every callback still registered gets RS_REJECTED_LOCALLY once, in order of ids, and none is registered afterwards |
| `LocalRequests.LocalRequests.NotifyAll` | ipfs_lite/ipfs/graphsync/impl/local_requests.cpp:94-106 | The loop over the swapped-out map |
| `LocalRequests.LocalRequests.NotificationFires` | ipfs_lite/ipfs/graphsync/impl/local_requests.cpp:115-126 | The rejected ones get RS_REJECTED_LOCALLY once and their numbering starts anew |
| `LocalRequests.LocalRequests.Unsubscribe` | ipfs_lite/ipfs/graphsync/impl/local_requests.cpp:136-160 | What is registered under the id ends, whoever holds the ticket, and nothing else; only an active request is cancelled at the peer |
| `LocalRequests.TicketEndsItsOwnIff` | ipfs_lite/ipfs/graphsync/impl/local_requests.cpp:115-160 | A subscription dropped while something is registered under its id ends the registration it was made for if and only if that one has not ended before |
| `LocalRequests.DropLate` | ipfs_lite/ipfs/graphsync/impl/local_requests.cpp:115-143 | A run in which a subscription dropped late ends the registration of somebody else: the id -1 is issued twice, and the second callback is never called |
| `LocalRequests.LocalRequests.GetRequestRootCid` | ipfs_lite/ipfs/graphsync/impl/local_requests.cpp:182-190 | The root CID is known for every active request |
| `LocalRequests.SilentAfterEnd` | ipfs_lite/ipfs/graphsync/impl/local_requests.cpp:71-92 | After its terminal status or its unsubscription a registration is never called and never ended again |
| `LocalRequests.RegistrationsAreConserved` | ipfs_lite/ipfs/graphsync/impl/local_requests.cpp:19-160 | For each id: registrations = terminal calls and unsubscriptions + (1 if registered) |
| `LocalRequests.RejectionsAre` | ipfs_lite/ipfs/graphsync/impl/local_requests.cpp:94-106 | The calls of `cancelAll` are one per registered callback, with that status, in ascending order of ids |
| `LocalRequests.RejectionsEndAll` | ipfs_lite/ipfs/graphsync/impl/local_requests.cpp:94-106 | They end exactly those registrations |
| `LocalRequests.TakenIdsAreMany` | ipfs_lite/ipfs/graphsync/impl/local_requests.cpp:170-179 | The search for an unused id ends after at most as many steps as there are active requests |
| `AnswerProtocol.AnswersExcludeEachOther` | ipfs_lite/ipfs/graphsync/impl/graphsync_impl.cpp:281-414 | Under every interleaving of lookup, status, check, send and remove steps, content found and not found are never both answered, unless one that finds content registers after a check has passed, or one that finds nothing after the request was forgotten |
| `AnswerProtocol.AnswersExcludeEachOtherWhenAllRegisterFirst` | ipfs_lite/ipfs/graphsync/impl/graphsync_impl.cpp:260-414 | In particular if all instances register before any task runs |
| `AnswerProtocol.BothPossibleIff` | ipfs_lite/ipfs/graphsync/impl/graphsync_impl.cpp:260-414 | The exact condition over all interleavings: some run answers both if and only if one participant finds content and one finds nothing, and both are started when they come to send |
| `AnswerProtocol.BothAnswer` | ipfs_lite/ipfs/graphsync/impl/graphsync_impl.cpp:270-278 | Such a run for any two of them, in either order: the second registers when the first has answered |
| `AnswerProtocol.RunIsSound` | ipfs_lite/ipfs/graphsync/impl/graphsync_impl.cpp:281-414 | What makes it so: as long as no check has passed, every registered instance that finds content is tracked |
| `AnswerProtocol.AtomicAnswers` | ipfs_lite/ipfs/graphsync/impl/graphsync_impl.cpp:346-413 | With atomic tasks: before the last one only content found is answered; in the end that, once per instance, or not found, once, the latter exactly if nobody found content, nobody is gone, and the last task found nothing |
| `AnswerProtocol.SilentAfterFailure` | ipfs_lite/ipfs/graphsync/impl/graphsync_impl.cpp:354-360 | If the task that runs last is one whose lookup failed and nobody found content, the peer gets no answer at all |
| `AnswerProtocol.PassesIff` | ipfs_lite/ipfs/graphsync/impl/local_requests.hpp:71-90 | Between atomic tasks the check passes exactly when all others have run and nobody found content or is gone |
| `AnswerProtocol.TaskIsSteps` | ipfs_lite/ipfs/graphsync/impl/graphsync_impl.cpp:281-414 | A whole task is at most four steps of the machine, whatever its outcome |
| `AnswerProtocol.RunTask` | ipfs_lite/ipfs/graphsync/impl/graphsync_impl.cpp:281-414 | The task over the real generator and status holders makes exactly the step of the machine and returns exactly what the machine sends |
| `AnswerProtocol.Register` | ipfs_lite/ipfs/graphsync/impl/graphsync_impl.cpp:270-271 | Registering a holder in the generator is the first step of a participant |
| `AnswerProtocol.RemoveOwn` | ipfs_lite/ipfs/graphsync/impl/graphsync_impl.cpp:292-297 | Removing a holder from the generator is what a participant does that leaves |
| `AnswerProtocol.Check` | ipfs_lite/ipfs/graphsync/impl/graphsync_impl.cpp:392-393 | The check of the generator is the check of the machine |
| `AnswerProtocol.RequestIdGenerator.RegisterStatus` | ipfs_lite/ipfs/graphsync/impl/local_requests.hpp:30-41 | A new holder, awaiting its status, behind those of the request |
| `AnswerProtocol.RequestIdGenerator.RemoveStatus` | ipfs_lite/ipfs/graphsync/impl/local_requests.hpp:44-68 | Exactly that holder goes, and the request with its last one |
| `AnswerProtocol.RequestIdGenerator.AllStatusesNotFound` | ipfs_lite/ipfs/graphsync/impl/local_requests.hpp:71-90 | True exactly if the request is tracked and every holder reports RS_NOT_FOUND |
| `AnswerProtocol.RequestIdGenerator.RemoveRequest` | ipfs_lite/ipfs/graphsync/impl/local_requests.hpp:93-97 | The request is no longer tracked; others are |
| `AnswerProtocol.RequestIdGenerator.Next` | ipfs_lite/ipfs/graphsync/impl/local_requests.hpp:24-27 | The next 32-bit number, wrapping around |
| `AnswerProtocol.WithoutContents` | ipfs_lite/ipfs/graphsync/impl/local_requests.hpp:54-62 | Removing a holder removes it and no other, as holders are distinct |

## Left out

- PeerContext.PeerContext.Close: assumes atomic, non-re-entrant steps; a write failure reported from inside a call of the same peer, data races and the lifetime of objects are not modelled.
- PeerContext.PeerContext.FinishStreamConfig: stands for the completion of the window adjustment; opening of streams and the adjustment itself are libp2p's.
- PeerContext.PeerContext.OnReaderEvent: message parsing is not modelled, a message is its list flag, requests, responses and blocks; extensions and selectors are dropped.
- PeerContext.PeerContext.OnStreamCleanupTimer: the scheduler that runs timers is not modelled; the states of the write queues are inputs, because a queue reports back into the peer.
- PeerRuns.EveryRunKeeps: does not say that a closed peer has no streams, because `finishStreamConfig` does not test for it.
- PeerProtocol: the outbound address, which only concerns connecting; a timer is an entry of the log when it is set, and an input when it fires.
- PeerEndpoints.EnqueueRequest: the endpoint is the one the peer holds at that time; which stream's queue it is bound to is the state of the peer.
- PeerEndpoints.SendResponse: the endpoint is that of the stream of the request; a peer that closes drops its endpoints, which is not shown at the endpoint.
- MessageQueue.MessageQueue.Close: proved as written, but nothing in the repository calls it.
- MessageQueue.InboundEndpoint.Send: the protobuf form of a message is a parameter: it may fail, is not empty, and its size counts every block byte.
- LocalRequests.LocalRequests.NextRequestId: requires fewer than 2^31 - 1 active requests, beyond which the search for an id overflows a signed integer; the branch that returns 0 is not reachable before that.
- LocalRequests.LocalRequests.NewRejectedRequest: the decrement is not bounded below; ids start anew whenever the notification fires.
- LocalRequests.LocalRequests.Unsubscribe: says what ends under the id, not that it is the caller's; TicketEndsItsOwnIff says when it is.
- LocalRequests.LocalRequests.CancelAll: callbacks that make new requests while they are called are not modelled.
- AnswerProtocol.AnswersExcludeEachOther: each step is atomic; statuses are written and read without a lock in the program. Of a single run the condition is sufficient, as a late registration may also do no harm; over all runs BothPossibleIff is exact.
- AnswerProtocol.RunTask: runs in one go; the interleaving of tasks is that of the machine.
- AnswerProtocol.AtomicAnswers: participants are those of one request id; requests of different peers with the same id are participants too.
- GraphsyncImpl: `doStop`, tracked requests and their cleanup, and `Network`'s table of peers (`active_requests_per_peer_` is never filled, so its cancel path is never taken).
- CborBuffering.CborBuffering.Consume: says nothing about the state after an error, which the program does not use again.
- CborStream.CborStream.ReadRaw: errors of the underlying stream end a read and are not modelled.
- CborEncodeStream.CborEncodeStream.PutMap: a list that was put together from other than one item is refused as the code does it; `wrap`, which takes bytes and count on trust, is left out.
- CborEncodeStream.LessCborKeyStrictTotal: lengths are compared as numbers; the code subtracts them in a signed word, which agrees below 2^63.
- CborDecodeStream and the CBOR resolver: thin layers over the tinycbor parser, which is not part of this model.
- Blake2.HashChunks: the compression rounds are an abstract function; the context is not wiped.
- IpldNodeImpl.NodeRoundTripIff: links are sha2-256 multihashes, as only the multihash is written; other byte forms of a CID are not part of this model, and SHA-256 is a parameter.
- IpldNodeImpl.CreateFromRawBytes: CID bytes that are not a sha2-256 multihash are an error here; the program also reads version 1 CIDs and other hashes.
- IpldNodeImpl.IPLDNodeImpl.RemoveLink: the subtraction from `child_nodes_size_` is left out, as is the addition in `addChild`.
- IpldNodeImpl.IPLDNodeImpl.AddChild: the size of the child is an argument; the accounting of `child_nodes_size_` and `size()` is left out because links and children are counted differently.
- ProtobufWire.ReadFieldsInverts: groups (wire types 3 and 4), which no message here uses, are refused by the reader.
- MerkleDag.FetchGraphOnDepth: without a depth, the links that can be reached have to lead to nodes of smaller rank, as they do in a content-addressed store; on a cycle the program does not end.
- MerkleDag.MerkleDagService.AddNode: the block service is a map from CIDs to bytes; its errors, sealing and removal are left out.
- The RocksDB and in-memory stores, the DHT, gRPC, hex helpers, logging and the byte conversions of `mp_utils`: input and output, or maps of one line.
