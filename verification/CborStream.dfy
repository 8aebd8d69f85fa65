// common/libp2p/cbor_stream.cpp: reads CBOR objects from a stream that delivers bytes
// in chunks of its own choosing.
//
// A read that needs more bytes returns `NeedMore`; the completion of the underlying
// `readSome` is the method `OnRead`, called with the bytes it stored.

module CborStream {
  import opened Basics
  import opened CborGrammar
  import opened CborBuffering
  import opened CborFraming

  const RESERVE_BYTES: nat := 4096

  datatype Outcome = Object(bytes: seq<byte>) | NeedMore | Failed(error: Error)

  // std::vector::resize: cut, or fill with zero bytes.
  function Resized(bs: seq<byte>, n: nat): (r: seq<byte>)
    ensures |r| == n
  {
    if n <= |bs| then bs[..n] else bs + seq(n - |bs|, _ => 0)
  }

  // `bs` is, byte for byte, one object for the buffering machine.
  predicate Framed(bs: seq<byte>) {
    Feed(START, bs, 0) == More(FINISHED, |bs|)
  }

  // `bs` is the beginning of an object and no whole object.
  predicate Unfinished(bs: seq<byte>) {
    var f := Feed(START, bs, 0);
    f.More? && f.consumed == |bs| && !Done(f.state)
  }

  class CborStream {
    const buffering: CborBuffering
    var buffer: seq<byte>
    var size: nat
    ghost var delivered: seq<byte>       // every byte the underlying stream has stored
    ghost var objects: seq<seq<byte>>    // what the callbacks have been given, in order

    ghost predicate Consistent()
      reads this, buffering
    {
      buffering.Valid() && size <= |buffer| && forall o | o in objects :: Framed(o)
    }

    // No read is under way; bytes behind the last object wait in the buffer.
    ghost predicate Idle()
      reads this, buffering
    {
      Consistent() && Done(buffering.Abs()) && delivered == Flatten(objects) + buffer[size..]
    }

    // A read waits for bytes; all bytes of the buffer but the reserve belong to its object.
    ghost predicate Waiting()
      reads this, buffering
    {
      Consistent() && |buffer| == size + 4096 && !Done(buffering.Abs()) &&
      Feed(START, buffer[..size], 0) == More(buffering.Abs(), size) &&
      delivered == Flatten(objects) + buffer[..size]
    }

    constructor ()
      ensures Idle() && fresh(buffering) && delivered == [] && objects == []
    {
      buffering := new CborBuffering();
      buffer, size := [], 0;
      delivered, objects := [], [];
    }

    // What both entry points promise. `unread` are the bytes not yet in an object.
    twostate predicate Outcomes(r: Outcome, unread: seq<byte>)
      reads this, buffering
    {
      match r
      case Object(bytes) =>
        Idle() && objects == old(objects) + [bytes] && bytes <= unread
      case NeedMore =>
        Waiting() && objects == old(objects) && unread == buffer[..size]
      case Failed(e) =>
        objects == old(objects) && Feed(START, unread, 0).Fail? && Feed(START, unread, 0).error == e
    }

    method ReadRaw() returns (r: Outcome)
      requires Idle()
      modifies this, buffering
      ensures delivered == old(delivered)
      ensures Outcomes(r, old(buffer[size..]))
    {
      buffering.Reset();
      buffer := buffer[size..];
      size := 0;
      assert buffer[..0] == [];
      r := Consume();
    }

    method OnRead(chunk: seq<byte>) returns (r: Outcome)
      requires Waiting() && |chunk| <= 4096
      modifies this, buffering
      ensures delivered == old(delivered) + chunk
      ensures Outcomes(r, old(buffer[..size]) + chunk)
    {
      buffer := buffer[..size] + chunk + buffer[size + |chunk|..];
      delivered := delivered + chunk;
      buffer := Resized(buffer, size + |chunk|);
      assert buffer == old(buffer[..size]) + chunk;
      assert buffer[..size] == old(buffer[..size]);
      r := Consume();
    }

    // Hands everything behind `size` to the machine.
    method Consume() returns (r: Outcome)
      requires Consistent() && !Done(buffering.Abs())
      requires Feed(START, buffer[..size], 0) == More(buffering.Abs(), size)
      requires delivered == Flatten(objects) + buffer
      modifies this, buffering
      ensures delivered == old(delivered)
      ensures Outcomes(r, old(buffer))
    {
      var input := buffer[size..];
      ghost var s, done := buffering.Abs(), buffer[..size];
      assert done + input == buffer;
      FeedAppend(START, done, input, 0);
      FeedShift(s, done, input, 0);
      FeedAppend(s, input, [], 0);
      assert input + [] == input;
      var consumed := buffering.Consume(input);
      if consumed.Err? {
        return Failed(consumed.error);
      }
      size := size + consumed.value;
      r := ReadMore();
    }

    // Delivers the object, or makes room for more bytes.
    method ReadMore() returns (r: Outcome)
      requires Consistent()
      requires Feed(START, buffer, 0) == More(buffering.Abs(), size)
      requires !Done(buffering.Abs()) ==> size == |buffer|
      requires delivered == Flatten(objects) + buffer
      modifies this
      ensures delivered == old(delivered)
      ensures Outcomes(r, old(buffer))
    {
      var done := buffering.IsDone();
      ghost var s := buffering.Abs();
      assert buffer[..size] + buffer[size..] == buffer;
      if done {
        r := Object(buffer[..size]);
        FramedPrefix(buffer, size);
        FlattenSnoc(objects, buffer[..size]);
        objects := objects + [buffer[..size]];
      } else {
        buffer := Resized(buffer, size + RESERVE_BYTES);
        assert buffer[..size] == old(buffer);
        r := NeedMore;
      }
    }
  }

  lemma FramedPrefix(bs: seq<byte>, n: nat)
    requires n <= |bs| && Feed(START, bs, 0).More? && Done(Feed(START, bs, 0).state) && Feed(START, bs, 0).consumed == n
    ensures Framed(bs[..n])
  {
    var a, b := bs[..n], bs[n..];
    assert a + b == bs;
    FeedAppend(START, a, b, 0);
    var f := Feed(START, a, 0);
    if f.More? && !Done(f.state) {
      assert Feed(f.state, bs, n).consumed == n;
    }
  }

  // Of two readings of the same bytes the first frames agree.
  lemma FirstIs(o: seq<byte>, x: seq<byte>, e: seq<byte>, r: seq<byte>)
    requires Framed(o) && o + x <= e + r && Feed(START, e + r, 0) == More(FINISHED, |e|)
    ensures o == e && x <= r
  {
    var tail := (e + r)[|o| + |x|..];
    assert e + r == o + (x + tail);
    FeedAppend(START, o, x + tail, 0);
    SplitSame(o, x + tail, e, r);
  }

  // The first object is the first item, and what follows is the beginning of the other items.
  lemma FirstObject(objects: seq<seq<byte>>, unread: seq<byte>, its: seq<Item>)
    requires objects != [] && Framed(objects[0])
    requires forall it | it in its :: Readable(it)
    requires Flatten(objects) + unread <= EncodeAll(its)
    ensures its != [] && objects[0] == Encode(its[0])
    ensures Flatten(objects[1..]) + unread <= EncodeAll(its[1..])
  {
    FramedIsNotEmpty(objects[0]);
    Associative(objects[0], Flatten(objects[1..]), unread);
    if its != [] {
      FirstFrame(its[0], EncodeAll(its[1..]));
      FirstIs(objects[0], Flatten(objects[1..]) + unread, Encode(its[0]), EncodeAll(its[1..]));
    }
  }

  lemma FramedIsNotEmpty(o: seq<byte>)
    requires Framed(o)
    ensures o != []
  {
  }

  lemma SplitSame(a: seq<byte>, b: seq<byte>, c: seq<byte>, d: seq<byte>)
    requires a + b == c + d && |a| == |c|
    ensures a == c && b == d
  {
    assert a == (a + b)[..|a|] && c == (c + d)[..|a|];
    assert b == (a + b)[|a|..] && d == (c + d)[|a|..];
  }

  // Before the first object is whole, nothing is refused.
  lemma NoObjectYet(unread: seq<byte>, its: seq<Item>)
    requires forall it | it in its :: Readable(it)
    requires unread <= EncodeAll(its)
    ensures !Feed(START, unread, 0).Fail?
    ensures unread == EncodeAll(its) && Unfinished(unread) ==> its == []
  {
    if its != [] {
      var tail := EncodeAll(its)[|unread|..];
      assert unread + tail == EncodeAll(its);
      FirstFrame(its[0], EncodeAll(its[1..]));
      FeedAppend(START, unread, tail, 0);
    }
  }

  // Reassembly. Let the bytes delivered so far be the beginning of a concatenation of
  // encoded items. Then the objects handed out are the items' encodings, in order; no read
  // fails; and once all bytes are there, a read that still waits is one past the last item.
  lemma {:induction false} Reassembly(objects: seq<seq<byte>>, unread: seq<byte>, its: seq<Item>)
    requires forall o | o in objects :: Framed(o)
    requires forall it | it in its :: Readable(it)
    requires Flatten(objects) + unread <= EncodeAll(its)
    ensures |objects| <= |its|
    ensures forall k | 0 <= k < |objects| :: objects[k] == Encode(its[k])
    ensures !Feed(START, unread, 0).Fail?
    ensures Flatten(objects) + unread == EncodeAll(its) && Unfinished(unread) ==> |objects| == |its|
    decreases |its|
  {
    if objects == [] {
      assert Flatten(objects) + unread == unread;
      NoObjectYet(unread, its);
    } else {
      FirstObject(objects, unread, its);
      assert Flatten(objects) + unread == objects[0] + (Flatten(objects[1..]) + unread);
      Reassembly(objects[1..], unread, its[1..]);
    }
  }

  lemma FirstFrame(it: Item, rest: seq<byte>)
    requires Readable(it)
    ensures Feed(START, Encode(it) + rest, 0) == More(FINISHED, |Encode(it)|)
  {
    FramedExactlyIff(it, rest);
  }
}
