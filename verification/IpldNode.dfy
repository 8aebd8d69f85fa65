// ipfs_lite/ipld: nodes with content, named links and destinations, written by a
// hand-made protobuf encoder and read back through ipld_node.proto.

module IpldNode {
  import opened Basics
  import opened Bits
  import opened Ordered
  import opened ProtobufWire

  const DAG_PB: nat := 0x70

  // A content identifier; `multihash` are the bytes of its content address.
  datatype Cid = Cid(version: nat, codec: nat, multihash: seq<byte>)

  datatype Link = Link(cid: Cid, size: nat)

  // Links and destinations in the order of std::map and std::set.
  datatype Node = Node(content: seq<byte>, links: seq<Entry<Link>>, destinations: seq<Entry<()>>)

  datatype NodeError = InvalidRawBytes | InvalidCid | LinkNotFound

  // sha2-256: code 0x12, length 32.
  predicate IsSha256(multihash: seq<byte>) {
    |multihash| == 34 && multihash[0] == 0x12 && multihash[1] == 32
  }

  predicate IsCidV0(c: Cid) {
    c.version == 0 && c.codec == DAG_PB && IsSha256(c.multihash)
  }

  // The part of CID::fromBytes that concerns this encoder: the bytes of a sha2-256
  // multihash are a version 0 CID. Other byte forms are not part of this model.
  function CidFromBytes(bs: seq<byte>): (r: Result<Cid, NodeError>)
    ensures r.Ok? <==> |bs| == 34 && bs[..2] == [18, 32]
  {
    if IsSha256(bs) then Ok(Cid(0, DAG_PB, bs)) else Err(InvalidCid)
  }

  // What the containers and 64-bit sizes of the program guarantee.
  ghost predicate Valid(n: Node) {
    |n.content| < TWO64 && Ascending(LexLess, n.links) && Ascending(LexLess, n.destinations) &&
    (forall e | e in n.links :: LinkFits(e)) &&
    (forall e | e in n.destinations :: |e.key| < TWO64)
  }

  // A link is held in memory with all its field headers.
  predicate LinkFits(e: Entry<Link>) {
    e.value.size < TWO64 && |e.key| + |e.value.cid.multihash| + 64 < TWO64
  }

  // ---------------------------------------------------------------- ipld_node.proto

  // PBLink: Hash = 1, Name = 2, Tsize = 3.
  function LinkFields(e: Entry<Link>): (fs: seq<Field>)
    requires LinkFits(e)
    ensures forall f | f in fs :: Writable(f)
  {
    [BytesField(1, e.value.cid.multihash), BytesField(2, e.key), VarintField(3, e.value.size)]
  }

  function LinkBody(e: Entry<Link>): seq<byte>
    requires LinkFits(e)
  {
    FieldsBytes(LinkFields(e))
  }

  // PBNode: Data = 1, Links = 2, Destinations = 3.
  function LinksFields(links: seq<Entry<Link>>): (fs: seq<Field>)
    requires forall e | e in links :: LinkFits(e)
    ensures forall f | f in fs :: Writable(f)
  {
    if links == [] then []
    else
      LinkBodyFits(links[0]);
      [BytesField(2, LinkBody(links[0]))] + LinksFields(links[1..])
  }

  function ContentFields(content: seq<byte>): (fs: seq<Field>)
    requires |content| < TWO64
    ensures forall f | f in fs :: Writable(f)
  {
    if content == [] then [] else [BytesField(1, content)]
  }

  function DestinationsFields(destinations: seq<Entry<()>>): (fs: seq<Field>)
    requires forall e | e in destinations :: |e.key| < TWO64
    ensures forall f | f in fs :: Writable(f)
  {
    if destinations == [] then []
    else [BytesField(3, destinations[0].key)] + DestinationsFields(destinations[1..])
  }

  function NodeFields(n: Node): (fs: seq<Field>)
    requires Valid(n)
    ensures forall f | f in fs :: Writable(f)
  {
    LinksFields(n.links) + ContentFields(n.content) + DestinationsFields(n.destinations)
  }

  ghost function Encoded(n: Node): seq<byte>
    requires Valid(n)
  {
    FieldsBytes(NodeFields(n))
  }

  // ------------------------------------------------------------- the wire form, as read

  // The bytes of one link message: hash, name and size, in this order, and nothing else.
  ghost predicate IsLinkMessage(bytes: seq<byte>, e: Entry<Link>)
    requires LinkFits(e)
  {
    var fs := [BytesField(1, e.value.cid.multihash), BytesField(2, e.key), VarintField(3, e.value.size)];
    ReadFields(bytes) == Some(fs) && (forall f | f in fs :: Writable(f)) && bytes == FieldsBytes(fs)
  }

  function ContentCount(n: Node): nat {
    if n.content == [] then 0 else 1
  }

  // The bytes of a node message: one field 2 for each link, in order; then the content as
  // field 1, unless it is empty; then one field 3 for each destination, in order.
  ghost predicate AreNodeFields(fs: seq<Field>, n: Node)
    requires Valid(n)
  {
    var k := |n.links| + ContentCount(n);
    |fs| == k + |n.destinations| &&
    (forall i | 0 <= i < |n.links| ::
       fs[i].BytesField? && fs[i].number == 2 && IsLinkMessage(fs[i].bytes, n.links[i])) &&
    (n.content != [] ==> fs[|n.links|] == BytesField(1, n.content)) &&
    forall i | 0 <= i < |n.destinations| :: fs[k + i] == BytesField(3, n.destinations[i].key)
  }

  ghost predicate IsNodeMessage(bytes: seq<byte>, n: Node)
    requires Valid(n)
  {
    ReadFields(bytes).Some? &&
    var fs := ReadFields(bytes).value;
    AreNodeFields(fs, n) && (forall f | f in fs :: Writable(f)) && bytes == FieldsBytes(fs)
  }

  // There is only one such message, and so only one CID of a node.
  lemma NodeMessageIsUnique(a: seq<byte>, b: seq<byte>, n: Node)
    requires Valid(n) && IsNodeMessage(a, n) && IsNodeMessage(b, n)
    ensures a == b
  {
    NodeFieldsAreUnique(ReadFields(a).value, ReadFields(b).value, n);
  }

  lemma LinkMessageIsUnique(a: seq<byte>, b: seq<byte>, e: Entry<Link>)
    requires LinkFits(e) && IsLinkMessage(a, e) && IsLinkMessage(b, e)
    ensures a == b
  {
  }

  lemma NodeFieldIsUnique(fs: seq<Field>, gs: seq<Field>, n: Node, i: nat)
    requires Valid(n) && AreNodeFields(fs, n) && AreNodeFields(gs, n) && i < |fs|
    ensures fs[i] == gs[i]
  {
    var k := |n.links| + ContentCount(n);
    if i < |n.links| {
      LinkMessageIsUnique(fs[i].bytes, gs[i].bytes, n.links[i]);
    } else if i >= k {
      var d := n.destinations[i - k];
      assert fs[k + (i - k)] == BytesField(3, d.key) == gs[k + (i - k)];
    }
  }

  lemma NodeFieldsAreUnique(fs: seq<Field>, gs: seq<Field>, n: Node)
    requires Valid(n) && AreNodeFields(fs, n) && AreNodeFields(gs, n)
    ensures fs == gs
  {
    forall i | 0 <= i < |fs| ensures fs[i] == gs[i] {
      NodeFieldIsUnique(fs, gs, n, i);
    }
  }

  lemma LinkBodyIsMessage(e: Entry<Link>)
    requires LinkFits(e)
    ensures IsLinkMessage(LinkBody(e), e)
  {
    ReadFieldsInverts(LinkFields(e));
  }

  lemma {:induction false} LinksFieldsAt(links: seq<Entry<Link>>, i: nat)
    requires (forall e | e in links :: LinkFits(e)) && i < |links|
    ensures |LinksFields(links)| == |links| && LinksFields(links)[i] == BytesField(2, LinkBody(links[i]))
  {
    if i > 0 {
      LinksFieldsAt(links[1..], i - 1);
    } else if |links| > 1 {
      LinksFieldsAt(links[1..], 0);
    }
  }

  lemma {:induction false} DestinationsFieldsAt(ds: seq<Entry<()>>, i: nat)
    requires (forall e | e in ds :: |e.key| < TWO64) && i < |ds|
    ensures |DestinationsFields(ds)| == |ds| && DestinationsFields(ds)[i] == BytesField(3, ds[i].key)
  {
    if i > 0 {
      DestinationsFieldsAt(ds[1..], i - 1);
    } else if |ds| > 1 {
      DestinationsFieldsAt(ds[1..], 0);
    }
  }

  lemma EncodedIsMessage(n: Node)
    requires Valid(n)
    ensures IsNodeMessage(Encoded(n), n)
  {
    var fs := NodeFields(n);
    ReadFieldsInverts(fs);
    NodeFieldsAre(n);
  }

  lemma NodeFieldsAre(n: Node)
    requires Valid(n)
    ensures AreNodeFields(NodeFields(n), n)
  {
    var ls, cs, ds := LinksFields(n.links), ContentFields(n.content), DestinationsFields(n.destinations);
    var fs, k := ls + cs + ds, |n.links| + ContentCount(n);
    if n.links != [] {
      LinksFieldsAt(n.links, 0);
    }
    if n.destinations != [] {
      DestinationsFieldsAt(n.destinations, 0);
    }
    forall i | 0 <= i < |n.links|
      ensures fs[i].BytesField? && fs[i].number == 2 && IsLinkMessage(fs[i].bytes, n.links[i])
    {
      LinksFieldsAt(n.links, i);
      LinkBodyIsMessage(n.links[i]);
      assert fs[i] == ls[i];
    }
    forall i | 0 <= i < |n.destinations|
      ensures fs[k + i] == BytesField(3, n.destinations[i].key)
    {
      DestinationsFieldsAt(n.destinations, i);
      assert fs[k + i] == ds[i];
    }
  }

  // A field with a length prefix in front of its bytes.
  function BytesFieldLength(length: nat): nat {
    1 + VarintSize(length) + length
  }

  // getLinkLengthPB: three tags, two lengths, two strings and the size.
  function LinkLength(e: Entry<Link>): nat {
    |e.value.cid.multihash| + VarintSize(|e.value.cid.multihash|) +
    |e.key| + VarintSize(|e.key|) + VarintSize(e.value.size) + 3
  }

  lemma FieldLength(f: Field)
    requires Writable(f)
    ensures |FieldBytes(f)| == if f.VarintField? then 1 + VarintSize(f.value) else BytesFieldLength(|f.bytes|)
  {
    VarintSizeIsLength(if f.VarintField? then f.value else |f.bytes|);
  }

  lemma LinkBodyBytes(e: Entry<Link>)
    requires LinkFits(e)
    ensures LinkBody(e) ==
              FieldBytes(BytesField(1, e.value.cid.multihash)) +
              (FieldBytes(BytesField(2, e.key)) + FieldBytes(VarintField(3, e.value.size)))
  {
    var a, b, c := BytesField(1, e.value.cid.multihash), BytesField(2, e.key), VarintField(3, e.value.size);
    assert LinkFields(e)[1..] == [b, c] && [b, c][1..] == [c] && [c][1..] == [];
    assert FieldsBytes([c]) == FieldBytes(c) + [];
    assert FieldsBytes([b, c]) == FieldBytes(b) + FieldsBytes([c]);
  }

  // The length computed beforehand is the length written.
  lemma LinkLengthIsExact(e: Entry<Link>)
    requires LinkFits(e)
    ensures |LinkBody(e)| == LinkLength(e)
  {
    LinkBodyBytes(e);
    FieldLength(BytesField(1, e.value.cid.multihash));
    FieldLength(BytesField(2, e.key));
    FieldLength(VarintField(3, e.value.size));
  }

  lemma VarintSizeBound(v: nat, n: nat)
    requires n > 0 && v < Pow2(7 * n)
    ensures VarintSize(v) <= n
  {
    VarintSizeIsLength(v);
    VarintIsShort(v, n);
  }

  lemma LinkBodyFits(e: Entry<Link>)
    requires LinkFits(e)
    ensures |LinkBody(e)| < TWO64
  {
    LinkLengthIsExact(e);
    Pow2Of64();
    Pow2Monotone(64, 70);
    VarintSizeBound(|e.value.cid.multihash|, 10);
    VarintSizeBound(|e.key|, 10);
    VarintSizeBound(e.value.size, 10);
  }

  // ---------------------------------------------------------------- the encoder

  // google::protobuf::io::CodedOutputStream over an array of fixed size: every write
  // must fit.
  class CodedOutputStream {
    const buffer: array<byte>
    var pos: nat

    constructor (buffer: array<byte>)
      ensures this.buffer == buffer && pos == 0
    {
      this.buffer, pos := buffer, 0;
    }

    method WriteRaw(bytes: seq<byte>)
      requires pos + |bytes| <= buffer.Length
      modifies this, buffer
      ensures pos == old(pos) + |bytes|
      ensures buffer[..pos] == old(buffer[..pos]) + bytes
    {
      var start := pos;
      for i := 0 to |bytes|
        invariant pos == start + i
        invariant buffer[..start] == old(buffer[..pos]) && buffer[start..pos] == bytes[..i]
      {
        buffer[pos] := bytes[i];
        pos := pos + 1;
      }
      assert buffer[..pos] == buffer[..start] + buffer[start..pos];
    }

    method WriteTag(tag: nat)
      requires tag < 128 && pos + 1 <= buffer.Length
      modifies this, buffer
      ensures pos == old(pos) + 1
      ensures buffer[..pos] == old(buffer[..pos]) + [tag]
    {
      WriteRaw([tag]);
    }

    method WriteVarint64(v: nat)
      requires pos + VarintSize(v) <= buffer.Length
      modifies this, buffer
      ensures pos == old(pos) + VarintSize(v)
      ensures buffer[..pos] == old(buffer[..pos]) + Varint(v)
    {
      VarintSizeIsLength(v);
      WriteRaw(Varint(v));
    }

    // Tag, length, bytes: the three writes the encoder makes for a string or a message.
    method WriteBytesField(number: nat, bytes: seq<byte>)
      requires 0 < number < 16 && |bytes| < TWO64
      requires pos + BytesFieldLength(|bytes|) <= buffer.Length
      modifies this, buffer
      ensures pos == old(pos) + BytesFieldLength(|bytes|)
      ensures buffer[..pos] == old(buffer[..pos]) + FieldBytes(BytesField(number, bytes))
    {
      ghost var before := buffer[..pos];
      WriteTag(CreateTag(LENGTH_DELIMITED, number));
      WriteVarint64(|bytes|);
      WriteRaw(bytes);
      FieldLength(BytesField(number, bytes));
      assert buffer[..pos] == before + ([number * 8 + LENGTH_DELIMITED] + Varint(|bytes|) + bytes);
    }

    method WriteVarintField(number: nat, v: nat)
      requires 0 < number < 16 && v < TWO64
      requires pos + 1 + VarintSize(v) <= buffer.Length
      modifies this, buffer
      ensures pos == old(pos) + 1 + VarintSize(v)
      ensures buffer[..pos] == old(buffer[..pos]) + FieldBytes(VarintField(number, v))
    {
      ghost var before := buffer[..pos];
      WriteTag(CreateTag(VARINT, number));
      WriteVarint64(v);
      assert buffer[..pos] == before + ([number * 8 + VARINT] + Varint(v));
    }
  }

  // `order << 3 | type` in one byte.
  function CreateTag(ty: nat, order: nat): (tag: nat)
    requires ty < 8 && order < 16
    ensures tag < 128 && tag / 8 == order && tag % 8 == ty
  {
    order * 8 + ty
  }

  function LinksLength(links: seq<Entry<Link>>): nat {
    if links == [] then 0 else BytesFieldLength(LinkLength(links[0])) + LinksLength(links[1..])
  }

  // Hash, name and size of a link.
  method WriteLinkBody(stream: CodedOutputStream, e: Entry<Link>)
    requires LinkFits(e) && stream.pos + LinkLength(e) <= stream.buffer.Length
    modifies stream, stream.buffer
    ensures stream.pos == old(stream.pos) + LinkLength(e)
    ensures stream.buffer[..stream.pos] == old(stream.buffer[..stream.pos]) + LinkBody(e)
  {
    LinkBodyBytes(e);
    ghost var start := stream.buffer[..stream.pos];
    ghost var a := FieldBytes(BytesField(1, e.value.cid.multihash));
    ghost var b, c := FieldBytes(BytesField(2, e.key)), FieldBytes(VarintField(3, e.value.size));
    Associative(start, a, b + c);
    Associative(start + a, b, c);
    stream.WriteBytesField(1, e.value.cid.multihash);
    stream.WriteBytesField(2, e.key);
    stream.WriteVarintField(3, e.value.size);
  }

  // One turn of the loop over the links.
  method WriteLink(stream: CodedOutputStream, e: Entry<Link>, size: nat)
    requires LinkFits(e) && size == LinkLength(e)
    requires stream.pos + BytesFieldLength(size) <= stream.buffer.Length
    modifies stream, stream.buffer
    ensures stream.pos == old(stream.pos) + BytesFieldLength(size)
    ensures |LinkBody(e)| < TWO64
    ensures stream.buffer[..stream.pos] == old(stream.buffer[..stream.pos]) + FieldBytes(BytesField(2, LinkBody(e)))
  {
    LinkLengthIsExact(e);
    LinkBodyFits(e);
    ghost var start, tag := stream.buffer[..stream.pos], [2 * 8 + LENGTH_DELIMITED];
    Associative(start, tag, Varint(size));
    Associative(start, tag + Varint(size), LinkBody(e));
    stream.WriteTag(CreateTag(LENGTH_DELIMITED, 2));
    stream.WriteVarint64(size);
    WriteLinkBody(stream, e);
  }

  // The first loop: sizes of the links, and of all of them with their headers.
  method MeasureLinks(links: seq<Entry<Link>>) returns (sizes: seq<nat>, contentSize: nat, headersSize: nat)
    ensures |sizes| == |links| && forall k | 0 <= k < |links| :: sizes[k] == LinkLength(links[k])
    ensures contentSize + headersSize == LinksLength(links)
    ensures contentSize >= |links|
  {
    sizes, contentSize, headersSize := [], 0, 0;
    for i := 0 to |links|
      invariant |sizes| == i && forall k | 0 <= k < i :: sizes[k] == LinkLength(links[k])
      invariant contentSize + headersSize + LinksLength(links[i..]) == LinksLength(links)
      invariant contentSize >= i
    {
      assert links[i..][1..] == links[i + 1..];
      var size := LinkLength(links[i]);
      sizes := sizes + [size];
      contentSize := contentSize + size;
      headersSize := headersSize + 1 + VarintSize(size);
    }
  }

  method SerializeLinks(links: seq<Entry<Link>>) returns (bytes: seq<byte>)
    requires forall e | e in links :: LinkFits(e)
    ensures bytes == FieldsBytes(LinksFields(links))
  {
    var sizes, contentSize, headersSize := MeasureLinks(links);
    if contentSize == 0 {
      return [];
    }
    var buffer := new byte[contentSize + headersSize](_ => 0);
    var stream := new CodedOutputStream(buffer);
    WriteLinks(stream, links, sizes);
    bytes := buffer[..];
    assert buffer[..stream.pos] == buffer[..];
  }

  // The second loop: exactly the bytes that were measured.
  method WriteLinks(stream: CodedOutputStream, links: seq<Entry<Link>>, sizes: seq<nat>)
    requires forall e | e in links :: LinkFits(e)
    requires |sizes| == |links| && forall k | 0 <= k < |links| :: sizes[k] == LinkLength(links[k])
    requires stream.pos == 0 && stream.buffer.Length == LinksLength(links)
    modifies stream, stream.buffer
    ensures stream.pos == stream.buffer.Length
    ensures stream.buffer[..stream.pos] == FieldsBytes(LinksFields(links))
  {
    ghost var all := FieldsBytes(LinksFields(links));
    for i := 0 to |links|
      invariant stream.pos + LinksLength(links[i..]) == stream.buffer.Length
      invariant stream.buffer[..stream.pos] + FieldsBytes(LinksFields(links[i..])) == all
    {
      ghost var rest := links[i..];
      assert rest[1..] == links[i + 1..] && links[i] in links;
      LinkBodyFits(links[i]);
      ghost var f := BytesField(2, LinkBody(links[i]));
      assert LinksFields(rest) == [f] + LinksFields(rest[1..]);
      Associative(stream.buffer[..stream.pos], FieldBytes(f), FieldsBytes(LinksFields(rest[1..])));
      WriteLink(stream, links[i], sizes[i]);
    }
    assert stream.buffer[..stream.pos] + [] == stream.buffer[..stream.pos];
  }

  method SerializeContent(content: seq<byte>) returns (bytes: seq<byte>)
    requires |content| < TWO64
    ensures bytes == FieldsBytes(ContentFields(content))
  {
    var length := if content == [] then 0 else BytesFieldLength(|content|);
    var buffer := new byte[length](_ => 0);
    if length > 0 {
      var stream := new CodedOutputStream(buffer);
      stream.WriteBytesField(1, content);
      assert buffer[..stream.pos] == buffer[..];
      assert FieldsBytes([BytesField(1, content)]) == FieldBytes(BytesField(1, content)) + [];
    }
    bytes := buffer[..];
  }

  function DestinationsLength(destinations: seq<Entry<()>>): nat {
    if destinations == [] then 0
    else BytesFieldLength(|destinations[0].key|) + DestinationsLength(destinations[1..])
  }

  method SerializeDestinations(destinations: seq<Entry<()>>) returns (bytes: seq<byte>)
    requires forall e | e in destinations :: |e.key| < TWO64
    ensures bytes == FieldsBytes(DestinationsFields(destinations))
  {
    var length := 0;
    for i := 0 to |destinations|
      invariant length + DestinationsLength(destinations[i..]) == DestinationsLength(destinations)
    {
      assert destinations[i..][1..] == destinations[i + 1..];
      length := length + 1;
      length := length + VarintSize(|destinations[i].key|);
      length := length + |destinations[i].key|;
    }
    var buffer := new byte[length](_ => 0);
    var stream := new CodedOutputStream(buffer);
    ghost var all := FieldsBytes(DestinationsFields(destinations));
    for i := 0 to |destinations|
      invariant stream.buffer == buffer && fresh(stream) && fresh(buffer)
      invariant stream.pos + DestinationsLength(destinations[i..]) == buffer.Length
      invariant buffer[..stream.pos] + FieldsBytes(DestinationsFields(destinations[i..])) == all
    {
      ghost var rest := destinations[i..];
      assert rest[1..] == destinations[i + 1..] && destinations[i] in destinations;
      ghost var f := BytesField(3, destinations[i].key);
      assert DestinationsFields(rest) == [f] + DestinationsFields(rest[1..]);
      Associative(buffer[..stream.pos], FieldBytes(f), FieldsBytes(DestinationsFields(rest[1..])));
      stream.WriteBytesField(3, destinations[i].key);
    }
    bytes := buffer[..];
    assert buffer[..stream.pos] == buffer[..];
    assert all == bytes + [];
  }

  method Encode(n: Node) returns (bytes: seq<byte>)
    requires Valid(n)
    ensures bytes == Encoded(n) && IsNodeMessage(bytes, n)
  {
    EncodedIsMessage(n);
    var links := SerializeLinks(n.links);
    var content := SerializeContent(n.content);
    var destinations := SerializeDestinations(n.destinations);
    bytes := links;
    bytes := bytes + content;
    bytes := bytes + destinations;
    FieldsBytesAppend(LinksFields(n.links), ContentFields(n.content));
    FieldsBytesAppend(LinksFields(n.links) + ContentFields(n.content), DestinationsFields(n.destinations));
  }
}
