// ipfs_lite/ipld/impl/ipld_node_impl.cpp: the node object, its cached block, and the
// parser that undoes the encoder.

module IpldNodeImpl {
  import opened Basics
  import opened Ordered
  import opened ProtobufWire
  import opened IpldNode

  // A sha2-256 digest; the hash function itself is a parameter.
  type Digest = d: seq<byte> | |d| == 32 witness seq(32, _ => 0)
  type Hash = seq<byte> -> Digest

  datatype Block = Block(cid: Cid, bytes: seq<byte>)

  // IPLDBlock::create for this node type: version 0, dag-pb, sha2-256.
  function BlockOf(H: Hash, bytes: seq<byte>): (b: Block)
    ensures IsCidV0(b.cid) && b.cid.codec == 0x70 && b.bytes == bytes
  {
    Block(Cid(0, DAG_PB, [0x12, 32] + H(bytes)), bytes)
  }

  // ---------------------------------------------------------------- ipld_node.proto, reading

  datatype PBLink = PBLink(hash: seq<byte>, name: seq<byte>, tsize: nat)

  datatype PBNode = PBNode(data: seq<byte>, links: seq<PBLink>, destinations: seq<seq<byte>>)

  // The last occurrence of an optional field wins; other fields are skipped.
  function ApplyToLink(l: PBLink, f: Field): PBLink {
    match f
    case BytesField(number, bytes) =>
      if number == 1 then l.(hash := bytes) else if number == 2 then l.(name := bytes) else l
    case VarintField(number, v) => if number == 3 then l.(tsize := v) else l
    case FixedField(_, _) => l
  }

  function FoldLink(l: PBLink, fs: seq<Field>): PBLink
    decreases |fs|
  {
    if fs == [] then l else FoldLink(ApplyToLink(l, fs[0]), fs[1..])
  }

  function ParseLink(bs: seq<byte>): Option<PBLink> {
    match ReadFields(bs)
    case None => None
    case Some(fs) => Some(FoldLink(PBLink([], [], 0), fs))
  }

  // Repeated fields are appended.
  function ApplyToNode(n: PBNode, f: Field): Option<PBNode> {
    match f
    case BytesField(number, bytes) =>
      if number == 1 then Some(n.(data := bytes))
      else if number == 2 then
        match ParseLink(bytes)
        case None => None
        case Some(l) => Some(n.(links := n.links + [l]))
      else if number == 3 then Some(n.(destinations := n.destinations + [bytes]))
      else Some(n)
    case _ => Some(n)
  }

  function FoldNode(n: PBNode, fs: seq<Field>): Option<PBNode>
    decreases |fs|
  {
    if fs == [] then Some(n)
    else match ApplyToNode(n, fs[0])
      case None => None
      case Some(n') => FoldNode(n', fs[1..])
  }

  function ParseNode(bs: seq<byte>): Option<PBNode> {
    match ReadFields(bs)
    case None => None
    case Some(fs) => FoldNode(PBNode([], [], []), fs)
  }

  // Links enter the map in the order of the message; the first of a name stays.
  function AddLinks(m: seq<Entry<Link>>, ls: seq<PBLink>): Result<seq<Entry<Link>>, NodeError>
    decreases |ls|
  {
    if ls == [] then Ok(m)
    else match CidFromBytes(ls[0].hash)
      case Err(e) => Err(e)
      case Ok(cid) => AddLinks(Emplace(LexLess, m, Entry(ls[0].name, Link(cid, ls[0].tsize))), ls[1..])
  }

  function AddDestinations(m: seq<Entry<()>>, ds: seq<seq<byte>>): seq<Entry<()>>
    decreases |ds|
  {
    if ds == [] then m else AddDestinations(Emplace(LexLess, m, Entry(ds[0], ())), ds[1..])
  }

  function Assembled(pb: PBNode): Result<Node, NodeError> {
    match AddLinks([], pb.links)
    case Err(e) => Err(e)
    case Ok(links) => Ok(Node(pb.data, links, AddDestinations([], pb.destinations)))
  }

  function Decoded(bs: seq<byte>): Result<Node, NodeError> {
    match ParseNode(bs)
    case None => Err(InvalidRawBytes)
    case Some(pb) => Assembled(pb)
  }

  // ---------------------------------------------------------------- round trip

  lemma {:induction false} FoldNodeAppend(n: PBNode, a: seq<Field>, b: seq<Field>)
    ensures FoldNode(n, a + b) == match FoldNode(n, a) case None => None case Some(n') => FoldNode(n', b)
    decreases |a|
  {
    if a == [] {
      assert a + b == b;
    } else {
      assert (a + b)[1..] == a[1..] + b;
      match ApplyToNode(n, a[0])
      case None =>
      case Some(n') => FoldNodeAppend(n', a[1..], b);
    }
  }

  function LinkMessage(e: Entry<Link>): PBLink {
    PBLink(e.value.cid.multihash, e.key, e.value.size)
  }

  lemma ParseLinkInverts(e: Entry<Link>)
    requires LinkFits(e)
    ensures ParseLink(LinkBody(e)) == Some(LinkMessage(e))
  {
    var fs, l0 := LinkFields(e), PBLink([], [], 0);
    ReadFieldsInverts(fs);
    var l1 := ApplyToLink(l0, fs[0]);
    var l2 := ApplyToLink(l1, fs[1]);
    assert fs[1..][0] == fs[1] && fs[1..][1..] == [fs[2]];
    assert FoldLink(l2, [fs[2]]) == ApplyToLink(l2, fs[2]);
    assert FoldLink(l1, fs[1..]) == FoldLink(l2, [fs[2]]);
    assert FoldLink(l0, fs) == FoldLink(l1, fs[1..]);
  }

  function LinkMessages(links: seq<Entry<Link>>): seq<PBLink> {
    if links == [] then [] else [LinkMessage(links[0])] + LinkMessages(links[1..])
  }

  lemma {:induction false} FoldLinks(n: PBNode, links: seq<Entry<Link>>)
    requires forall e | e in links :: LinkFits(e)
    ensures FoldNode(n, LinksFields(links)) == Some(n.(links := n.links + LinkMessages(links)))
    decreases |links|
  {
    if links == [] {
      assert n.links + [] == n.links;
    } else {
      LinkBodyFits(links[0]);
      var f, tail := BytesField(2, LinkBody(links[0])), LinksFields(links[1..]);
      assert LinksFields(links) == [f] + tail && ([f] + tail)[1..] == tail;
      ParseLinkInverts(links[0]);
      var n' := n.(links := n.links + [LinkMessage(links[0])]);
      FoldLinks(n', links[1..]);
      Associative(n.links, [LinkMessage(links[0])], LinkMessages(links[1..]));
    }
  }

  function Names(ds: seq<Entry<()>>): seq<seq<byte>> {
    if ds == [] then [] else [ds[0].key] + Names(ds[1..])
  }

  lemma {:induction false} FoldDestinations(n: PBNode, ds: seq<Entry<()>>)
    requires forall e | e in ds :: |e.key| < TWO64
    ensures FoldNode(n, DestinationsFields(ds)) == Some(n.(destinations := n.destinations + Names(ds)))
    decreases |ds|
  {
    if ds == [] {
      assert n.destinations + [] == n.destinations;
    } else {
      var f, tail := BytesField(3, ds[0].key), DestinationsFields(ds[1..]);
      assert DestinationsFields(ds) == [f] + tail && ([f] + tail)[1..] == tail;
      FoldDestinations(n.(destinations := n.destinations + [ds[0].key]), ds[1..]);
      Associative(n.destinations, [ds[0].key], Names(ds[1..]));
    }
  }

  // The message behind the bytes of a node.
  lemma ParseNodeInverts(n: Node)
    requires Valid(n)
    ensures ParseNode(Encoded(n)) == Some(PBNode(n.content, LinkMessages(n.links), Names(n.destinations)))
  {
    ReadFieldsInverts(NodeFields(n));
    var a, b, c := LinksFields(n.links), ContentFields(n.content), DestinationsFields(n.destinations);
    var n0 := PBNode([], [], []);
    var n1 := PBNode([], LinkMessages(n.links), []);
    var n2 := n1.(data := n.content);
    FoldNodeAppend(n0, a + b, c);
    FoldNodeAppend(n0, a, b);
    FoldLinks(n0, n.links);
    assert [] + LinkMessages(n.links) == LinkMessages(n.links);
    assert FoldNode(n1, b) == Some(n2);
    FoldDestinations(n2, n.destinations);
    assert [] + Names(n.destinations) == Names(n.destinations);
  }

  // A link with its CID reduced to what the multihash alone says.
  function AsV0(e: Entry<Link>): Entry<Link> {
    Entry(e.key, Link(Cid(0, DAG_PB, e.value.cid.multihash), e.value.size))
  }

  function AllAsV0(links: seq<Entry<Link>>): (r: seq<Entry<Link>>)
    ensures |r| == |links| && forall i | 0 <= i < |r| :: r[i] == AsV0(links[i])
  {
    if links == [] then [] else [AsV0(links[0])] + AllAsV0(links[1..])
  }

  lemma {:induction false} AddLinksInverts(m: seq<Entry<Link>>, links: seq<Entry<Link>>)
    requires Ascending(LexLess, m + AllAsV0(links))
    requires forall e | e in links :: IsSha256(e.value.cid.multihash)
    ensures AddLinks(m, LinkMessages(links)) == Ok(m + AllAsV0(links))
    decreases |links|
  {
    if links == [] {
      assert m + [] == m;
    } else {
      var e, rest := AsV0(links[0]), AllAsV0(links[1..]);
      assert LinkMessages(links)[1..] == LinkMessages(links[1..]);
      assert AllAsV0(links) == [e] + rest;
      Associative(m, [e], rest);
      forall i | 0 <= i < |m| ensures LexLess(m[i].key, e.key) {
        assert (m + AllAsV0(links))[i] == m[i] && (m + AllAsV0(links))[|m|] == e;
      }
      LexStrictTotal();
      EmplaceLast(LexLess, m, e);
      AddLinksInverts(m + [e], links[1..]);
    }
  }

  lemma {:induction false} AddDestinationsInverts(m: seq<Entry<()>>, ds: seq<Entry<()>>)
    requires Ascending(LexLess, m + ds)
    ensures AddDestinations(m, Names(ds)) == m + ds
    decreases |ds|
  {
    if ds == [] {
      assert m + [] == m;
    } else {
      assert Names(ds)[1..] == Names(ds[1..]);
      assert ds[0].value == ();
      assert ds == [ds[0]] + ds[1..];
      Associative(m, [ds[0]], ds[1..]);
      forall i | 0 <= i < |m| ensures LexLess(m[i].key, ds[0].key) {
        assert (m + ds)[i] == m[i] && (m + ds)[|m|] == ds[0];
      }
      LexStrictTotal();
      EmplaceLast(LexLess, m, ds[0]);
      AddDestinationsInverts(m + [ds[0]], ds[1..]);
    }
  }

  ghost predicate Sha256Links(n: Node) {
    forall e | e in n.links :: IsSha256(e.value.cid.multihash)
  }

  lemma AssembleInverts(n: Node)
    requires Valid(n) && Sha256Links(n)
    ensures Assembled(PBNode(n.content, LinkMessages(n.links), Names(n.destinations))) ==
            Ok(n.(links := AllAsV0(n.links)))
  {
    AddAllLinks(n.links);
    AddAllDestinations(n.destinations);
  }

  lemma AddAllLinks(links: seq<Entry<Link>>)
    requires Ascending(LexLess, links) && forall e | e in links :: IsSha256(e.value.cid.multihash)
    ensures AddLinks([], LinkMessages(links)) == Ok(AllAsV0(links))
  {
    assert [] + AllAsV0(links) == AllAsV0(links);
    AddLinksInverts([], links);
  }

  lemma AddAllDestinations(ds: seq<Entry<()>>)
    requires Ascending(LexLess, ds)
    ensures AddDestinations([], Names(ds)) == ds
  {
    assert [] + ds == ds;
    AddDestinationsInverts([], ds);
  }

  // Only the multihash is written, so every link comes back as a version 0 CID.
  lemma DecodeEncoded(n: Node)
    requires Valid(n) && Sha256Links(n)
    ensures Decoded(Encoded(n)) == Ok(n.(links := AllAsV0(n.links)))
  {
    ParseNodeInverts(n);
    AssembleInverts(n);
  }

  // Parsing gives the node back if and only if all its links are version 0 CIDs.
  lemma NodeRoundTripIff(n: Node)
    requires Valid(n) && Sha256Links(n)
    ensures Decoded(Encoded(n)) == Ok(n) <==> forall e | e in n.links :: IsCidV0(e.value.cid)
  {
    DecodeEncoded(n);
    var r := AllAsV0(n.links);
    if forall e | e in n.links :: IsCidV0(e.value.cid) {
      forall i | 0 <= i < |r| ensures r[i] == n.links[i] {
        assert n.links[i] in n.links;
      }
      assert r == n.links;
    }
    if r == n.links {
      forall e | e in n.links ensures IsCidV0(e.value.cid) {
        var i :| 0 <= i < |r| && n.links[i] == e;
        assert r[i] == AsV0(n.links[i]);
      }
    }
  }

  // In any case the bytes are stable: what was parsed is written as the same bytes.
  lemma ReencodeIsIdentical(n: Node)
    requires Valid(n) && Sha256Links(n)
    ensures var m := n.(links := AllAsV0(n.links)); Valid(m) && Encoded(m) == Encoded(n)
  {
    var r := AllAsV0(n.links);
    forall e | e in r ensures LinkFits(e) {
      var i :| 0 <= i < |r| && r[i] == e;
      assert n.links[i] in n.links;
    }
    LinksFieldsOfV0(n.links);
  }

  lemma {:induction false} LinksFieldsOfV0(links: seq<Entry<Link>>)
    requires forall e | e in links :: LinkFits(e)
    requires forall e | e in AllAsV0(links) :: LinkFits(e)
    ensures LinksFields(AllAsV0(links)) == LinksFields(links)
    decreases |links|
  {
    if links != [] {
      var r := AllAsV0(links);
      assert r[1..] == AllAsV0(links[1..]);
      LinksFieldsOfV0(links[1..]);
      assert r[0] in r && LinkFields(r[0]) == LinkFields(links[0]);
      LinkBodyFits(links[0]);
    }
  }

  // Whatever bytes are parsed, the containers of the node are ordered.
  lemma {:induction false} AddLinksAscending(m: seq<Entry<Link>>, ls: seq<PBLink>)
    requires Ascending(LexLess, m)
    ensures AddLinks(m, ls).Ok? ==> Ascending(LexLess, AddLinks(m, ls).value)
    decreases |ls|
  {
    if ls != [] {
      var cid := CidFromBytes(ls[0].hash);
      if cid.Ok? {
        var e := Entry(ls[0].name, Link(cid.value, ls[0].tsize));
        LexStrictTotal();
        EmplaceContents(LexLess, m, e);
        AddLinksAscending(Emplace(LexLess, m, e), ls[1..]);
      }
    }
  }

  lemma {:induction false} AddDestinationsAscending(m: seq<Entry<()>>, ds: seq<seq<byte>>)
    requires Ascending(LexLess, m)
    ensures Ascending(LexLess, AddDestinations(m, ds))
    decreases |ds|
  {
    if ds != [] {
      LexStrictTotal();
      EmplaceContents(LexLess, m, Entry(ds[0], ()));
      AddDestinationsAscending(Emplace(LexLess, m, Entry(ds[0], ())), ds[1..]);
    }
  }

  lemma DecodedIsOrdered(bs: seq<byte>)
    ensures Decoded(bs).Ok? ==>
            Ascending(LexLess, Decoded(bs).value.links) && Ascending(LexLess, Decoded(bs).value.destinations)
  {
    match ParseNode(bs)
    case None =>
    case Some(pb) =>
      AddLinksAscending([], pb.links);
      AddDestinationsAscending([], pb.destinations);
  }

  // ---------------------------------------------------------------- the node object

  lemma LinkErased(n: Node, name: seq<byte>)
    requires Valid(n)
    ensures Valid(n.(links := Erased(n.links, name)))
    ensures forall e :: e in Erased(n.links, name) <==> e in n.links && e.key != name
  {
    LexStrictTotal();
    ErasedContents(LexLess, n.links, name);
  }

  class IPLDNodeImpl {
    const H: Hash
    var content: seq<byte>
    var links: seq<Entry<Link>>
    var destinations: seq<Entry<()>>
    var ipldBlock: Option<Block>

    ghost function Value(): Node
      reads this
    {
      Node(content, links, destinations)
    }

    // A cached block is the block of the present value.
    ghost predicate Coherent()
      reads this
    {
      Valid(Value()) && (ipldBlock.Some? ==> ipldBlock.value == BlockOf(H, Encoded(Value())))
    }

    constructor CreateFromString(H: Hash, data: seq<byte>)
      requires |data| < TWO64
      ensures Coherent() && this.H == H && Value() == Node(data, [], [])
    {
      this.H := H;
      content, links, destinations, ipldBlock := data, [], [], None;
    }

    method Assign(input: seq<byte>)
      requires Coherent() && |input| < TWO64
      modifies this
      ensures Coherent() && Value() == old(Value()).(content := input)
    {
      content := input;
      ipldBlock := None;
    }

    // A name that is taken keeps its link.
    method AddLink(name: seq<byte>, link: Link)
      requires Coherent() && LinkFits(Entry(name, link))
      modifies this
      ensures Coherent()
      ensures Value() == old(Value()).(links := Emplace(LexLess, old(links), Entry(name, link)))
      ensures Lookup(links, name) == (if HasKey(old(links), name) then old(Lookup(links, name)) else Some(link))
    {
      EmplacedLink(links, Entry(name, link));
      links := Emplace(LexLess, links, Entry(name, link));
      ipldBlock := None;
    }

    method AddChild(name: seq<byte>, child: IPLDNodeImpl, size: nat)
      requires Coherent() && child != this && child.Coherent() && |name| < TWO63 && size < TWO64
      modifies this, child`ipldBlock
      ensures Coherent() && child.Coherent() && child.Value() == old(child.Value())
      ensures var link := Link(BlockOf(child.H, Encoded(child.Value())).cid, size);
              Value() == old(Value()).(links := Emplace(LexLess, old(links), Entry(name, link)))
    {
      var cid := child.GetCID();
      AddLink(name, Link(cid, size));
    }

    method RemoveLink(name: seq<byte>)
      requires Coherent()
      modifies this
      ensures Coherent() && Value() == old(Value()).(links := Erased(old(links), name))
      ensures forall e :: e in links <==> e in old(links) && e.key != name
    {
      LinkErased(Node(content, links, destinations), name);
      var found := Lookup(links, name);
      if found.Some? {
        links := Erased(links, name);
        ipldBlock := None;
      } else {
        NothingErased(links, name);
      }
    }

    // The link stored under the name, if the name is taken; no other link has that name.
    method GetLink(name: seq<byte>) returns (r: Result<Link, NodeError>)
      requires Coherent()
      ensures forall l :: r == Ok(l) <==> Entry(name, l) in links
      ensures r == Err(LinkNotFound) <==> !HasKey(links, name)
      ensures r.Ok? <==> HasKey(links, name)
    {
      var found := Lookup(links, name);
      forall l | Entry(name, l) in links
        ensures found == Some(l)
      {
        LexStrictTotal();
        var i :| 0 <= i < |links| && links[i] == Entry(name, l);
        LookupAt(LexLess, links, i);
      }
      r := if found.Some? then Ok(found.value) else Err(LinkNotFound);
    }

    method AddDestination(destination: seq<byte>)
      requires Coherent() && |destination| < TWO64
      modifies this
      ensures Coherent()
      ensures Value() == old(Value()).(destinations := Emplace(LexLess, old(destinations), Entry(destination, ())))
      ensures HasKey(destinations, destination)
    {
      EmplacedDestination(destinations, Entry(destination, ()));
      destinations := Emplace(LexLess, destinations, Entry(destination, ()));
      ipldBlock := None;
    }

    method RemoveDestination(destination: seq<byte>)
      requires Coherent()
      modifies this
      ensures Coherent()
      ensures Value() == old(Value()).(destinations := Erased(old(destinations), destination))
      ensures forall e :: e in destinations <==> e in old(destinations) && e.key != destination
    {
      LexStrictTotal();
      ErasedContents(LexLess, destinations, destination);
      destinations := Erased(destinations, destination);
      ipldBlock := None;
    }

    method ClearDestinations()
      requires Coherent()
      modifies this
      ensures Coherent() && Value() == old(Value()).(destinations := [])
    {
      destinations := [];
      ipldBlock := None;
    }

    // Computes the block once for as long as the value does not change.
    method GetIPLDBlock() returns (block: Block)
      requires Coherent()
      modifies `ipldBlock
      ensures Coherent() && block == BlockOf(H, Encoded(Value()))
    {
      if ipldBlock == None {
        var bytes := Encode(Node(content, links, destinations));
        ipldBlock := Some(BlockOf(H, bytes));
      }
      block := ipldBlock.value;
    }

    method GetCID() returns (cid: Cid)
      requires Coherent()
      modifies `ipldBlock
      ensures Coherent() && cid == BlockOf(H, Encoded(Value())).cid
    {
      var block := GetIPLDBlock();
      cid := block.cid;
    }

    method GetRawBytes() returns (bytes: seq<byte>)
      requires Coherent()
      modifies `ipldBlock
      ensures Coherent() && bytes == Encoded(Value())
    {
      var block := GetIPLDBlock();
      bytes := block.bytes;
    }
  }

  // createFromRawBytes: the two loops over the parsed message.
  method CreateFromRawBytes(input: seq<byte>) returns (r: Result<Node, NodeError>)
    ensures r == Decoded(input)
  {
    var pb := ParseNode(input);
    if pb == None {
      return Err(InvalidRawBytes);
    }
    var links: seq<Entry<Link>> := [];
    for i := 0 to |pb.value.links|
      invariant AddLinks([], pb.value.links) == AddLinks(links, pb.value.links[i..])
    {
      var l := pb.value.links[i];
      assert pb.value.links[i..][1..] == pb.value.links[i + 1..];
      var cid := CidFromBytes(l.hash);
      if cid.Err? {
        return Err(cid.error);
      }
      links := Emplace(LexLess, links, Entry(l.name, Link(cid.value, l.tsize)));
    }
    var destinations: seq<Entry<()>> := [];
    for i := 0 to |pb.value.destinations|
      invariant AddDestinations([], pb.value.destinations) == AddDestinations(destinations, pb.value.destinations[i..])
    {
      assert pb.value.destinations[i..][1..] == pb.value.destinations[i + 1..];
      destinations := Emplace(LexLess, destinations, Entry(pb.value.destinations[i], ()));
    }
    r := Ok(Node(pb.value.data, links, destinations));
  }

  lemma EmplacedKey<V>(m: seq<Entry<V>>, e: Entry<V>)
    requires Ascending(LexLess, m)
    ensures Ascending(LexLess, Emplace(LexLess, m, e)) && HasKey(Emplace(LexLess, m, e), e.key)
    ensures forall x :: x in Emplace(LexLess, m, e) <==> x in m || (x == e && !HasKey(m, e.key))
  {
    LexStrictTotal();
    EmplaceContents(LexLess, m, e);
    var r := Emplace(LexLess, m, e);
    if !HasKey(m, e.key) {
      forall x ensures x in r <==> x in m || x == e {
        assert x in r <==> x in multiset(r);
        assert x in m <==> x in multiset(m);
      }
      assert e in r;
      var i :| 0 <= i < |r| && r[i] == e;
    }
  }

  lemma EmplacedDestination(m: seq<Entry<()>>, e: Entry<()>)
    requires Ascending(LexLess, m) && |e.key| < TWO64
    requires forall x | x in m :: |x.key| < TWO64
    ensures Ascending(LexLess, Emplace(LexLess, m, e)) && HasKey(Emplace(LexLess, m, e), e.key)
    ensures forall x | x in Emplace(LexLess, m, e) :: |x.key| < TWO64
  {
    EmplacedKey(m, e);
  }

  lemma EmplacedLink(m: seq<Entry<Link>>, e: Entry<Link>)
    requires Ascending(LexLess, m)
    ensures Ascending(LexLess, Emplace(LexLess, m, e))
    ensures forall x :: x in Emplace(LexLess, m, e) ==> x in m || x == e
    ensures Lookup(Emplace(LexLess, m, e), e.key) == if HasKey(m, e.key) then Lookup(m, e.key) else Some(e.value)
  {
    EmplacedKey(m, e);
    LexStrictTotal();
    EmplaceContents(LexLess, m, e);
    var r := Emplace(LexLess, m, e);
    if !HasKey(m, e.key) {
      assert e in r;
      var i :| 0 <= i < |r| && r[i] == e;
      LexStrictTotal();
      LookupAt(LexLess, r, i);
    }
  }

  lemma {:induction false} NothingErased<V>(m: seq<Entry<V>>, k: Key)
    requires !HasKey(m, k)
    ensures Erased(m, k) == m
  {
    if m != [] {
      assert m[0].key != k;
      forall i | 0 <= i < |m[1..]| ensures m[1..][i].key != k {
        assert m[1..][i] == m[i + 1];
      }
      NothingErased(m[1..], k);
      assert m == [m[0]] + m[1..];
    }
  }
}
