// What createFromRawBytes makes of any message, not only of one that this encoder wrote.

module IpldNodeReading {
  import opened Basics
  import opened Ordered
  import opened ProtobufWire
  import opened IpldNode
  import opened IpldNodeImpl

  predicate IsBytes(f: Field, number: nat) {
    f.BytesField? && f.number == number
  }

  // Every links field is itself a message.
  predicate LinksParse(fs: seq<Field>) {
    forall f | f in fs && IsBytes(f, 2) :: ParseLink(f.bytes).Some?
  }

  // The link messages, in order.
  function LinksIn(fs: seq<Field>): seq<PBLink> {
    if fs == [] then []
    else
      LinksIn(fs[..|fs| - 1]) +
      var f := fs[|fs| - 1];
      if IsBytes(f, 2) && ParseLink(f.bytes).Some? then [ParseLink(f.bytes).value] else []
  }

  predicate IsLastAt(fs: seq<Field>, number: nat, i: nat)
    requires i < |fs|
  {
    IsBytes(fs[i], number) && forall j | i < j < |fs| :: !IsBytes(fs[j], number)
  }

  // The bytes are those of the last field of that number, or empty.
  ghost predicate IsLast(fs: seq<Field>, number: nat, bytes: seq<byte>) {
    ((forall f | f in fs :: !IsBytes(f, number)) ==> bytes == []) &&
    forall i | 0 <= i < |fs| && IsLastAt(fs, number, i) :: bytes == fs[i].bytes
  }

  lemma FoldSnoc(n: PBNode, fs: seq<Field>, f: Field)
    ensures FoldNode(n, fs + [f]) == match FoldNode(n, fs) case None => None case Some(m) => ApplyToNode(m, f)
  {
    FoldNodeAppend(n, fs, [f]);
    if FoldNode(n, fs).Some? {
      var m := FoldNode(n, fs).value;
      if ApplyToNode(m, f).Some? {
        assert FoldNode(ApplyToNode(m, f).value, []) == ApplyToNode(m, f);
      }
      assert [f][1..] == [];
    }
  }

  lemma {:induction false} FoldIs(fs: seq<Field>)
    ensures var r := FoldNode(PBNode([], [], []), fs);
            (r.Some? <==> LinksParse(fs)) &&
            (r.Some? ==> IsLast(fs, 1, r.value.data) && r.value.links == LinksIn(fs) &&
                         forall d :: d in r.value.destinations <==> BytesField(3, d) in fs)
    decreases |fs|
  {
    if fs != [] {
      var init, f := fs[..|fs| - 1], fs[|fs| - 1];
      assert fs == init + [f];
      FoldIs(init);
      FoldSnoc(PBNode([], [], []), init, f);
      assert LinksParse(fs) <==> LinksParse(init) && (IsBytes(f, 2) ==> ParseLink(f.bytes).Some?);
      var r := FoldNode(PBNode([], [], []), init);
      if r.Some? {
        LastSnoc(init, f, r.value.data);
      }
    }
  }

  lemma LastSnoc(init: seq<Field>, f: Field, bytes: seq<byte>)
    requires IsLast(init, 1, bytes)
    ensures IsLast(init + [f], 1, if IsBytes(f, 1) then f.bytes else bytes)
  {
    var fs := init + [f];
    assert f == fs[|init|] && f in fs;
    assert forall x | x in init :: x in fs;
    forall i | 0 <= i < |fs| && IsLastAt(fs, 1, i)
      ensures (if IsBytes(f, 1) then f.bytes else bytes) == fs[i].bytes
    {
      if i < |init| {
        assert !IsBytes(fs[|init|], 1);
        assert forall j | i < j < |init| :: init[j] == fs[j];
        assert IsLastAt(init, 1, i);
      }
    }
  }

  function LinkOf(l: PBLink): Entry<Link> {
    Entry(l.name, Link(Cid(0, 0x70, l.hash), l.tsize))
  }

  predicate IsFirst(ls: seq<PBLink>, i: nat)
    requires i < |ls|
  {
    forall j | 0 <= j < i :: ls[j].name != ls[i].name
  }

  // Links enter in order; the first of a name stays.
  lemma {:induction false} AddLinksIs(m: seq<Entry<Link>>, ls: seq<PBLink>)
    requires Ascending(LexLess, m)
    ensures AddLinks(m, ls).Ok? <==> forall l | l in ls :: IsSha256(l.hash)
    ensures AddLinks(m, ls).Err? ==> AddLinks(m, ls) == Err(InvalidCid)
    ensures AddLinks(m, ls).Ok? ==>
              forall e :: e in AddLinks(m, ls).value <==>
                e in m || (!HasKey(m, e.key) && exists i :: 0 <= i < |ls| && IsFirst(ls, i) && e == LinkOf(ls[i]))
    decreases |ls|
  {
    if ls != [] && IsSha256(ls[0].hash) {
      var e0 := LinkOf(ls[0]);
      var m1 := Emplace(LexLess, m, e0);
      EmplacedKey(m, e0);
      AddLinksIs(m1, ls[1..]);
      if AddLinks(m, ls).Ok? {
        forall e ensures e in AddLinks(m, ls).value <==>
          e in m || (!HasKey(m, e.key) && exists i :: 0 <= i < |ls| && IsFirst(ls, i) && e == LinkOf(ls[i]))
        {
          OneLinkMore(m, m1, ls, e);
        }
      }
    }
  }

  lemma KeysAfter<V>(m: seq<Entry<V>>, m1: seq<Entry<V>>, e0: Entry<V>, k: Key)
    requires forall x :: x in m1 <==> x in m || (x == e0 && !HasKey(m, e0.key))
    ensures HasKey(m1, k) <==> HasKey(m, k) || k == e0.key
  {
    if i :| 0 <= i < |m1| && m1[i].key == k {
      assert m1[i] in m1;
    }
    if i :| 0 <= i < |m| && m[i].key == k {
      assert m[i] in m1;
    }
    if k == e0.key && !HasKey(m, k) {
      assert e0 in m1;
    }
  }

  lemma OneLinkMore(m: seq<Entry<Link>>, m1: seq<Entry<Link>>, ls: seq<PBLink>, e: Entry<Link>)
    requires ls != [] && forall x :: x in m1 <==> x in m || (x == LinkOf(ls[0]) && !HasKey(m, ls[0].name))
    ensures (e in m || (!HasKey(m, e.key) && exists i :: 0 <= i < |ls| && IsFirst(ls, i) && e == LinkOf(ls[i]))) <==>
            (e in m1 || (!HasKey(m1, e.key) &&
                         exists i :: 0 <= i < |ls[1..]| && IsFirst(ls[1..], i) && e == LinkOf(ls[1..][i])))
  {
    KeysAfter(m, m1, LinkOf(ls[0]), e.key);
    if i :| 0 <= i < |ls| && IsFirst(ls, i) && e == LinkOf(ls[i]) {
      if i > 0 {
        assert ls[0].name != ls[i].name;
        assert IsFirst(ls[1..], i - 1) && ls[1..][i - 1] == ls[i];
      }
    }
    if e.key != ls[0].name {
      if i :| 0 <= i < |ls[1..]| && IsFirst(ls[1..], i) && e == LinkOf(ls[1..][i]) {
        FirstBehind(ls, i);
      }
    }
    assert IsFirst(ls, 0);
  }

  lemma FirstBehind(ls: seq<PBLink>, i: nat)
    requires i + 1 < |ls| && IsFirst(ls[1..], i) && ls[i + 1].name != ls[0].name
    ensures IsFirst(ls, i + 1)
  {
    forall j | 0 <= j < i + 1 ensures ls[j].name != ls[i + 1].name {
      if j > 0 {
        assert ls[1..][j - 1].name != ls[1..][i].name;
      }
    }
  }

  lemma {:induction false} AddDestinationsIs(m: seq<Entry<()>>, ds: seq<seq<byte>>)
    requires Ascending(LexLess, m)
    ensures forall d :: HasKey(AddDestinations(m, ds), d) <==> HasKey(m, d) || d in ds
    decreases |ds|
  {
    if ds != [] {
      var m1 := Emplace(LexLess, m, Entry(ds[0], ()));
      EmplacedKey(m, Entry(ds[0], ()));
      forall d ensures HasKey(m1, d) <==> HasKey(m, d) || d == ds[0] {
        KeysAfter(m, m1, Entry(ds[0], ()), d);
      }
      AddDestinationsIs(m1, ds[1..]);
    }
  }

  // Any bytes that are a list of fields. They are refused if a link is no message, or if its
  // hash is not a sha2-256 multihash. Otherwise the content is that of the last field 1, the
  // destinations are those of the fields 3, and of the links the first of each name stays.
  lemma DecodedIs(bs: seq<byte>, fs: seq<Field>)
    requires ReadFields(bs) == Some(fs)
    ensures var r, ls := Decoded(bs), LinksIn(fs);
            if !LinksParse(fs) then r == Err(InvalidRawBytes)
            else if exists l :: l in ls && !IsSha256(l.hash) then r == Err(InvalidCid)
            else
              r.Ok? && IsLast(fs, 1, r.value.content) &&
              (forall d :: HasKey(r.value.destinations, d) <==> BytesField(3, d) in fs) &&
              forall e :: e in r.value.links <==> exists i :: 0 <= i < |ls| && IsFirst(ls, i) && e == LinkOf(ls[i])
  {
    FoldIs(fs);
    if LinksParse(fs) {
      var pb := FoldNode(PBNode([], [], []), fs).value;
      AddLinksIs([], pb.links);
      AddDestinationsIs([], pb.destinations);
    }
  }

  // Bytes that are no list of fields are refused as such.
  lemma RefusedIff(bs: seq<byte>)
    ensures Decoded(bs) == Err(InvalidRawBytes) <==> ReadFields(bs) == None || !LinksParse(ReadFields(bs).value)
  {
    if ReadFields(bs).Some? {
      DecodedIs(bs, ReadFields(bs).value);
    }
  }
}
