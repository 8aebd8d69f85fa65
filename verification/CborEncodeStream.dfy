// codec/cbor/cbor_encode_stream.cpp: writes CBOR items one after the other, with lists
// and maps as sub-streams.
//
// The tinycbor encoder underneath is not part of this model; its heads are those of
// section 2.1 of RFC 7049 in the shortest form that holds the argument.

module CborEncodeStream {
  import opened Basics
  import opened Ordered
  import opened CborGrammar
  import opened CborBuffering
  import opened CborFraming

  const CID_TAG: nat := 42

  datatype EncodeError = InvalidCid | ExpectedMapValueSingle

  function MinimalWidth(v: nat): (w: Width)
    requires v < TWO64
    ensures Fits(w, v)
  {
    PowersOf256();
    assert Pow256(2) == 65536;
    assert Pow256(4) == 256 * (256 * Pow256(2));
    if v < 24 then Inline
    else if v < 0x100 then One
    else if v < 0x1_0000 then Two
    else if v < 0x1_0000_0000 then Four
    else Eight
  }

  // No other width that an argument fits is as short.
  lemma MinimalIsShortest(v: nat, w: Width)
    requires v < TWO64 && Fits(w, v)
    ensures ExtensionLength(MinimalWidth(v)) <= ExtensionLength(w)
    ensures w != MinimalWidth(v) ==> ExtensionLength(MinimalWidth(v)) < ExtensionLength(w)
  {
    assert Pow256(1) == 256 * Pow256(0);
    assert Pow256(2) == 65536;
    assert Pow256(4) == 256 * (256 * Pow256(2));
  }

  // Every head in the item is as short as its argument allows.
  predicate Compact(it: Item) {
    Argument(it) < TWO64 && WidthOf(it) == MinimalWidth(Argument(it)) && forall c | c in Children(it) :: Compact(c)
  }

  predicate Written(it: Item) {
    WellFormed(it) && Compact(it)
  }

  // The same data, whatever the widths of the heads.
  predicate SameValue(a: Item, b: Item) {
    TypeOf(a) == TypeOf(b) && Argument(a) == Argument(b) && Payload(a) == Payload(b) &&
    |Children(a)| == |Children(b)| &&
    forall i | 0 <= i < |Children(a)| :: SameValue(Children(a)[i], Children(b)[i])
  }

  // No well-formed item of the same value is shorter than the one this encoder writes.
  lemma {:induction false} WrittenIsShortest(it: Item, other: Item)
    requires Written(it) && WellFormed(other) && SameValue(it, other)
    ensures |Encode(it)| <= |Encode(other)|
    decreases it, 1
  {
    EncodeByChildren(it);
    EncodeByChildren(other);
    MinimalIsShortest(Argument(it), WidthOf(other));
    ChildrenAreShortest(it, Children(it), Children(other));
  }

  lemma {:induction false} ChildrenAreShortest(parent: Item, its: seq<Item>, others: seq<Item>)
    requires forall c | c in its :: c < parent && Written(c)
    requires (forall c | c in others :: WellFormed(c)) && |its| == |others|
    requires forall i | 0 <= i < |its| :: SameValue(its[i], others[i])
    ensures |EncodeAll(its)| <= |EncodeAll(others)|
    decreases parent, 0, |its|
  {
    if its != [] {
      assert its[0] in its && others[0] in others;
      WrittenIsShortest(its[0], others[0]);
      assert forall c | c in its[1..] :: c in its;
      ChildrenAreShortest(parent, its[1..], others[1..]);
    }
  }

  // An argument of a head: a size_t, so taken modulo 2^64.
  function Prefix(t: MajorType, v: nat): seq<byte> {
    HeadBytes(t, MinimalWidth(v % TWO64), v % TWO64)
  }

  lemma HeadIsPrefix(it: Item)
    requires Argument(it) < TWO64 && WidthOf(it) == MinimalWidth(Argument(it))
    ensures HeadOf(it) == Prefix(TypeOf(it), Argument(it))
  {
    assert Argument(it) % TWO64 == Argument(it);
  }

  lemma ScalarBytes(it: Item)
    requires Argument(it) < TWO64 && WidthOf(it) == MinimalWidth(Argument(it))
    requires Children(it) == []
    ensures Encode(it) == Prefix(TypeOf(it), Argument(it)) + Payload(it)
  {
    EncodeByChildren(it);
    HeadIsPrefix(it);
    assert Prefix(TypeOf(it), Argument(it)) + Payload(it) + [] == Prefix(TypeOf(it), Argument(it)) + Payload(it);
  }

  lemma CountUp(n: nat, k: nat)
    ensures (n % TWO64 + k % TWO64) % TWO64 == (n + k) % TWO64
    ensures (n % TWO64 + k) % TWO64 == (n + k) % TWO64
  {
    var q, r := n / TWO64, k / TWO64;
    assert n == q * TWO64 + n % TWO64 && k == r * TWO64 + k % TWO64;
  }

  lemma CountsAdd(a: nat, b: nat, n: nat)
    requires n % TWO64 == b % TWO64
    ensures (a % TWO64 + n) % TWO64 == (a + b) % TWO64
  {
    CountUp(a, n);
    CountUp(a, b);
  }

  lemma PrefixWraps(t: MajorType, v: nat)
    ensures Prefix(t, v % TWO64) == Prefix(t, v)
  {
    assert v % TWO64 % TWO64 == v % TWO64;
  }

  function TextItem(s: seq<byte>): (it: Item)
    requires |s| < TWO64
    ensures Written(it) && !HasSimple(it) && !HasWideMap(it)
  {
    String(true, MinimalWidth(|s|), s)
  }

  function ListItem(its: seq<Item>): (it: Item)
    requires |its| < TWO64
  {
    List(MinimalWidth(|its|), its)
  }

  // Section 3.9 of RFC 7049: shorter keys first, equal lengths by bytes.
  predicate LessCborKey(a: Key, b: Key) {
    |a| < |b| || (|a| == |b| && LexLess(a, b))
  }

  lemma LessCborKeyIff(a: Key, b: Key)
    ensures LessCborKey(a, b) <==>
            |a| < |b| || (|a| == |b| && exists i :: 0 <= i < |a| && a[..i] == b[..i] && a[i] < b[i])
  {
    LexLessIff(a, b);
  }

  lemma LessCborKeyStrictTotal()
    ensures StrictTotal(LessCborKey)
  {
    LexStrictTotal();
  }

  function EncodedKey(s: seq<byte>): Key
    requires |s| < TWO64
  {
    Encode(TextItem(s))
  }

  lemma EncodedKeyBytes(s: seq<byte>)
    requires |s| < TWO64
    ensures EncodedKey(s) == Prefix(Text, |s|) + s
    ensures |EncodedKey(s)| == 1 + ExtensionLength(MinimalWidth(|s|)) + |s|
  {
    ScalarBytes(TextItem(s));
  }

  // Different strings are different keys, so no entry is lost to the inner map.
  lemma EncodedKeyInjective(s: seq<byte>, t: seq<byte>)
    requires |s| < TWO64 && |t| < TWO64 && EncodedKey(s) == EncodedKey(t)
    ensures s == t
  {
    EncodedKeyBytes(s);
    EncodedKeyBytes(t);
    assert |s| == |t|;
    var n := |Prefix(Text, |s|)|;
    assert EncodedKey(s)[n..] == s && EncodedKey(t)[n..] == t;
  }

  function Joined(m: seq<Entry<seq<byte>>>): seq<byte> {
    if m == [] then [] else m[0].key + m[0].value + Joined(m[1..])
  }

  // Keys and values in turn.
  function FlatItems(m: seq<(Item, Item)>): (its: seq<Item>)
    ensures |its| == 2 * |m|
  {
    if m == [] then [] else [m[0].0, m[0].1] + FlatItems(m[1..])
  }

  ghost predicate PairsSound(m: seq<(Item, Item)>) {
    forall p | p in m :: Written(p.0) && Written(p.1)
  }

  lemma {:induction false} FlatItemsSound(m: seq<(Item, Item)>)
    requires PairsSound(m)
    ensures forall it | it in FlatItems(m) :: Written(it)
  {
    if m != [] {
      FlatItemsSound(m[1..]);
    }
  }

  // The bytes of the entries are the bytes of their items.
  lemma {:induction false} JoinedIsEncoded(m: seq<Entry<seq<byte>>>, ps: seq<(Item, Item)>)
    requires |m| == |ps|
    requires forall i | 0 <= i < |m| :: m[i].key == Encode(ps[i].0) && m[i].value == Encode(ps[i].1)
    ensures Joined(m) == EncodeAll(FlatItems(ps))
  {
    if m != [] {
      JoinedIsEncoded(m[1..], ps[1..]);
      EncodePair(ps[0].0, ps[0].1, FlatItems(ps[1..]));
    }
  }

  lemma EncodePair(k: Item, v: Item, rest: seq<Item>)
    ensures EncodeAll([k, v] + rest) == Encode(k) + Encode(v) + EncodeAll(rest)
  {
    assert ([k, v] + rest)[1..] == [v] + rest && ([v] + rest)[1..] == rest;
    Associative(Encode(k), Encode(v), EncodeAll(rest));
  }

  class CborEncodeStream {
    var isList: bool
    var data: seq<byte>
    var count: nat
    ghost var items: seq<Item>

    // `data` is a concatenation of exactly `count` items (counted in 64 bits).
    ghost predicate Valid()
      reads this
    {
      count == |items| % TWO64 &&
      (forall it | it in items :: Written(it)) &&
      data == EncodeAll(items)
    }

    // The bytes the stream stands for: its items, behind an array head for a list.
    function Bytes(): seq<byte>
      reads this
    {
      if isList then Prefix(Array, count) + data else data
    }

    // A list counts as one item wherever it is used.
    ghost function Outer(): seq<Item>
      reads this
      requires |items| < TWO64
    {
      if isList then [ListItem(items)] else items
    }

    constructor (list: bool)
      ensures Valid() && isList == list && items == []
    {
      isList := list;
      data, count, items := [], 0, [];
    }

    lemma CountsBytes()
      requires Valid()
      ensures |items| <= |data|
      ensures |data| < TWO64 ==> count == |items|
    {
      EncodingsAreLong(items);
    }

    lemma BytesAreOuter()
      requires Valid() && |data| < TWO64
      ensures |items| < TWO64
      ensures forall it | it in Outer() :: Written(it)
      ensures Bytes() == EncodeAll(Outer())
      ensures |Outer()| == if isList then 1 else count
    {
      CountsBytes();
      if isList {
        var l := ListItem(items);
        EncodeContainer(l);
        EncodeSingle(l);
        HeadIsPrefix(l);
      }
    }

    method Data() returns (bytes: seq<byte>)
      ensures bytes == Bytes()
    {
      if !isList {
        return data;
      }
      bytes := Prefix(Array, count);
      bytes := bytes + data;
    }

    // Every scalar: one item, its bytes behind those that are there.
    method Append(ghost it: Item, bytes: seq<byte>)
      requires Valid() && Written(it) && bytes == Encode(it)
      modifies this
      ensures Valid() && isList == old(isList) && items == old(items) + [it]
      ensures data == old(data) + bytes
    {
      EncodeSnoc(items, it);
      CountUp(|items|, 1);
      items := items + [it];
      count := (count + 1) % TWO64;
      data := data + bytes;
    }

    method PutInteger(num: int)
      requires Valid() && -0x8000_0000_0000_0000 <= num < TWO64
      modifies this
      ensures Valid() && isList == old(isList)
      ensures var v := if num < 0 then -1 - num else num;
              items == old(items) + [Integer(num < 0, MinimalWidth(v), v)]
    {
      var v: nat := if num < 0 then -1 - num else num;
      ghost var it := Integer(num < 0, MinimalWidth(v), v);
      ScalarBytes(it);
      Append(it, Prefix(if num < 0 then Signed else Unsigned, v) + []);
    }

    method PutBool(b: bool)
      requires Valid()
      modifies this
      ensures Valid() && isList == old(isList) && items == old(items) + [Simple(if b then 21 else 20)]
    {
      var code := if b then 21 else 20;
      ScalarBytes(Simple(code));
      Append(Simple(code), Prefix(Special, code) + []);
    }

    method PutNull()
      requires Valid()
      modifies this
      ensures Valid() && isList == old(isList) && items == old(items) + [Simple(22)]
    {
      ScalarBytes(Simple(22));
      Append(Simple(22), Prefix(Special, 22) + []);
    }

    method PutBytes(bytes: seq<byte>)
      requires Valid() && |bytes| < TWO64
      modifies this
      ensures Valid() && isList == old(isList)
      ensures items == old(items) + [String(false, MinimalWidth(|bytes|), bytes)]
    {
      ScalarBytes(String(false, MinimalWidth(|bytes|), bytes));
      Append(String(false, MinimalWidth(|bytes|), bytes), Prefix(MajorType.Bytes, |bytes|) + bytes);
    }

    method PutText(str: seq<byte>)
      requires Valid() && |str| < TWO64
      modifies this
      ensures Valid() && isList == old(isList) && items == old(items) + [TextItem(str)]
    {
      EncodedKeyBytes(str);
      Append(TextItem(str), Prefix(Text, |str|) + str);
    }

    // `cid` is absent when the CID has no byte form. The tag is written first and is not
    // counted; the byte string that follows is.
    method PutCid(cid: Option<seq<byte>>) returns (r: Result<(), EncodeError>)
      requires Valid() && (cid.Some? ==> |cid.value| + 1 < TWO64)
      modifies this
      ensures Valid() && isList == old(isList)
      ensures cid == None ==> r == Err(InvalidCid) && items == old(items)
      ensures cid.Some? ==>
                var bytes := [0] + cid.value;
                r == Ok(()) &&
                items == old(items) +
                [Tagged(One, 42, String(false, MinimalWidth(|bytes|), bytes))]
    {
      if cid == None {
        return Err(InvalidCid);
      }
      var bytes: seq<byte> := [0] + cid.value;
      var tag := Prefix(Tag, CID_TAG);
      ghost var inner := String(false, MinimalWidth(|bytes|), bytes);
      ghost var it := Tagged(MinimalWidth(CID_TAG), CID_TAG, inner);
      ScalarBytes(inner);
      EncodeContainer(it);
      EncodeSingle(inner);
      HeadIsPrefix(it);
      Append(it, tag + (Prefix(MajorType.Bytes, |bytes|) + bytes));
      r := Ok(());
    }

    // Appends another stream. Appending a list to itself, and only that, breaks the
    // stream: the count is raised before the list is written, so both heads announce one
    // item too many (SelfAppendIsUnfinished).
    method PutStream(other: CborEncodeStream)
      requires Valid() && other.Valid() && |other.data| < TWO64
      modifies this
      ensures isList == old(isList)
      ensures other != this || !isList ==>
                Valid() && old(|other.items|) < TWO64 && items == old(items + other.Outer())
      ensures other == this && isList ==>
                data == old(data) + (Prefix(Array, old(count) + 1) + old(data)) &&
                Bytes() == Prefix(Array, old(count) + 1) + data
      ensures Valid() <==> other != this || !isList
    {
      other.BytesAreOuter();
      ghost var had, before, outer, bytes := items, data, other.Outer(), other.Bytes();
      var more := if other.isList then 1 else other.count;
      CountsBytes();
      Concatenated(had, outer);
      CountsAdd(|had|, |outer|, more);
      count := (count + more) % TWO64;
      var otherData := other.Data();
      data := data + otherData;
      items := items + outer;
      if other == this && isList {
        PrefixWraps(Array, |had| + 1);
        SelfAppendIsBroken(had, before, otherData, EncodeAll(items));
      } else {
        assert otherData == bytes;
      }
    }

    // The entries in the order of std::map; on success they are written in the order of
    // `sorted`. A value that is not a single item stops the encoding after the map head
    // has been written and counted.
    method PutMap(entries: seq<Entry<CborEncodeStream>>)
      returns (r: Result<(), EncodeError>, ghost sorted: seq<Entry<seq<byte>>>)
      requires Valid() && |entries| < TWO64 && Ascending(LexLess, entries)
      requires forall e | e in entries :: e.value != this && e.value.Valid() && |e.value.data| < TWO64
      requires forall e | e in entries :: |e.key| < TWO64
      modifies this
      ensures isList == old(isList)
      ensures r == if old(AllSingle(entries, |entries|)) then Ok(()) else Err(ExpectedMapValueSingle)
      ensures r.Err? ==> data == old(data) + Prefix(Map, |entries|) && items == old(items)
      ensures r.Ok? ==>
                Ascending(LessCborKey, sorted) &&
                multiset(sorted) == old(multiset(EncodedEntries(entries))) &&
                data == old(data) + (Prefix(Map, |entries|) + Joined(sorted))
      ensures r.Ok? ==> Valid() && AddsMap(old(items), items, |entries|)
    {
      var ok, inner := SortEntries(entries);
      sorted := inner;
      assert entries[..|entries|] == entries;
      if ok {
        ghost var it := MapItem(entries, inner);
        AppendMap(inner, it);
        r := Ok(());
      } else {
        count := (count + 1) % TWO64;
        data := data + Prefix(Map, |entries|);
        r := Err(ExpectedMapValueSingle);
      }
    }

    method AppendMap(inner: seq<Entry<seq<byte>>>, ghost it: Item)
      requires Valid() && Written(it)
      requires Encode(it) == Prefix(Map, |inner|) + Joined(inner)
      modifies this
      ensures Valid() && isList == old(isList) && items == old(items) + [it]
      ensures data == old(data) + (Prefix(Map, |inner|) + Joined(inner))
    {
      Concatenated(items, [it]);
      EncodeSingle(it);
      CountUp(|items|, 1);
      Associative(data, Prefix(Map, |inner|), Joined(inner));
      count := (count + 1) % TWO64;
      data := data + Prefix(Map, |inner|);
      WriteEntries(inner);
      items := items + [it];
    }

    // The second loop of the map operator.
    method WriteEntries(inner: seq<Entry<seq<byte>>>)
      modifies `data
      ensures data == old(data) + Joined(inner)
    {
      var i := 0;
      while i < |inner|
        invariant 0 <= i <= |inner|
        invariant data + Joined(inner[i..]) == old(data) + Joined(inner)
      {
        assert inner[i..][1..] == inner[i + 1..];
        data := data + inner[i].key;
        data := data + inner[i].value;
        i := i + 1;
      }
    }
  }

  lemma Concatenated(a: seq<Item>, b: seq<Item>)
    requires forall it | it in a :: Written(it)
    requires forall it | it in b :: Written(it)
    ensures forall it | it in a + b :: Written(it)
    ensures EncodeAll(a + b) == EncodeAll(a) + EncodeAll(b)
  {
    EncodeAllAppend(a, b);
  }

  lemma PrefixIsHead(t: MajorType, v: nat)
    requires v < TWO64
    ensures Prefix(t, v) == HeadBytes(t, MinimalWidth(v), v)
  {
    assert v % TWO64 == v;
  }

  lemma HeadInjective(t: MajorType, v: Width, a: nat, w: Width, b: nat)
    requires Fits(v, a) && Fits(w, b) && HeadBytes(t, v, a) == HeadBytes(t, w, b)
    ensures a == b
  {
    assert ExtensionLength(v) == ExtensionLength(w) && v == w;
    if w == Inline {
      assert HeadBytes(t, w, a)[0] == HeadBytes(t, w, b)[0];
    } else {
      var n := ExtensionLength(w);
      assert BigEndian(a, n) == HeadBytes(t, w, a)[1..] == HeadBytes(t, w, b)[1..] == BigEndian(b, n);
      BigEndianRoundTrip(a, n);
      BigEndianRoundTrip(b, n);
    }
  }

  lemma MiddleDiffers(d: seq<byte>, g: seq<byte>, h: seq<byte>)
    requires g != h
    ensures d + (h + d) != d + (g + d)
  {
    var n := |d|;
    assert (d + (h + d))[n..n + |h|] == h && (d + (g + d))[n..n + |g|] == g;
  }

  // The count of a list raised by one shows in its head.
  lemma RaisedCountShows(n: nat)
    requires n < TWO64
    ensures Prefix(Array, n) != Prefix(Array, n + 1)
  {
    var m := (n + 1) % TWO64;
    PrefixIsHead(Array, n);
    PrefixIsHead(Array, m);
    assert m != n;
    if HeadBytes(Array, MinimalWidth(n), n) == HeadBytes(Array, MinimalWidth(m), m) {
      HeadInjective(Array, MinimalWidth(n), n, MinimalWidth(m), m);
    }
  }

  lemma ListItemBytes(its: seq<Item>)
    requires |its| < TWO64
    ensures Encode(ListItem(its)) == Prefix(Array, |its|) + EncodeAll(its)
  {
    EncodeContainer(ListItem(its));
    HeadIsPrefix(ListItem(its));
  }

  // What the data should be when a list is appended to itself.
  lemma ListAppended(its: seq<Item>, data: seq<byte>, all: seq<byte>) returns (head: seq<byte>)
    requires data == EncodeAll(its) && |its| < TWO64 && all == EncodeAll(its + [ListItem(its)])
    ensures head == Prefix(Array, |its|) && all == data + (head + data)
  {
    head := Prefix(Array, |its|);
    EncodeSnoc(its, ListItem(its));
    ListItemBytes(its);
  }

  // It is something else.
  lemma SelfAppendIsBroken(its: seq<Item>, data: seq<byte>, appended: seq<byte>, all: seq<byte>)
    requires data == EncodeAll(its) && |its| < TWO64 && all == EncodeAll(its + [ListItem(its)])
    requires appended == Prefix(Array, |its| + 1) + data
    ensures data + appended != all
  {
    var head := ListAppended(its, data, all);
    RaisedCountShows(|its|);
    MiddleDiffers(data, head, Prefix(Array, |its| + 1));
  }

  lemma ReadableCost(its: seq<Item>)
    requires forall it | it in its :: Readable(it)
    ensures (forall it | it in its :: Covered(it)) && Cost(its) == |its| && !AnySimple(its)
  {
    forall it | it in its ensures Covered(it) && Deficit(it) == 0 {
      CoverageOfWellFormed(it);
    }
    DeficitAllZero(its);
  }

  // Items of which one more is expected.
  lemma FeedAllButOne(its: seq<Item>, input: seq<byte>, i: nat)
    requires (forall it | it in its :: Readable(it)) && At(input, i, EncodeAll(its))
    ensures Feed(State(|its| + 1, 0, None), input, i) == Feed(START, input, i + |EncodeAll(its)|)
  {
    ReadableCost(its);
    var _ := FeedForest(|its| + 1, its, input, i);
  }

  lemma FeedListHead(n: nat, input: seq<byte>, i: nat, j: nat)
    requires n < TWO64 && At(input, i, Prefix(Array, n)) && j == i + |Prefix(Array, n)|
    ensures Feed(START, input, i) == Feed(State(n, 0, None), input, j)
  {
    PrefixIsHead(Array, n);
    FeedHead(1, Array, MinimalWidth(n), n, input, i);
  }

  // A list head that announces one item more than follow.
  lemma FeedShortList(its: seq<Item>, part: seq<byte>, input: seq<byte>, i: nat)
    requires |its| + 1 < TWO64 && forall it | it in its :: Readable(it)
    requires part == Prefix(Array, |its| + 1) + EncodeAll(its) && At(input, i, part)
    ensures Feed(START, input, i) == Feed(START, input, i + |part|)
  {
    var head := Prefix(Array, |its| + 1);
    AtSplit(input, i, head, EncodeAll(its));
    FeedListHead(|its| + 1, input, i, i + |head|);
    FeedAllButOne(its, input, i + |head|);
  }

  // Reading these bytes leaves the machine where it was: with one item to come.
  ghost predicate Neutral(part: seq<byte>) {
    forall input, i: nat | At(input, i, part) && i + |part| <= |input| ::
      Feed(START, input, i) == Feed(START, input, i + |part|)
  }

  lemma ShortListIsNeutral(its: seq<Item>, part: seq<byte>)
    requires |its| + 1 < TWO64 && forall it | it in its :: Readable(it)
    requires part == Prefix(Array, |its| + 1) + EncodeAll(its)
    ensures Neutral(part)
  {
    forall input, i: nat | At(input, i, part) && i + |part| <= |input|
      ensures Feed(START, input, i) == Feed(START, input, i + |part|)
    {
      FeedShortList(its, part, input, i);
    }
  }

  lemma NeutralTwice(part: seq<byte>)
    requires Neutral(part)
    ensures Feed(START, part + part, 0) == More(START, |part + part|)
  {
    var all, n := part + part, |part|;
    assert At(all, 0, part) && At(all, n, part);
    assert Feed(START, all, 0) == Feed(START, all, 0 + n);
    assert Feed(START, all, n) == Feed(START, all, n + n);
  }

  // The bytes of a list of readable items that was appended to itself: the machine has
  // read all of them and waits for one more item.
  lemma SelfAppendIsUnfinished(its: seq<Item>, part: seq<byte>)
    requires |its| + 1 < TWO64 && forall it | it in its :: Readable(it)
    requires part == Prefix(Array, |its| + 1) + EncodeAll(its)
    ensures Feed(START, part + part, 0) == More(START, |part + part|)
  {
    ShortListIsNeutral(its, part);
    NeutralTwice(part);
  }

  // So they are no item.
  lemma SelfAppendIsNoItem(its: seq<Item>, part: seq<byte>, it: Item)
    requires |its| + 1 < TWO64 && forall x | x in its :: Readable(x)
    requires part == Prefix(Array, |its| + 1) + EncodeAll(its) && Readable(it)
    ensures Encode(it) != part + part
  {
    SelfAppendIsUnfinished(its, part);
    FramedExactlyIff(it, []);
    assert Encode(it) + [] == Encode(it);
  }

  predicate AllSingle(entries: seq<Entry<CborEncodeStream>>, n: nat)
    reads set e | e in entries :: e.value
    requires n <= |entries|
  {
    forall i | 0 <= i < n :: entries[i].value.count == 1
  }

  // The first n entries are in the inner map.
  ghost predicate Sorted(entries: seq<Entry<CborEncodeStream>>, n: nat, inner: seq<Entry<seq<byte>>>)
    reads set e | e in entries :: e.value
    requires n <= |entries| && forall e | e in entries :: |e.key| < TWO64
  {
    Ascending(LessCborKey, inner) && |inner| == n &&
    multiset(inner) == multiset(EncodedEntries(entries[..n]))
  }

  lemma SortNext(entries: seq<Entry<CborEncodeStream>>, n: nat, inner: seq<Entry<seq<byte>>>)
    requires n < |entries| && Ascending(LexLess, entries)
    requires forall e | e in entries :: |e.key| < TWO64
    requires Sorted(entries, n, inner)
    ensures entries[n] in entries
    ensures Sorted(entries, n + 1,
            Emplace(LessCborKey, inner, Entry(EncodedKey(entries[n].key), entries[n].value.Bytes())))
  {
    var encoded := Entry(EncodedKey(entries[n].key), entries[n].value.Bytes());
    LexStrictTotal();
    LessCborKeyStrictTotal();
    KeyIsNew(entries, n, inner);
    EmplaceContents(LessCborKey, inner, encoded);
    assert entries[..n + 1][..n] == entries[..n];
    assert EncodedEntries(entries[..n + 1]) == EncodedEntries(entries[..n]) + [encoded];
  }

  // The first loop of the map operator: encoded keys and values, ordered by LessCborKey.
  method SortEntries(entries: seq<Entry<CborEncodeStream>>) returns (ok: bool, inner: seq<Entry<seq<byte>>>)
    requires Ascending(LexLess, entries)
    requires forall e | e in entries :: |e.key| < TWO64
    ensures ok <==> AllSingle(entries, |entries|)
    ensures ok ==> Sorted(entries, |entries|, inner)
  {
    inner := [];
    for n := 0 to |entries|
      invariant AllSingle(entries, n)
      invariant Sorted(entries, n, inner)
    {
      var e := entries[n];
      if e.value.count != 1 {
        assert !AllSingle(entries, |entries|);
        return false, inner;
      }
      SortNext(entries, n, inner);
      var value := e.value.Data();
      inner := Emplace(LessCborKey, inner, Entry(EncodedKey(e.key), value));
    }
    ok := true;
  }

  // The items behind the entries of the inner map.
  lemma EntryItem(e: Entry<CborEncodeStream>, x: Entry<seq<byte>>) returns (pair: (Item, Item))
    requires e.value.Valid() && |e.value.data| < TWO64 && e.value.count == 1 && |e.key| < TWO64
    requires x == Entry(EncodedKey(e.key), e.value.Bytes())
    ensures Represents(pair, x)
  {
    var it := SingleItem(e.value);
    pair := (TextItem(e.key), it);
  }

  predicate ComesFrom(entries: seq<Entry<CborEncodeStream>>, x: Entry<seq<byte>>)
    reads set e | e in entries :: e.value
    requires forall e | e in entries :: |e.key| < TWO64
  {
    exists e | e in entries :: x == Entry(EncodedKey(e.key), e.value.Bytes())
  }

  lemma {:induction false} EntryItems(entries: seq<Entry<CborEncodeStream>>, inner: seq<Entry<seq<byte>>>)
    returns (pairs: seq<(Item, Item)>)
    requires forall e | e in entries :: e.value.Valid() && |e.value.data| < TWO64 && |e.key| < TWO64
    requires AllSingle(entries, |entries|)
    requires forall x | x in inner :: ComesFrom(entries, x)
    ensures |pairs| == |inner|
    ensures forall i | 0 <= i < |inner| :: Represents(pairs[i], inner[i])
  {
    if inner == [] {
      return [];
    }
    pairs := EntryItems(entries, inner[1..]);
    var x := inner[0];
    assert x in inner;
    var e :| e in entries && x == Entry(EncodedKey(e.key), e.value.Bytes());
    var pair := EntryItem(e, x);
    pairs := [pair] + pairs;
  }

  lemma SingleItem(s: CborEncodeStream) returns (it: Item)
    requires s.Valid() && |s.data| < TWO64 && (s.isList || s.count == 1)
    ensures |s.items| < TWO64 && s.Outer() == [it]
    ensures Written(it) && Encode(it) == s.Bytes()
  {
    s.BytesAreOuter();
    s.CountsBytes();
    it := s.Outer()[0];
    assert s.Outer() == [it];
    EncodeSingle(it);
  }

  lemma DictionaryItem(inner: seq<Entry<seq<byte>>>, pairs: seq<(Item, Item)>) returns (it: Item)
    requires |inner| == |pairs| < TWO64
    requires forall i | 0 <= i < |inner| :: Represents(pairs[i], inner[i])
    ensures Written(it) && it.Dictionary? && it.count == |inner|
    ensures Encode(it) == Prefix(Map, |inner|) + Joined(inner)
  {
    assert PairsSound(pairs);
    JoinedIsEncoded(inner, pairs);
    FlatItemsSound(pairs);
    it := Dictionary(MinimalWidth(|inner|), |inner|, FlatItems(pairs));
    EncodeContainer(it);
    HeadIsPrefix(it);
  }

  lemma MapItem(entries: seq<Entry<CborEncodeStream>>, inner: seq<Entry<seq<byte>>>) returns (it: Item)
    requires |entries| < TWO64
    requires forall e | e in entries :: e.value.Valid() && |e.value.data| < TWO64
    requires AllSingle(entries, |entries|)
    requires forall e | e in entries :: |e.key| < TWO64
    requires Sorted(entries, |entries|, inner)
    ensures Written(it) && it.Dictionary? && it.count == |entries|
    ensures Encode(it) == Prefix(Map, |entries|) + Joined(inner)
  {
    assert entries[..|entries|] == entries;
    var encoded := EncodedEntries(entries);
    forall x | x in inner
      ensures ComesFrom(entries, x)
    {
      assert x in multiset(encoded);
      var j :| 0 <= j < |encoded| && encoded[j] == x;
      assert entries[j] in entries;
    }
    var pairs := EntryItems(entries, inner);
    it := DictionaryItem(inner, pairs);
  }

  // One item more: a map with n entries.
  ghost predicate AddsMap(before: seq<Item>, after: seq<Item>, n: nat) {
    |after| == |before| + 1 && before <= after &&
    after[|before|].Dictionary? && after[|before|].count == n
  }

  ghost predicate Represents(p: (Item, Item), e: Entry<seq<byte>>) {
    Written(p.0) && Written(p.1) &&
    e.key == Encode(p.0) && e.value == Encode(p.1)
  }

  // Entries with their keys encoded and their values as bytes.
  function EncodedEntries(entries: seq<Entry<CborEncodeStream>>): (m: seq<Entry<seq<byte>>>)
    reads set e | e in entries :: e.value
    requires forall e | e in entries :: |e.key| < TWO64
    ensures |m| == |entries|
    ensures forall i | 0 <= i < |m| :: m[i] == Entry(EncodedKey(entries[i].key), entries[i].value.Bytes())
  {
    if entries == [] then []
    else
      var n := |entries| - 1;
      EncodedEntries(entries[..n]) + [Entry(EncodedKey(entries[n].key), entries[n].value.Bytes())]
  }

  lemma KeyIsNew(entries: seq<Entry<CborEncodeStream>>, n: nat, inner: seq<Entry<seq<byte>>>)
    requires n < |entries| && Ascending(LexLess, entries) && StrictTotal(LexLess)
    requires forall e | e in entries :: |e.key| < TWO64
    requires multiset(inner) == multiset(EncodedEntries(entries[..n]))
    ensures !HasKey(inner, EncodedKey(entries[n].key))
  {
    var done := EncodedEntries(entries[..n]);
    forall i | 0 <= i < |inner|
      ensures inner[i].key != EncodedKey(entries[n].key)
    {
      assert inner[i] in multiset(done);
      var j :| 0 <= j < n && done[j] == inner[i];
      assert LexLess(entries[j].key, entries[n].key);
      if inner[i].key == EncodedKey(entries[n].key) {
        EncodedKeyInjective(entries[j].key, entries[n].key);
        assert false;
      }
    }
  }

  // The bytes of a map depend on its content alone.
  lemma MapBytesAreCanonical(a: seq<Entry<seq<byte>>>, b: seq<Entry<seq<byte>>>)
    requires Ascending(LessCborKey, a) && Ascending(LessCborKey, b) && multiset(a) == multiset(b)
    ensures Joined(a) == Joined(b)
  {
    LessCborKeyStrictTotal();
    TraversalIsUnique(LessCborKey, a, b);
  }

  // Agreement with the buffering machine: the bytes of a stream that holds one item are
  // framed exactly if and only if no boolean and no null was written into it.
  lemma OneItemIsFramed(s: CborEncodeStream, rest: seq<byte>)
    requires s.Valid() && |s.Bytes()| < TWO64 && (s.isList || s.count == 1)
    ensures Feed(START, s.Bytes() + rest, 0) == More(FINISHED, |s.Bytes()|) <==>
            forall it | it in s.items :: !HasSimple(it)
  {
    var it := SingleItem(s);
    s.CountsBytes();
    EncodingsAreLong(s.Outer());
    AddressableHasNoWideMap(it);
    FramedExactlyIff(it, rest);
    if !s.isList {
      assert s.items == [it];
    }
  }
}
