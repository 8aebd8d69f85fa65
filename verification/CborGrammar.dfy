// The CBOR data items of section 2.1 of RFC 7049 and their bytes.
//
// Indefinite lengths have no constructor here: common/libp2p/cbor_buffering.cpp
// refuses them. Major type 7 is present as `Simple`, because the encoder writes
// booleans and null with it; the buffering machine refuses it.

module CborGrammar {
  import opened Basics

  datatype MajorType = Unsigned | Signed | Bytes | Text | Array | Map | Tag | Special

  // How many bytes carry the argument of a head: none (inside the first byte), 1, 2, 4 or 8.
  datatype Width = Inline | One | Two | Four | Eight

  datatype Item =
    | Integer(negative: bool, width: Width, value: nat)
    | String(text: bool, width: Width, payload: seq<byte>)
    | List(width: Width, items: seq<Item>)
      // `flat` holds the keys and the values in turn; `count` is the number of pairs the head announces.
    | Dictionary(width: Width, count: nat, flat: seq<Item>)
    | Tagged(width: Width, tag: nat, item: Item)
    | Simple(value: nat)

  function TypeCode(t: MajorType): (c: nat)
    ensures c < 8
  {
    match t
    case Unsigned => 0
    case Signed => 1
    case Bytes => 2
    case Text => 3
    case Array => 4
    case Map => 5
    case Tag => 6
    case Special => 7
  }

  function ExtensionLength(w: Width): (n: nat)
    ensures n <= 8
  {
    match w
    case Inline => 0
    case One => 1
    case Two => 2
    case Four => 4
    case Eight => 8
  }

  function AdditionalInformation(w: Width, v: nat): (info: nat)
    ensures info < 28
  {
    match w
    case Inline => v % 24
    case One => 24
    case Two => 25
    case Four => 26
    case Eight => 27
  }

  function Pow256(n: nat): (r: nat)
    ensures r >= 1
  {
    if n == 0 then 1 else 256 * Pow256(n - 1)
  }

  lemma {:induction false} Pow256Monotone(m: nat, n: nat)
    requires m <= n
    ensures Pow256(m) <= Pow256(n)
    decreases n
  {
    if m < n {
      Pow256Monotone(m, n - 1);
    }
  }

  // The unsigned big-endian number written in `bs`.
  function BigEndianValue(bs: seq<byte>): nat {
    if bs == [] then 0 else BigEndianValue(bs[..|bs| - 1]) * 256 + bs[|bs| - 1]
  }

  function BigEndian(v: nat, n: nat): (bs: seq<byte>)
    ensures |bs| == n
  {
    if n == 0 then [] else BigEndian(v / 256, n - 1) + [v % 256]
  }

  lemma {:induction false} BigEndianRoundTrip(v: nat, n: nat)
    requires v < Pow256(n)
    ensures BigEndianValue(BigEndian(v, n)) == v
  {
    if n > 0 {
      BigEndianRoundTrip(v / 256, n - 1);
      var bs := BigEndian(v, n);
      assert bs[..n - 1] == BigEndian(v / 256, n - 1);
    }
  }

  lemma {:induction false} BigEndianValueBound(bs: seq<byte>)
    ensures BigEndianValue(bs) < Pow256(|bs|)
    ensures BigEndian(BigEndianValue(bs), |bs|) == bs
  {
    if bs != [] {
      var init, last := bs[..|bs| - 1], bs[|bs| - 1];
      BigEndianValueBound(init);
      assert (BigEndianValue(init) * 256 + last) / 256 == BigEndianValue(init);
      assert bs == init + [last];
    }
  }

  // Section 2.1: a value fits the inline form below 24, and n extension bytes below 256^n.
  predicate Fits(w: Width, v: nat) {
    if w == Inline then v < 24 else v < Pow256(ExtensionLength(w))
  }

  function HeadBytes(t: MajorType, w: Width, v: nat): (bs: seq<byte>)
    ensures |bs| == 1 + ExtensionLength(w)
  {
    [TypeCode(t) * 32 + AdditionalInformation(w, v)] + BigEndian(v, ExtensionLength(w))
  }

  function TypeOf(it: Item): MajorType {
    match it
    case Integer(negative, _, _) => if negative then Signed else Unsigned
    case String(text, _, _) => if text then Text else Bytes
    case List(_, _) => Array
    case Dictionary(_, _, _) => Map
    case Tagged(_, _, _) => Tag
    case Simple(_) => Special
  }

  function WidthOf(it: Item): Width {
    if it.Simple? then Inline else it.width
  }

  function Argument(it: Item): nat {
    match it
    case Integer(_, _, value) => value
    case String(_, _, payload) => |payload|
    case List(_, items) => |items|
    case Dictionary(_, count, _) => count
    case Tagged(_, tag, _) => tag
    case Simple(value) => value
  }

  function Payload(it: Item): seq<byte> {
    if it.String? then it.payload else []
  }

  function Children(it: Item): seq<Item> {
    match it
    case List(_, items) => items
    case Dictionary(_, _, flat) => flat
    case Tagged(_, _, item) => [item]
    case _ => []
  }

  function HeadOf(it: Item): (bs: seq<byte>)
    ensures |bs| == 1 + ExtensionLength(WidthOf(it))
  {
    HeadBytes(TypeOf(it), WidthOf(it), Argument(it))
  }

  function Encode(it: Item): (bs: seq<byte>)
    ensures bs != []
    decreases it
  {
    HeadOf(it) + Payload(it) +
    match it
    case List(_, items) => EncodeAll(items)
    case Dictionary(_, _, flat) => EncodeAll(flat)
    case Tagged(_, _, item) => Encode(item)
    case _ => []
  }

  function EncodeAll(its: seq<Item>): seq<byte>
    decreases its
  {
    if its == [] then [] else Encode(its[0]) + EncodeAll(its[1..])
  }

  lemma EncodeByChildren(it: Item)
    ensures Encode(it) == HeadOf(it) + Payload(it) + EncodeAll(Children(it))
  {
    if it.Tagged? {
      assert EncodeAll([it.item]) == Encode(it.item) + EncodeAll([]);
    }
  }

  lemma EncodeContainer(it: Item)
    requires !it.String?
    ensures Encode(it) == HeadOf(it) + EncodeAll(Children(it))
  {
    EncodeByChildren(it);
    assert HeadOf(it) + [] == HeadOf(it);
  }

  lemma EncodeSingle(it: Item)
    ensures EncodeAll([it]) == Encode(it)
  {
    assert EncodeAll([it]) == Encode(it) + EncodeAll([]);
  }

  lemma {:induction false} EncodeAllAppend(a: seq<Item>, b: seq<Item>)
    ensures EncodeAll(a + b) == EncodeAll(a) + EncodeAll(b)
  {
    if a == [] {
      assert a + b == b;
    } else {
      assert (a + b)[1..] == a[1..] + b;
      EncodeAllAppend(a[1..], b);
    }
  }

  lemma EncodeSnoc(its: seq<Item>, it: Item)
    ensures EncodeAll(its + [it]) == EncodeAll(its) + Encode(it)
  {
    EncodeAllAppend(its, [it]);
    EncodeSingle(it);
  }

  // Section 2.1: every argument fits the width it is written with, and two items follow
  // for each pair the head of a map announces.
  predicate WellFormed(it: Item) {
    Fits(WidthOf(it), Argument(it)) &&
    (it.Dictionary? ==> |it.flat| == 2 * it.count) &&
    forall c | c in Children(it) :: WellFormed(c)
  }

  // Does a boolean, null or other major type 7 item occur anywhere in the tree?
  predicate HasSimple(it: Item) {
    it.Simple? || exists c | c in Children(it) :: HasSimple(c)
  }

  // Does a map of 2^63 or more pairs occur anywhere in the tree?
  predicate HasWideMap(it: Item) {
    (it.Dictionary? && it.count >= TWO63) || exists c | c in Children(it) :: HasWideMap(c)
  }
}
