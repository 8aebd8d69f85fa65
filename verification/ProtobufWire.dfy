// The protobuf wire format, as far as ipld_node.proto needs it: varints, and fields
// that hold a varint, a fixed word, or a length and bytes.

module ProtobufWire {
  import opened Basics
  import opened Bits

  datatype Field =
    | VarintField(number: nat, value: nat)
    | BytesField(number: nat, bytes: seq<byte>)
    | FixedField(number: nat, word: seq<byte>)

  const VARINT: nat := 0
  const BITS_64: nat := 1
  const LENGTH_DELIMITED: nat := 2
  const BITS_32: nat := 5

  // Bytes of a varint.
  function VarintSize(v: nat): (n: nat)
    ensures n > 0
  {
    if v < 128 then 1 else 1 + VarintSize(v / 128)
  }

  lemma {:induction false} VarintSizeIsLength(v: nat)
    ensures |Varint(v)| == VarintSize(v)
    decreases v
  {
    if v >= 128 {
      VarintSizeIsLength(v / 128);
    }
  }

  // A varint of at most n bytes at the beginning of `bs`: value and length.
  function TakeNumber(bs: seq<byte>, n: nat): (r: Option<(nat, nat)>)
    ensures r.Some? ==> 0 < r.value.1 <= |bs|
  {
    if n == 0 || bs == [] then None
    else if bs[0] < 128 then Some((bs[0], 1))
    else match TakeNumber(bs[1..], n - 1)
      case None => None
      case Some((v, k)) => Some((bs[0] - 128 + 128 * v, k + 1))
  }

  // A 64-bit varint takes at most ten bytes; bits above the 64th are dropped.
  function ReadVarint(bs: seq<byte>): (r: Option<(nat, nat)>)
    ensures r.Some? ==> 0 < r.value.1 <= |bs|
  {
    match TakeNumber(bs, 10)
    case None => None
    case Some((v, k)) => Some((v % TWO64, k))
  }

  // What follows a tag, and its length. Groups and field number 0 are refused.
  function ReadPayload(tag: nat, bs: seq<byte>): (r: Option<(Field, nat)>)
    ensures r.Some? ==> r.value.1 <= |bs|
  {
    var number := tag / 8;
    if number == 0 || tag >= 0x1_0000_0000 then None
    else if tag % 8 == VARINT then
      match ReadVarint(bs)
      case None => None
      case Some((v, m)) => Some((VarintField(number, v), m))
    else if tag % 8 == LENGTH_DELIMITED then
      match ReadVarint(bs)
      case None => None
      case Some((len, m)) =>
        if m + len > |bs| then None else Some((BytesField(number, bs[m..m + len]), m + len))
    else if tag % 8 == BITS_64 && 8 <= |bs| then Some((FixedField(number, bs[..8]), 8))
    else if tag % 8 == BITS_32 && 4 <= |bs| then Some((FixedField(number, bs[..4]), 4))
    else None
  }

  // One field at the beginning of `bs`, and its length.
  function ReadField(bs: seq<byte>): (r: Option<(Field, nat)>)
    ensures r.Some? ==> 0 < r.value.1 <= |bs|
  {
    match ReadVarint(bs)
    case None => None
    case Some((tag, k)) =>
      match ReadPayload(tag, bs[k..])
      case None => None
      case Some((f, m)) => Some((f, k + m))
  }

  function ReadFields(bs: seq<byte>): Option<seq<Field>>
    decreases |bs|
  {
    if bs == [] then Some([])
    else match ReadField(bs)
      case None => None
      case Some((f, k)) =>
        match ReadFields(bs[k..])
        case None => None
        case Some(fs) => Some([f] + fs)
  }

  // Fields as the encoder of this repository writes them.
  predicate Writable(f: Field) {
    0 < f.number < 16 &&
    match f
    case VarintField(_, v) => v < TWO64
    case BytesField(_, bytes) => |bytes| < TWO64
    case FixedField(_, _) => false
  }

  function FieldBytes(f: Field): (bs: seq<byte>)
    requires Writable(f)
    ensures bs != []
  {
    match f
    case VarintField(number, v) => [number * 8 + VARINT] + Varint(v)
    case BytesField(number, bytes) => [number * 8 + LENGTH_DELIMITED] + Varint(|bytes|) + bytes
  }

  // Wire type 0 is a varint, wire type 2 a length and as many bytes.
  lemma FieldForm(f: Field)
    requires Writable(f)
    ensures FieldBytes(f)[0] == 8 * f.number + if f.VarintField? then 0 else 2
    ensures FieldBytes(f)[1..] == if f.VarintField? then Varint(f.value) else Varint(|f.bytes|) + f.bytes
  {
    if f.BytesField? {
      Associative([f.number * 8 + LENGTH_DELIMITED], Varint(|f.bytes|), f.bytes);
    }
  }

  function FieldsBytes(fs: seq<Field>): seq<byte>
    requires forall f | f in fs :: Writable(f)
  {
    if fs == [] then [] else FieldBytes(fs[0]) + FieldsBytes(fs[1..])
  }

  lemma {:induction false} FieldsBytesAppend(a: seq<Field>, b: seq<Field>)
    requires forall f | f in a :: Writable(f)
    requires forall f | f in b :: Writable(f)
    ensures FieldsBytes(a + b) == FieldsBytes(a) + FieldsBytes(b)
  {
    if a == [] {
      assert a + b == b;
    } else {
      assert (a + b)[1..] == a[1..] + b;
      FieldsBytesAppend(a[1..], b);
      Associative(FieldBytes(a[0]), FieldsBytes(a[1..]), FieldsBytes(b));
    }
  }

  lemma {:induction false} TakeNumberInverts(v: nat, n: nat, rest: seq<byte>)
    requires n > 0 && v < Pow2(7 * n)
    ensures TakeNumber(Varint(v) + rest, n) == Some((v, |Varint(v)|))
    decreases n
  {
    if v < 128 {
      assert (Varint(v) + rest)[0] == v;
    } else {
      Pow2Small();
      if n == 1 {
        assert false;
      }
      Pow2Add(7, 7 * (n - 1));
      TakeNumberInverts(v / 128, n - 1, rest);
      assert Varint(v) == [v % 128 + 128] + Varint(v / 128);
      assert (Varint(v) + rest)[1..] == Varint(v / 128) + rest;
    }
  }

  lemma ReadVarintInverts(v: nat, rest: seq<byte>)
    requires v < TWO64
    ensures ReadVarint(Varint(v) + rest) == Some((v, |Varint(v)|))
  {
    Pow2Of64();
    Pow2Monotone(64, 70);
    TakeNumberInverts(v, 10, rest);
  }

  lemma ReadTag(tag: nat, rest: seq<byte>)
    requires tag < 128
    ensures ReadVarint([tag] + rest) == Some((tag, 1))
  {
    assert Varint(tag) == [tag];
    ReadVarintInverts(tag, rest);
  }

  lemma ReadVarintPayload(number: nat, v: nat, rest: seq<byte>)
    requires 0 < number < 16 && v < TWO64
    ensures ReadPayload(number * 8 + VARINT, Varint(v) + rest) == Some((VarintField(number, v), |Varint(v)|))
  {
    ReadVarintInverts(v, rest);
  }

  lemma ReadBytesPayload(number: nat, bytes: seq<byte>, rest: seq<byte>)
    requires 0 < number < 16 && |bytes| < TWO64
    ensures ReadPayload(number * 8 + LENGTH_DELIMITED, Varint(|bytes|) + (bytes + rest))
         == Some((BytesField(number, bytes), |Varint(|bytes|)| + |bytes|))
  {
    var len := Varint(|bytes|);
    ReadVarintInverts(|bytes|, bytes + rest);
    assert (len + (bytes + rest))[|len|..|len| + |bytes|] == bytes;
  }

  lemma ReadFieldInverts(f: Field, rest: seq<byte>)
    requires Writable(f)
    ensures ReadField(FieldBytes(f) + rest) == Some((f, |FieldBytes(f)|))
  {
    var tag := f.number * 8 + if f.VarintField? then VARINT else LENGTH_DELIMITED;
    var payload := if f.VarintField? then Varint(f.value) else Varint(|f.bytes|) + f.bytes;
    assert FieldBytes(f) == [tag] + payload;
    Associative([tag], payload, rest);
    ReadTag(tag, payload + rest);
    assert ([tag] + (payload + rest))[1..] == payload + rest;
    if f.VarintField? {
      ReadVarintPayload(f.number, f.value, rest);
    } else {
      Associative(Varint(|f.bytes|), f.bytes, rest);
      ReadBytesPayload(f.number, f.bytes, rest);
    }
  }

  // Reading undoes writing, whatever the fields.
  lemma {:induction false} ReadFieldsInverts(fs: seq<Field>)
    requires forall f | f in fs :: Writable(f)
    ensures ReadFields(FieldsBytes(fs)) == Some(fs)
  {
    if fs != [] {
      var head, tail := FieldBytes(fs[0]), FieldsBytes(fs[1..]);
      ReadFieldInverts(fs[0], tail);
      assert (head + tail)[|head|..] == tail;
      ReadFieldsInverts(fs[1..]);
      assert fs == [fs[0]] + fs[1..];
    }
  }
}
