// codec/rle: sets of w-bit unsigned integers as RLE+ bit strings.
//
// First the format: run lengths, blocks, and what a decoder makes of any bit string.
// Then the two stream classes, proved to compute these functions.

module RlePlus {
  import opened Basics
  import opened Bits

  const SMALL_BLOCK_LENGTH: nat := 4
  const PACK_BYTE_SHIFT: nat := 7
  const BYTE_BITS_COUNT: nat := 8
  const LONG_BLOCK_VALUE: nat := 16
  const BYTE_SLICE_VALUE: nat := 128
  const OBJECT_MAX_SIZE: nat := 0x100000

  datatype DecodeError = VersionMismatch | DataIndexFailure | UnpackOverflow | MaxSizeExceed

  // Bits in T: one of the unsigned types.
  predicate IsWordWidth(w: nat) {
    w == 8 || w == 16 || w == 32 || w == 64
  }

  // A std::set<T>: its elements in ascending order.
  ghost predicate IsSetOf(s: seq<nat>, w: nat) {
    (forall i | 0 <= i < |s| :: s[i] < Pow2(w)) &&
    forall i, j | 0 <= i < j < |s| :: s[i] < s[j]
  }

  ghost function Elements(s: seq<nat>): set<nat> {
    set x | x in s
  }

  // Run lengths, alternating between absent and present numbers; the last run grows in T.
  function Periods(s: seq<nat>, w: nat): seq<nat>
    requires forall i, j | 0 <= i < j < |s| :: s[i] < s[j]
    ensures s != [] ==> Periods(s, w) != []
    decreases |s|
  {
    if s == [] then []
    else if |s| == 1 then (if s[0] != 0 then [s[0]] else []) + [1]
    else
      var n := |s| - 1;
      var p := Periods(s[..n], w);
      var diff := s[n] - s[n - 1];
      if diff == 1 then p[|p| - 1 := (p[|p| - 1] + 1) % Pow2(w)]
      else p + [diff - 1, 1]
  }

  lemma VarintStep(v: nat)
    ensures FromBytes(Varint(v)) ==
              if v < BYTE_SLICE_VALUE then BitsOf(v, 8) else BitsOf(v % 128 + 128, 8) + FromBytes(Varint(v / 128))
  {
    assert FromBytes(Varint(v)) == BitsOf(Varint(v)[0], 8) + FromBytes(Varint(v)[1..]);
    if v < BYTE_SLICE_VALUE {
      assert BitsOf(v, 8) + [] == BitsOf(v, 8);
    } else {
      assert Varint(v)[1..] == Varint(v / 128);
    }
  }

  lemma VarintAfter(c: seq<bool>, v: nat)
    requires v >= BYTE_SLICE_VALUE
    ensures c + FromBytes(Varint(v)) == c + BitsOf(v % 128 + 128, 8) + FromBytes(Varint(v / 128))
  {
    VarintStep(v);
    Associative(c, BitsOf(v % 128 + 128, 8), FromBytes(Varint(v / 128)));
  }

  function Block(v: nat): (bits: seq<bool>)
    ensures bits != []
  {
    if v == 1 then [true]
    else if v < LONG_BLOCK_VALUE then [false, true] + BitsOf(v, SMALL_BLOCK_LENGTH)
    else [false, false] + FromBytes(Varint(v))
  }

  function Blocks(periods: seq<nat>): seq<bool> {
    if periods == [] then [] else Block(periods[0]) + Blocks(periods[1..])
  }

  lemma {:induction false} BlocksSnoc(periods: seq<nat>, n: nat)
    ensures Blocks(periods + [n]) == Blocks(periods) + Block(n)
  {
    if periods == [] {
      assert [] + [n] == [n] && Blocks([n]) == Block(n) + [];
    } else {
      assert (periods + [n])[1..] == periods[1..] + [n];
      BlocksSnoc(periods[1..], n);
      Associative(Block(periods[0]), Blocks(periods[1..]), Block(n));
    }
  }

  function EncodedBits(s: seq<nat>, w: nat): seq<bool>
    requires forall i, j | 0 <= i < j < |s| :: s[i] < s[j]
  {
    [false, false, s != [] && s[0] == 0] + Blocks(Periods(s, w))
  }

  function Encoded(s: seq<nat>, w: nat): seq<byte>
    requires forall i, j | 0 <= i < j < |s| :: s[i] < s[j]
  {
    ToBytes(EncodedBits(s, w))
  }

  // Bytes of a long block, up to and including the first below 128; none if the bits end first.
  function TakeVarint(bits: seq<bool>): (r: Option<seq<byte>>)
    ensures r.Some? ==> 0 < 8 * |r.value| <= |bits|
    decreases |bits|
  {
    if |bits| < 8 then None
    else
      ValueBound(bits[..8]);
      Pow2Small();
      var b: byte := ValueOf(bits[..8]);
      if b < BYTE_SLICE_VALUE then Some([b])
      else match TakeVarint(bits[8..])
        case None => None
        case Some(bs) => Some([b] + bs)
  }

  // Seven bits of each byte, lowest first, in T. The bits of `b` lie above those
  // gathered so far, so the bitwise or of the code is a sum.
  function Unpack(bs: seq<byte>, shift: nat, w: nat): (r: Result<nat, DecodeError>)
    ensures r.Ok? ==> r.value < Pow2(w)
  {
    if bs == [] then Ok(0)
    else if shift > w then Err(UnpackOverflow)
    else if bs[0] < BYTE_SLICE_VALUE then Ok((bs[0] * Pow2(shift)) % Pow2(w))
    else match Unpack(bs[1..], shift + PACK_BYTE_SHIFT, w)
      case Err(e) => Err(e)
      case Ok(v) => Ok((((bs[0] - 128) * Pow2(shift)) % Pow2(w) + v) % Pow2(w))
  }

  // n numbers from v on, in T.
  function Run(v: nat, n: nat, w: nat): set<nat> {
    if n == 0 then {} else Run(v, n - 1, w) + {(v + n - 1) % Pow2(w)}
  }

  // A run of length n: its numbers are in the set if the magnitude says so.
  function Covered(mag: bool, v: nat, n: nat, out: set<nat>, w: nat): set<nat> {
    if mag then out + Run(v, n, w) else out
  }

  // The block at the beginning of `bits`: its length in bits and the run length it holds.
  function ReadBlock(bits: seq<bool>, w: nat): (r: Result<(nat, nat), DecodeError>)
    ensures r.Ok? ==> 0 < r.value.0 <= |bits|
  {
    if |bits| < 1 then Err(DataIndexFailure)
    else if bits[0] then Ok((1, 1))
    else if |bits| < 2 then Err(DataIndexFailure)
    else if bits[1] then
      if |bits| < 2 + SMALL_BLOCK_LENGTH then Err(DataIndexFailure)
      else Ok((2 + SMALL_BLOCK_LENGTH, ValueOf(bits[2..2 + SMALL_BLOCK_LENGTH])))
    else
      match TakeVarint(bits[2..])
      case None => Err(DataIndexFailure)
      case Some(bs) =>
        match Unpack(bs, 0, w)
        case Err(e) => Err(e)
        case Ok(n) => Ok((2 + 8 * |bs|, n))
  }

  // What the decoder makes of the bits behind the header, with the current number v: it
  // goes on as long as any bit is left set.
  function DecodeBlocks(bits: seq<bool>, mag: bool, v: nat, out: set<nat>, w: nat): Result<set<nat>, DecodeError>
    decreases |bits|
  {
    if !AnySet(bits) then Ok(out)
    else
      match ReadBlock(bits, w)
      case Err(e) => Err(e)
      case Ok((k, n)) => DecodeBlocks(bits[k..], !mag, (v + n) % Pow2(w), Covered(mag, v, n, out, w), w)
  }

  function MaxElements(w: nat): nat
    requires IsWordWidth(w)
  {
    OBJECT_MAX_SIZE / (w / BYTE_BITS_COUNT)
  }

  function Checked(r: Result<set<nat>, DecodeError>, w: nat): Result<set<nat>, DecodeError>
    requires IsWordWidth(w)
  {
    if r.Ok? && |r.value| > MaxElements(w) then Err(MaxSizeExceed) else r
  }

  function DecodedBits(bits: seq<bool>, w: nat): Result<set<nat>, DecodeError>
    requires IsWordWidth(w)
  {
    if |bits| < SMALL_BLOCK_LENGTH || ValueOf(bits[..2]) != 0 then Err(VersionMismatch)
    else Checked(DecodeBlocks(bits[3..], bits[2], 0, {}, w), w)
  }

  function Decoded(bytes: seq<byte>, w: nat): Result<set<nat>, DecodeError>
    requires IsWordWidth(w)
  {
    DecodedBits(FromBytes(bytes), w)
  }

  class RLEPlusEncodingStream {
    var content: seq<bool>

    constructor ()
      ensures content == []
    {
      content := [];
    }

    method InitContent()
      modifies this
      ensures content == [false, false]
    {
      content := [];
      content := content + [false];
      content := content + [false];
    }

    // `n` bits of `v`, picked with a mask and a shift.
    method PushBits(v: nat, n: nat)
      modifies this
      ensures content == old(content) + BitsOf(v, n)
    {
      for i := 0 to n
        invariant content == old(content) + BitsOf(v, n)[..i]
      {
        BitAt(v, n, i);
        content := content + [(v / Pow2(i)) % 2 == 1];
      }
    }

    method PushByte(b: byte)
      modifies this
      ensures content == old(content) + BitsOf(b, 8)
    {
      PushBits(b, BYTE_BITS_COUNT);
    }

    method PushSmallBlock(block: nat)
      requires block != 1 && block < LONG_BLOCK_VALUE
      modifies this
      ensures content == old(content) + Block(block)
    {
      content := content + [false];
      content := content + [true];
      PushBits(block, SMALL_BLOCK_LENGTH);
    }

    method PushLongBlock(block: nat)
      requires block >= LONG_BLOCK_VALUE
      modifies this
      ensures content == old(content) + Block(block)
    {
      content := content + [false];
      content := content + [false];
      assert content == old(content) + [false, false];
      Associative(old(content), [false, false], FromBytes(Varint(block)));
      PushVarint(block);
    }

    method PushVarint(block: nat)
      modifies this
      ensures content == old(content) + FromBytes(Varint(block))
    {
      var slice: nat := block;
      while slice >= BYTE_SLICE_VALUE
        invariant content + FromBytes(Varint(slice)) == old(content) + FromBytes(Varint(block))
      {
        VarintAfter(content, slice);
        PushByte(slice % 128 + 128);
        slice := slice / 128;   // slice >>= PACK_BYTE_SHIFT
      }
      VarintStep(slice);
      PushByte(slice);
    }

    method GetPeriods(s: seq<nat>, w: nat) returns (periods: seq<nat>)
      requires IsSetOf(s, w)
      ensures periods == Periods(s, w)
    {
      periods := [];
      var prev := if s != [] then s[0] else 0;
      if prev != 0 {
        periods := periods + [prev];
      }
      if s == [] {
        return;
      }
      periods := periods + [1];
      assert s[..1] == [s[0]];
      var i := 1;
      while i < |s|
        invariant 1 <= i <= |s| && prev == s[i - 1]
        invariant periods == Periods(s[..i], w)
      {
        assert s[..i + 1][..i] == s[..i];
        var diff := s[i] - prev;
        if diff == 1 {
          var last := |periods| - 1;
          periods := periods[last := (periods[last] + 1) % Pow2(w)];
        }
        if diff > 1 {
          periods := periods + [diff - 1];
          periods := periods + [1];
        }
        prev := s[i];
        i := i + 1;
      }
      assert s[..|s|] == s;
    }

    method Put(s: seq<nat>, w: nat)
      requires IsWordWidth(w) && IsSetOf(s, w)
      modifies this
      ensures content == EncodedBits(s, w)
    {
      var periods := GetPeriods(s, w);
      InitContent();
      var flag := false;
      if s != [] {
        flag := s[0] == 0;
      }
      content := content + [flag];
      assert content == [false, false, flag];
      PushBlocks(periods);
    }

    method PushBlocks(periods: seq<nat>)
      modifies this
      ensures content == old(content) + Blocks(periods)
    {
      assert content == content + Blocks(periods[..0]);
      for i := 0 to |periods|
        invariant content == old(content) + Blocks(periods[..i])
      {
        var value := periods[i];
        assert periods[..i + 1] == periods[..i] + [value];
        BlocksSnoc(periods[..i], value);
        Associative(old(content), Blocks(periods[..i]), Block(value));
        if value == 1 {
          content := content + [true];
        } else if value < LONG_BLOCK_VALUE {
          PushSmallBlock(value);
        } else {
          PushLongBlock(value);
        }
      }
      assert periods[..|periods|] == periods;
    }

    // The bytes unpack to the bits of the stream and fewer than eight zeros behind them.
    method Data() returns (bytes: seq<byte>)
      ensures bytes == ToBytes(content)
      ensures exists padding: nat | padding < 8 :: FromBytes(bytes) == content + Zeros(padding)
    {
      ghost var padding := BytesRoundTrip(content);
      bytes := ToBytes(content);
      assert FromBytes(bytes) == content + Zeros(padding);
    }
  }

  class RLEPlusDecodingStream {
    var index: nat
    var magnitude: bool
    const content: seq<bool>

    constructor (data: seq<byte>)
      ensures content == FromBytes(data) && index == 0 && !magnitude
    {
      index, magnitude := 0, false;
      content := FromBytes(data);
    }

    method GetSpan(count: nat) returns (r: Result<nat, DecodeError>)
      requires count <= BYTE_BITS_COUNT && index <= |content|
      modifies `index
      ensures |content| < old(index) + count ==> r == Err(DataIndexFailure) && index == old(index)
      ensures |content| >= old(index) + count ==>
                index == old(index) + count && r == Ok(ValueOf(content[old(index)..index]))
    {
      var value: nat := 0;
      var shift: nat := 0;
      var end := index + count;
      if |content| < end {
        return Err(DataIndexFailure);
      }
      for i := index to end
        invariant index == old(index) && shift == i - index
        invariant value == ValueOf(content[index..i])
      {
        var slice := if content[i] then 1 else 0;
        ValueSnoc(content[index..i], content[i]);
        assert content[index..i + 1] == content[index..i] + [content[i]];
        value := value + slice * Pow2(shift);
        shift := shift + 1;
      }
      index := index + count;
      r := Ok(value);
    }

    // boost::dynamic_bitset::find_next behind the previous position: is a bit set from `index` on?
    method AnyBitLeft() returns (found: bool)
      requires index <= |content|
      ensures found == AnySet(content[index..])
    {
      for i := index to |content|
        invariant forall k | index <= k < i :: !content[k]
      {
        if content[i] {
          assert content[index..][i - index];
          return true;
        }
      }
      found := false;
    }

    // Inserts or skips `length` numbers; the magnitude flips.
    method DecodeRun(value: nat, output: set<nat>, length: nat, w: nat) returns (value': nat, output': set<nat>)
      requires value < Pow2(w)
      modifies `magnitude
      ensures magnitude == !old(magnitude)
      ensures value' == (value + length) % Pow2(w)
      ensures output' == Covered(old(magnitude), value, length, output, w)
    {
      value', output' := value, output;
      SmallMod(value, Pow2(w));
      if magnitude {
        for i := 0 to length
          invariant magnitude == old(magnitude) && value' == (value + i) % Pow2(w)
          invariant output' == output + Run(value, i, w)
        {
          ModStep(value + i, w);
          output' := output' + {value'};
          value' := (value' + 1) % Pow2(w);
        }
      } else {
        value' := (value + length) % Pow2(w);
      }
      magnitude := !magnitude;
    }

    method UnpackBytes(bytes: seq<byte>, w: nat) returns (r: Result<nat, DecodeError>)
      ensures r == Unpack(bytes, 0, w)
    {
      var value: nat, shift: nat := 0, 0;
      assert bytes[0..] == bytes;
      UnpackInT(bytes, 0, w);
      for i := 0 to |bytes|
        invariant value < Pow2(w)
        invariant Unpack(bytes, 0, w) == Added(value, Unpack(bytes[i..], shift, w), w)
      {
        assert bytes[i..][1..] == bytes[i + 1..];
        UnpackNext(value, bytes[i..], shift, w);
        if shift > w {
          return Err(UnpackOverflow);
        }
        if bytes[i] < BYTE_SLICE_VALUE {
          value := (value + (bytes[i] * Pow2(shift)) % Pow2(w)) % Pow2(w);
          return Ok(value);
        }
        var slice := ((bytes[i] - 128) * Pow2(shift)) % Pow2(w);
        value := (value + slice) % Pow2(w);
        shift := shift + PACK_BYTE_SHIFT;
      }
      SmallMod(value, Pow2(w));
      r := Ok(value);
    }

    // The bytes of a long block.
    method ReadVarint() returns (r: Result<seq<byte>, DecodeError>)
      requires index <= |content|
      modifies `index
      ensures index <= |content|
      ensures match TakeVarint(content[old(index)..])
              case None => r == Err(DataIndexFailure)
              case Some(bs) => r == Ok(bs) && index == old(index) + 8 * |bs|
    {
      var bytes: seq<byte> := [];
      ghost var start := index;
      while true
        invariant start <= index <= |content| && index == start + 8 * |bytes|
        invariant TakeVarint(content[start..]) ==
                  Prepended(bytes, TakeVarint(content[index..]))
        decreases |content| - index
      {
        ghost var here := index;
        var slice := GetSpan(BYTE_BITS_COUNT);
        if slice.Err? {
          return Err(slice.error);
        }
        assert content[here..][..8] == content[here..index];
        assert content[here..][8..] == content[index..];
        ValueBound(content[here..index]);
        Pow2Small();
        ghost var rest := TakeVarint(content[index..]);
        if rest.Some? {
          Associative(bytes, [slice.value], rest.value);
        }
        bytes := bytes + [slice.value];
        if slice.value < BYTE_SLICE_VALUE {
          return Ok(bytes);
        }
      }
    }

    method DecodeSingleBlock(value: nat, output: set<nat>, w: nat) returns (value': nat, output': set<nat>)
      requires value < Pow2(w)
      modifies `magnitude
      ensures magnitude == !old(magnitude) && value' == (value + 1) % Pow2(w)
      ensures output' == Covered(old(magnitude), value, 1, output, w)
    {
      output' := output;
      if magnitude {
        SmallMod(value, Pow2(w));
        assert Run(value, 1, w) == Run(value, 0, w) + {value};
        output' := output + {value};
      }
      magnitude := !magnitude;
      value' := (value + 1) % Pow2(w);
    }

    method DecodeSmallBlock(value: nat, output: set<nat>, w: nat) returns (r: Result<(nat, set<nat>), DecodeError>)
      requires value < Pow2(w) && index <= |content|
      modifies this
      ensures |content| < old(index) + SMALL_BLOCK_LENGTH ==> r == Err(DataIndexFailure)
      ensures |content| >= old(index) + SMALL_BLOCK_LENGTH ==>
                index == old(index) + SMALL_BLOCK_LENGTH && magnitude == !old(magnitude) &&
                var n := ValueOf(content[old(index)..index]);
                r == Ok(((value + n) % Pow2(w), Covered(old(magnitude), value, n, output, w)))
    {
      var length := GetSpan(SMALL_BLOCK_LENGTH);
      if length.Err? {
        return Err(length.error);
      }
      var value', output' := DecodeRun(value, output, length.value, w);
      r := Ok((value', output'));
    }

    method DecodeLongBlock(value: nat, output: set<nat>, w: nat) returns (r: Result<(nat, set<nat>), DecodeError>)
      requires value < Pow2(w) && index <= |content|
      modifies this
      ensures match TakeVarint(content[old(index)..])
              case None => r == Err(DataIndexFailure)
              case Some(bs) =>
                match Unpack(bs, 0, w)
                case Err(e) => r == Err(e)
                case Ok(n) =>
                  index == old(index) + 8 * |bs| && magnitude == !old(magnitude) &&
                  r == Ok(((value + n) % Pow2(w), Covered(old(magnitude), value, n, output, w)))
    {
      var bytes := ReadVarint();
      if bytes.Err? {
        return Err(bytes.error);
      }
      var length := UnpackBytes(bytes.value, w);
      if length.Err? {
        return Err(length.error);
      }
      var value', output' := DecodeRun(value, output, length.value, w);
      r := Ok((value', output'));
    }

    // Behind a first bit 0: the second bit tells a long block from a small one.
    method DecodeLength(value: nat, output: set<nat>, w: nat) returns (r: Result<(nat, set<nat>), DecodeError>)
      requires value < Pow2(w) && 0 < index <= |content| && !content[index - 1]
      modifies this
      ensures match ReadBlock(content[old(index) - 1..], w)
              case Err(e) => r == Err(e)
              case Ok((k, n)) =>
                index == old(index) - 1 + k && magnitude == !old(magnitude) &&
                r == Ok(((value + n) % Pow2(w), Covered(old(magnitude), value, n, output, w)))
    {
      ghost var bits := content[index - 1..];
      var kind := GetSpan(1);
      if kind.Err? {
        return Err(kind.error);
      }
      OneBit(bits[1]);
      assert content[index - 1..index] == [bits[1]];
      if kind == Ok(0) {
        assert content[index..] == bits[2..];
        r := DecodeLongBlock(value, output, w);
      } else {
        assert index + 4 <= |content| ==> content[index..index + 4] == bits[2..6];
        r := DecodeSmallBlock(value, output, w);
      }
    }

    // One turn of the loop over the blocks.
    method DecodeBlock(value: nat, output: set<nat>, w: nat) returns (r: Result<(nat, set<nat>), DecodeError>)
      requires value < Pow2(w) && index <= |content|
      modifies this
      ensures match ReadBlock(content[old(index)..], w)
              case Err(e) => r == Err(e)
              case Ok((k, n)) =>
                index == old(index) + k && magnitude == !old(magnitude) &&
                r == Ok(((value + n) % Pow2(w), Covered(old(magnitude), value, n, output, w)))
    {
      var header := GetSpan(1);
      if header.Err? {
        return Err(header.error);
      }
      OneBit(content[index - 1]);
      assert content[index - 1..index] == [content[index - 1]];
      if header == Ok(1) {
        var value', output' := DecodeSingleBlock(value, output, w);
        return Ok((value', output'));
      }
      r := DecodeLength(value, output, w);
    }

    // Version and the magnitude of the first run.
    method ReadHeader() returns (ok: bool)
      requires index == 0
      modifies this
      ensures ok == (|content| >= SMALL_BLOCK_LENGTH && ValueOf(content[..2]) == 0)
      ensures ok ==> index == 3 && magnitude == content[2]
    {
      if |content| < SMALL_BLOCK_LENGTH {
        return false;
      }
      var version := GetSpan(2);
      assert content[0..2] == content[..2];
      if version != Ok(0) {
        return false;
      }
      var flag := GetSpan(1);
      OneBit(content[2]);
      assert content[2..3] == [content[2]];
      magnitude := flag == Ok(1);
      ok := true;
    }

    // The loop over the blocks.
    method DecodeAll(w: nat) returns (r: Result<set<nat>, DecodeError>)
      requires index <= |content|
      modifies this
      ensures r == old(DecodeBlocks(content[index..], magnitude, 0, {}, w))
    {
      var value: nat, output: set<nat> := 0, {};
      while true
        invariant index <= |content| && value < Pow2(w)
        invariant old(DecodeBlocks(content[index..], magnitude, 0, {}, w)) ==
                  DecodeBlocks(content[index..], magnitude, value, output, w)
        decreases |content| - index
      {
        var more := AnyBitLeft();
        if !more {
          return Ok(output);
        }
        ghost var bits, here := content[index..], index;
        var next := DecodeBlock(value, output, w);
        if next.Err? {
          return Err(next.error);
        }
        assert content[index..] == bits[index - here..];
        value, output := next.value.0, next.value.1;
      }
    }

    method Get(w: nat) returns (r: Result<set<nat>, DecodeError>)
      requires IsWordWidth(w) && index == 0
      modifies this
      ensures r == DecodedBits(content, w)
    {
      var ok := ReadHeader();
      if !ok {
        return Err(VersionMismatch);
      }
      r := DecodeAll(w);
      if r.Ok? && |r.value| > MaxElements(w) {
        r := Err(MaxSizeExceed);
      }
    }
  }

  lemma OneBit(b: bool)
    ensures ValueOf([b]) == if b then 1 else 0
  {
    assert ValueOf([b]) == (if b then 1 else 0) + 2 * ValueOf([]);
  }

  function Prepended(a: seq<byte>, r: Option<seq<byte>>): (p: Option<seq<byte>>)
    ensures a == [] ==> p == r
  {
    match r
    case None => None
    case Some(b) =>
      assert a == [] ==> a + b == b;
      Some(a + b)
  }

  function Added(v: nat, r: Result<nat, DecodeError>, w: nat): Result<nat, DecodeError> {
    match r
    case Err(e) => Err(e)
    case Ok(n) => Ok((v + n) % Pow2(w))
  }

  lemma AddedTwice(a: nat, b: nat, r: Result<nat, DecodeError>, w: nat)
    ensures Added(a, Added(b, r, w), w) == Added((a + b) % Pow2(w), r, w)
  {
    if r.Ok? {
      AddMod(a, b, r.value, w);
    }
  }

  // What one byte adds to the number gathered so far.
  lemma UnpackNext(value: nat, bs: seq<byte>, shift: nat, w: nat)
    requires bs != []
    ensures var r := Added(value, Unpack(bs, shift, w), w);
            if shift > w then r == Err(UnpackOverflow)
            else if bs[0] < BYTE_SLICE_VALUE then r == Ok((value + (bs[0] * Pow2(shift)) % Pow2(w)) % Pow2(w))
            else
              var slice := ((bs[0] - 128) * Pow2(shift)) % Pow2(w);
              r == Added((value + slice) % Pow2(w), Unpack(bs[1..], shift + 7, w), w)
  {
    if shift <= w && bs[0] >= BYTE_SLICE_VALUE {
      AddedTwice(value, ((bs[0] - 128) * Pow2(shift)) % Pow2(w), Unpack(bs[1..], shift + 7, w), w);
    }
  }

  lemma UnpackInT(bs: seq<byte>, shift: nat, w: nat)
    ensures Unpack(bs, shift, w) == Added(0, Unpack(bs, shift, w), w)
  {
    var r := Unpack(bs, shift, w);
    if r.Ok? {
      SmallMod(r.value, Pow2(w));
    }
  }

  lemma SmallMod(x: nat, m: nat)
    requires x < m
    ensures x % m == x
  {
    QuotientIs(x, m, 0, x);
  }

  lemma AddMod(a: nat, b: nat, c: nat, w: nat)
    ensures (a + (b + c) % Pow2(w)) % Pow2(w) == ((a + b) % Pow2(w) + c) % Pow2(w)
  {
    ModAbsorb(a, b + c, a + b + c, Pow2(w));
    ModAbsorb(c, a + b, a + b + c, Pow2(w));
  }

  lemma ModAbsorb(a: nat, b: nat, sum: nat, m: nat)
    requires m > 0 && sum == a + b
    ensures (a + b % m) % m == sum % m
  {
    var q, y := DivMod(b, m);
    var p, x := DivMod(a + y, m);
    assert m * (p + q) == m * p + m * q;
    QuotientIs(sum, m, p + q, x);
  }

  lemma ModStep(n: nat, w: nat)
    ensures (n % Pow2(w) + 1) % Pow2(w) == (n + 1) % Pow2(w)
  {
    ModAbsorb(1, n, n + 1, Pow2(w));
  }
}
