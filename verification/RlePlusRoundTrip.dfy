// RLE+ encoding is undone by decoding, for every set but the one holding all of T.

module RlePlusRoundTrip {
  import opened Basics
  import opened Bits
  import opened RlePlus

  function Sum(periods: seq<nat>): nat {
    if periods == [] then 0 else periods[0] + Sum(periods[1..])
  }

  // Is x in a present run, when the first run starts at v with magnitude `mag`?
  predicate Holds(periods: seq<nat>, mag: bool, v: nat, x: nat) {
    periods != [] && ((mag && v <= x < v + periods[0]) || Holds(periods[1..], !mag, v + periods[0], x))
  }

  // The magnitude of the run behind `periods`.
  predicate MagnitudeAfter(periods: seq<nat>, mag: bool) {
    if |periods| % 2 == 0 then mag else !mag
  }

  lemma {:induction false} SumSnoc(periods: seq<nat>, n: nat)
    ensures Sum(periods + [n]) == Sum(periods) + n
  {
    if periods != [] {
      assert (periods + [n])[1..] == periods[1..] + [n];
      SumSnoc(periods[1..], n);
    }
  }

  lemma {:induction false} HoldsSnoc(periods: seq<nat>, n: nat, mag: bool, v: nat, x: nat)
    ensures Holds(periods + [n], mag, v, x) <==>
              Holds(periods, mag, v, x) ||
              (MagnitudeAfter(periods, mag) && v + Sum(periods) <= x < v + Sum(periods) + n)
  {
    if periods == [] {
      assert [] + [n] == [n];
    } else {
      assert (periods + [n])[1..] == periods[1..] + [n];
      HoldsSnoc(periods[1..], n, !mag, v + periods[0], x);
    }
  }

  // ---------------------------------------------------------------- run lengths

  lemma {:induction false} AscendingAbove(s: seq<nat>, w: nat, i: nat)
    requires IsSetOf(s, w) && i < |s|
    ensures s[i] >= i
  {
    if i > 0 {
      AscendingAbove(s, w, i - 1);
    }
  }

  lemma {:induction false} AscendingBelow(s: seq<nat>, w: nat, i: nat)
    requires IsSetOf(s, w) && i < |s|
    ensures s[i] + (|s| - i) <= Pow2(w)
    decreases |s| - i
  {
    if i + 1 < |s| {
      AscendingBelow(s, w, i + 1);
    }
  }

  predicate StartsPresent(s: seq<nat>) {
    s != [] && s[0] == 0
  }

  // What the run lengths of a non-empty set say: no run is empty, none fills T, the last
  // one is present and ends at the largest element, and the present runs are the set.
  ghost predicate Describes(p: seq<nat>, s: seq<nat>, w: nat)
    requires s != []
  {
    p != [] && (forall i | 0 <= i < |p| :: 1 <= p[i] < Pow2(w)) &&
    p[|p| - 1] <= |s| && Sum(p) == s[|s| - 1] + 1 && !MagnitudeAfter(p, StartsPresent(s)) &&
    forall x: nat :: Holds(p, StartsPresent(s), 0, x) <==> x in s
  }

  lemma FirstPeriods(s: seq<nat>, w: nat)
    requires |s| == 1 && s[0] < Pow2(w) && 1 < Pow2(w)
    ensures Describes(Periods(s, w), s, w)
  {
    var v := s[0];
    if v == 0 {
      assert Periods(s, w) == [1];
    } else {
      assert Periods(s, w) == [v] + [1];
      SumSnoc([v], 1);
      forall x: nat ensures Holds([v] + [1], false, 0, x) <==> x in s {
        HoldsSnoc([v], 1, false, 0, x);
        assert Holds([v], false, 0, x) == Holds([], true, v, x);
      }
    }
  }

  // The next element directly follows: the last run grows.
  lemma GrowLast(p: seq<nat>, s: seq<nat>, d: nat, w: nat)
    requires s != [] && Describes(p, s, w) && |s| + 1 < Pow2(w)
    requires d == s[|s| - 1] + 1
    ensures Describes(p[|p| - 1 := p[|p| - 1] + 1], s + [d], w)
  {
    var q, n := p[..|p| - 1], p[|p| - 1];
    assert p == q + [n] && p[|p| - 1 := n + 1] == q + [n + 1];
    SumSnoc(q, n);
    SumSnoc(q, n + 1);
    forall x: nat
      ensures Holds(q + [n + 1], StartsPresent(s + [d]), 0, x) <==> x in s + [d]
    {
      HoldsSnoc(q, n, StartsPresent(s), 0, x);
      HoldsSnoc(q, n + 1, StartsPresent(s), 0, x);
    }
  }

  // The next element leaves a gap: an absent and a present run are added.
  lemma AddRuns(p: seq<nat>, s: seq<nat>, d: nat, w: nat)
    requires s != [] && Describes(p, s, w) && s[|s| - 1] + 1 < d < Pow2(w)
    ensures Describes(p + [d - s[|s| - 1] - 1, 1], s + [d], w)
  {
    var gap := d - s[|s| - 1] - 1;
    assert p + [gap, 1] == (p + [gap]) + [1];
    SumSnoc(p, gap);
    SumSnoc(p + [gap], 1);
    forall x: nat
      ensures Holds(p + [gap] + [1], StartsPresent(s + [d]), 0, x) <==> x in s + [d]
    {
      HoldsSnoc(p, gap, StartsPresent(s), 0, x);
      HoldsSnoc(p + [gap], 1, StartsPresent(s), 0, x);
    }
  }

  lemma PrefixIsSet(s: seq<nat>, w: nat, n: nat)
    requires IsSetOf(s, w) && n < |s|
    ensures IsSetOf(s[..n], w)
  {
  }

  lemma PeriodsStep(s: seq<nat>, w: nat, n: nat)
    requires IsSetOf(s, w) && |s| == n + 1 >= 2 && IsSetOf(s[..n], w)
    ensures var p, gap := Periods(s[..n], w), s[n] - s[n - 1];
            p != [] && gap > 0 &&
            Periods(s, w) == if gap == 1 then p[|p| - 1 := (p[|p| - 1] + 1) % Pow2(w)] else p + [gap - 1, 1]
  {
  }

  // What the next element does to run lengths that describe a set.
  lemma DescribeNext(p: seq<nat>, s: seq<nat>, n: nat, w: nat, q: seq<nat>)
    requires |s| == n + 1 >= 2 && |s| < Pow2(w) && s[n - 1] < s[n] < Pow2(w) && Describes(p, s[..n], w)
    requires var gap := s[n] - s[n - 1];
             q == if gap == 1 then p[|p| - 1 := (p[|p| - 1] + 1) % Pow2(w)] else p + [gap - 1, 1]
    ensures Describes(q, s, w)
  {
    var t, d := s[..n], s[n];
    assert s == t + [d];
    if d == t[|t| - 1] + 1 {
      SmallMod(p[|p| - 1] + 1, Pow2(w));
      GrowLast(p, t, d, w);
    } else {
      AddRuns(p, t, d, w);
    }
  }

  lemma {:induction false} PeriodsDescribe(s: seq<nat>, w: nat)
    requires IsSetOf(s, w) && 0 < |s| < Pow2(w)
    ensures Describes(Periods(s, w), s, w)
    decreases |s|
  {
    if |s| == 1 {
      FirstPeriods(s, w);
    } else {
      var n := |s| - 1;
      PrefixIsSet(s, w, n);
      PeriodsDescribe(s[..n], w);
      PeriodsStep(s, w, n);
      DescribeNext(Periods(s[..n], w), s, n, w, Periods(s, w));
    }
  }

  // ---------------------------------------------------------------- long blocks

  lemma {:induction false} TakeVarintInverts(v: nat, rest: seq<bool>)
    ensures TakeVarint(FromBytes(Varint(v)) + rest) == Some(Varint(v))
    ensures |FromBytes(Varint(v))| == 8 * |Varint(v)|
    decreases v
  {
    var bs := Varint(v);
    var head, tail := BitsOf(bs[0], 8), FromBytes(bs[1..]);
    Pow2Small();
    BitsRoundTrip(bs[0], 8);
    Associative(head, tail, rest);
    assert (head + (tail + rest))[..8] == head;
    assert (head + (tail + rest))[8..] == tail + rest;
    if v >= BYTE_SLICE_VALUE {
      assert bs[1..] == Varint(v / 128);
      TakeVarintInverts(v / 128, rest);
    }
  }

  // The number shifted up to where its seven-bit groups are put.
  lemma {:induction false} UnpackInverts(v: nat, shift: nat, w: nat)
    requires v * Pow2(shift) < Pow2(w) && shift <= w
    ensures Unpack(Varint(v), shift, w) == Ok(v * Pow2(shift))
    decreases v
  {
    if v < BYTE_SLICE_VALUE {
      SmallMod(v * Pow2(shift), Pow2(w));
    } else {
      var low, high := v % 128, v / 128;
      ShiftNext(shift);
      SplitShift(v, Pow2(shift));
      ShiftBound(high, shift + 7, w);
      UnpackInverts(high, shift + 7, w);
      assert Varint(v)[1..] == Varint(high);
      UnpackStep(Varint(v), low * Pow2(shift), high * Pow2(shift + 7), shift, w);
    }
  }

  lemma ShiftNext(shift: nat)
    ensures Pow2(shift + 7) == Pow2(shift) * 128
  {
    Pow2Add(shift, 7);
    Pow2Small();
  }

  lemma UnpackStep(bs: seq<byte>, a: nat, b: nat, shift: nat, w: nat)
    requires bs != [] && shift <= w && bs[0] >= BYTE_SLICE_VALUE && (bs[0] - 128) * Pow2(shift) == a
    requires Unpack(bs[1..], shift + 7, w) == Ok(b) && a + b < Pow2(w)
    ensures Unpack(bs, shift, w) == Ok(a + b)
  {
    SmallMod(a, Pow2(w));
    SmallMod(a + b, Pow2(w));
  }

  lemma SplitShift(v: nat, p: nat)
    ensures v * p == (v % 128) * p + (v / 128) * (p * 128)
    ensures (v % 128) * p <= v * p && (v / 128) * (p * 128) <= v * p
  {
    var low, high := v % 128, v / 128;
    assert v == high * 128 + low;
    assert (high * 128) * p == high * (p * 128);
    assert (high * 128 + low) * p == (high * 128) * p + low * p;
  }

  lemma ShiftBound(v: nat, shift: nat, w: nat)
    requires v > 0 && v * Pow2(shift) < Pow2(w)
    ensures shift <= w
  {
    var p := Pow2(shift);
    assert v * p == (v - 1) * p + p;
    if shift > w {
      Pow2Monotone(w, shift);
    }
  }

  // ---------------------------------------------------------------- blocks

  // Every block holds a set bit, so the decoder does not stop before it.
  lemma BlockIsSeen(n: nat, rest: seq<bool>)
    ensures AnySet(Block(n) + rest)
  {
    var b := Block(n);
    if n == 1 {
      assert (b + rest)[0];
    } else if n < LONG_BLOCK_VALUE {
      assert (b + rest)[1];
    } else {
      var first := BitsOf(Varint(n)[0], 8);
      Pow2Small();
      BitsRoundTrip(Varint(n)[0], 8);
      ZeroIffNoneSet(first);
      var k :| 0 <= k < 8 && first[k];
      assert (b + rest)[2 + k];
    }
  }

  lemma UnpackWhole(n: nat, w: nat)
    requires n < Pow2(w)
    ensures Unpack(Varint(n), 0, w) == Ok(n)
  {
    assert Pow2(0) == 1 && n * 1 == n;
    UnpackInverts(n, 0, w);
  }

  lemma ReadLong(n: nat, rest: seq<bool>, w: nat)
    requires LONG_BLOCK_VALUE <= n < Pow2(w)
    ensures ReadBlock(Block(n) + rest, w) == Ok((|Block(n)|, n))
  {
    var bits, body := Block(n) + rest, FromBytes(Varint(n));
    Associative([false, false], body, rest);
    assert bits[2..] == body + rest && !bits[0] && !bits[1];
    TakeVarintInverts(n, rest);
    UnpackWhole(n, w);
  }

  lemma ReadSmall(n: nat, rest: seq<bool>, w: nat)
    requires n < LONG_BLOCK_VALUE
    ensures ReadBlock(Block(n) + rest, w) == Ok((|Block(n)|, n))
  {
    Pow2Small();
    BitsRoundTrip(n, 4);
    var bits := Block(n) + rest;
    assert n != 1 ==> bits[2..6] == BitsOf(n, 4);
  }

  lemma DecodeBlock(n: nat, rest: seq<bool>, mag: bool, v: nat, out: set<nat>, w: nat)
    requires n < Pow2(w)
    ensures DecodeBlocks(Block(n) + rest, mag, v, out, w) ==
            DecodeBlocks(rest, !mag, (v + n) % Pow2(w), RlePlus.Covered(mag, v, n, out, w), w)
  {
    BlockIsSeen(n, rest);
    if n < LONG_BLOCK_VALUE {
      ReadSmall(n, rest, w);
    } else {
      ReadLong(n, rest, w);
    }
    assert (Block(n) + rest)[|Block(n)|..] == rest;
  }

  // A run that does not pass the end of T is an interval.
  lemma {:induction false} RunIsInterval(v: nat, n: nat, w: nat)
    requires v + n <= Pow2(w)
    ensures forall x: nat :: x in Run(v, n, w) <==> v <= x < v + n
  {
    if n > 0 {
      RunIsInterval(v, n - 1, w);
      SmallMod(v + n - 1, Pow2(w));
    }
  }

  // The numbers of the present runs on top of `out`.
  function Present(p: seq<nat>, mag: bool, v: nat, out: set<nat>, w: nat): set<nat>
    decreases |p|
  {
    if p == [] then out
    else Present(p[1..], !mag, v + p[0], RlePlus.Covered(mag, v, p[0], out, w), w)
  }

  lemma {:induction false} PresentHolds(p: seq<nat>, mag: bool, v: nat, out: set<nat>, w: nat, x: nat)
    requires v + Sum(p) <= Pow2(w)
    ensures x in Present(p, mag, v, out, w) <==> x in out || Holds(p, mag, v, x)
    decreases |p|
  {
    if p != [] {
      RunIsInterval(v, p[0], w);
      PresentHolds(p[1..], !mag, v + p[0], RlePlus.Covered(mag, v, p[0], out, w), w, x);
    }
  }

  lemma DecodeFirstBlock(p: seq<nat>, pad: nat, mag: bool, v: nat, out: set<nat>, w: nat)
    requires p != [] && 0 < p[0] < Pow2(w) && v < Pow2(w)
    ensures DecodeBlocks(Blocks(p) + Zeros(pad), mag, v % Pow2(w), out, w) ==
            DecodeBlocks(Blocks(p[1..]) + Zeros(pad), !mag, (v + p[0]) % Pow2(w),
                         RlePlus.Covered(mag, v, p[0], out, w), w)
  {
    SmallMod(v, Pow2(w));
    Associative(Block(p[0]), Blocks(p[1..]), Zeros(pad));
    DecodeBlock(p[0], Blocks(p[1..]) + Zeros(pad), mag, v, out, w);
  }

  // Reading all blocks and the zero bits behind them: exactly the present runs.
  lemma {:induction false} DecodeAllBlocks(p: seq<nat>, pad: nat, mag: bool, v: nat, out: set<nat>, w: nat)
    requires forall i | 0 <= i < |p| :: 1 <= p[i] < Pow2(w)
    requires v + Sum(p) <= Pow2(w)
    ensures DecodeBlocks(Blocks(p) + Zeros(pad), mag, v % Pow2(w), out, w) == Ok(Present(p, mag, v, out, w))
    decreases |p|
  {
    if p == [] {
      assert Blocks(p) + Zeros(pad) == Zeros(pad);
    } else {
      var n, tail := p[0], p[1..];
      DecodeFirstBlock(p, pad, mag, v, out, w);
      DecodeAllBlocks(tail, pad, !mag, v + n, RlePlus.Covered(mag, v, n, out, w), w);
    }
  }

  // ---------------------------------------------------------------- round trip

  lemma DecodedHeader(flag: bool, body: seq<bool>, w: nat)
    requires IsWordWidth(w) && |body| >= 5
    ensures DecodedBits([false, false, flag] + body, w) == Checked(DecodeBlocks(body, flag, 0, {}, w), w)
  {
    var all := [false, false, flag] + body;
    ZeroIffNoneSet([false, false]);
    assert all[..2] == [false, false] && all[2] == flag && all[3..] == body;
  }

  // Decoding an encoding without the size check.
  lemma DecodeEncodedBits(s: seq<nat>, w: nat) returns (pad: nat)
    requires IsWordWidth(w) && IsSetOf(s, w)
    ensures Decoded(Encoded(s, w), w) ==
            Checked(DecodeBlocks(Blocks(Periods(s, w)) + Zeros(pad), StartsPresent(s), 0, {}, w), w)
  {
    var header, blocks := [false, false, StartsPresent(s)], Blocks(Periods(s, w));
    pad := BytesRoundTrip(header + blocks);
    Associative(header, blocks, Zeros(pad));
    DecodedHeader(StartsPresent(s), blocks + Zeros(pad), w);
  }

  lemma {:induction false} ElementsCount(s: seq<nat>)
    requires forall i, j | 0 <= i < j < |s| :: s[i] < s[j]
    ensures |Elements(s)| == |s|
  {
    if s != [] {
      var n := |s| - 1;
      ElementsCount(s[..n]);
      assert Elements(s) == Elements(s[..n]) + {s[n]};
    }
  }

  // What a decoder should deliver for an encoded set.
  ghost function Expected(s: seq<nat>, w: nat): Result<set<nat>, DecodeError>
    requires IsWordWidth(w)
  {
    if |s| <= MaxElements(w) then Ok(Elements(s)) else Err(MaxSizeExceed)
  }

  lemma PresentIsElements(p: seq<nat>, s: seq<nat>, w: nat)
    requires s != [] && Describes(p, s, w) && Sum(p) <= Pow2(w)
    ensures Present(p, StartsPresent(s), 0, {}, w) == Elements(s)
  {
    var r := Present(p, StartsPresent(s), 0, {}, w);
    forall x: nat ensures x in r <==> x in Elements(s) {
      PresentHolds(p, StartsPresent(s), 0, {}, w, x);
    }
    assert r == Elements(s);
  }

  lemma DecodePeriods(s: seq<nat>, w: nat, pad: nat)
    requires IsSetOf(s, w) && |s| < Pow2(w)
    ensures DecodeBlocks(Blocks(Periods(s, w)) + Zeros(pad), StartsPresent(s), 0, {}, w) == Ok(Elements(s))
  {
    SmallMod(0, Pow2(w));
    if s == [] {
      DecodeAllBlocks([], pad, false, 0, {}, w);
      assert Elements(s) == {};
    } else {
      PeriodsDescribe(s, w);
      AscendingBelow(s, w, |s| - 1);
      DecodeAllBlocks(Periods(s, w), pad, StartsPresent(s), 0, {}, w);
      PresentIsElements(Periods(s, w), s, w);
    }
  }

  lemma RoundTrip(s: seq<nat>, w: nat)
    requires IsWordWidth(w) && IsSetOf(s, w) && |s| < Pow2(w)
    ensures Decoded(Encoded(s, w), w) == Expected(s, w)
  {
    var pad := DecodeEncodedBits(s, w);
    DecodePeriods(s, w, pad);
    ElementsCount(s);
  }

  // ---------------------------------------------------------------- the full set

  // Of all of T, the growing run counts up to 2^w and wraps to 0.
  lemma {:induction false} FullPeriods(s: seq<nat>, w: nat, n: nat)
    requires IsSetOf(s, w) && |s| == Pow2(w) && 0 < n <= |s| && 1 < Pow2(w)
    ensures Periods(s[..n], w) == [n % Pow2(w)]
  {
    AscendingAbove(s, w, n - 1);
    AscendingBelow(s, w, n - 1);
    if n == 1 {
      SmallMod(1, Pow2(w));
    } else {
      FullPeriods(s, w, n - 1);
      SmallMod(n - 1, Pow2(w));
      AscendingAbove(s, w, n - 2);
      AscendingBelow(s, w, n - 2);
      assert s[..n][..n - 1] == s[..n - 1];
    }
  }

  // A run of length zero gives the empty set.
  lemma DecodeEmptyRun(pad: nat, w: nat)
    ensures DecodeBlocks(Blocks([0]) + Zeros(pad), true, 0, {}, w) == Ok({})
  {
    assert Blocks([0]) == Block(0) + [];
    Associative(Block(0), [], Zeros(pad));
    assert [] + Zeros(pad) == Zeros(pad);
    DecodeBlock(0, Zeros(pad), true, 0, {}, w);
    assert RlePlus.Covered(true, 0, 0, {}, w) == {};
  }

  lemma FullSetIsLost(s: seq<nat>, w: nat)
    requires IsWordWidth(w) && IsSetOf(s, w) && |s| == Pow2(w)
    ensures Decoded(Encoded(s, w), w) == Ok({})
  {
    SomeBits(w);
    var pad := DecodeEncodedBits(s, w);
    FullPeriods(s, w, |s|);
    assert s[..|s|] == s;
    AscendingBelow(s, w, 0);
    ModSelf(Pow2(w));
    DecodeEmptyRun(pad, w);
  }

  lemma SomeBits(w: nat)
    requires IsWordWidth(w)
    ensures Pow2(w) > 1
  {
    Pow2Small();
    Pow2Monotone(8, w);
  }

  lemma ModSelf(m: nat)
    requires m > 0
    ensures m % m == 0
  {
  }

  lemma SizeBound(s: seq<nat>, w: nat)
    requires IsSetOf(s, w)
    ensures |s| <= Pow2(w)
  {
    if s != [] {
      AscendingBelow(s, w, 0);
    }
  }

  lemma FullSetFails(s: seq<nat>, w: nat)
    requires IsWordWidth(w) && IsSetOf(s, w) && |s| == Pow2(w)
    ensures Decoded(Encoded(s, w), w) != Expected(s, w)
  {
    FullSetIsLost(s, w);
    ElementsCount(s);
  }

  // The codec's law, and the one set for which it fails.
  lemma RoundTripIff(s: seq<nat>, w: nat)
    requires IsWordWidth(w) && IsSetOf(s, w)
    ensures Decoded(Encoded(s, w), w) == Expected(s, w) <==> |s| != Pow2(w)
  {
    SizeBound(s, w);
    if |s| == Pow2(w) {
      FullSetFails(s, w);
    } else {
      RoundTrip(s, w);
    }
  }

  // The codec as its callers use it: a stream object on either side.
  method EncodeThenDecode(s: seq<nat>, w: nat) returns (r: Result<set<nat>, DecodeError>)
    requires IsWordWidth(w) && IsSetOf(s, w)
    ensures |s| != Pow2(w) <==> r == Expected(s, w)
  {
    var encoder := new RLEPlusEncodingStream();
    encoder.Put(s, w);
    var bytes := encoder.Data();
    var decoder := new RLEPlusDecodingStream(bytes);
    r := decoder.Get(w);
    RoundTripIff(s, w);
  }
}
