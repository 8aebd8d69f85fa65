// The wire form of RLE+: which bits stand for a run, and that no shorter ones do. The round
// trip alone would hold for any choice of blocks that the decoder can read.

module RlePlusForm {
  import opened Basics
  import opened Bits
  import opened RlePlus
  import opened RlePlusRoundTrip

  // A run of one is the bit 1. A shorter run than 16 is 01 and four bits, any other 00 and
  // the bytes of a varint, all with the lowest bit first.
  lemma BlockForm(n: nat)
    ensures n == 1 ==> Block(n) == [true]
    ensures n != 1 && n < 16 ==>
              |Block(n)| == 6 && !Block(n)[0] && Block(n)[1] && ValueOf(Block(n)[2..]) == n
    ensures n >= 16 ==>
              |Block(n)| == 2 + 8 * |Varint(n)| && !Block(n)[0] && !Block(n)[1] &&
              Block(n)[2..] == FromBytes(Varint(n))
  {
    if n < 16 {
      Pow2Small();
      BitsRoundTrip(n, 4);
      assert n != 1 ==> Block(n)[2..] == BitsOf(n, 4);
    } else {
      TakeVarintInverts(n, []);
      assert Block(n)[2..] == FromBytes(Varint(n));
    }
  }

  // A number unpacked from k bytes has at most 7k bits.
  lemma {:induction false} UnpackBound(bs: seq<byte>, shift: nat, w: nat)
    requires Unpack(bs, shift, w).Ok?
    ensures Unpack(bs, shift, w).value + Pow2(shift) <= Pow2(shift + 7 * |bs|)
    decreases |bs|
  {
    if bs != [] {
      ShiftNext(shift);
      if bs[0] < 128 {
        LowByteBound(bs[0], Pow2(shift), Pow2(w));
        Pow2Monotone(shift + 7, shift + 7 * |bs|);
      } else {
        UnpackBound(bs[1..], shift + 7, w);
        LowByteBound(bs[0] - 128, Pow2(shift), Pow2(w));
        var slice := ((bs[0] - 128) * Pow2(shift)) % Pow2(w);
        ModBound(slice + Unpack(bs[1..], shift + 7, w).value, Pow2(w));
      }
    }
  }

  lemma LowByteBound(b: nat, p: nat, m: nat)
    requires b < 128 && m > 0
    ensures (b * p) % m + p <= p * 128
  {
    ModBound(b * p, m);
    assert (127 - b) * p >= 0;
    assert b * p + (127 - b) * p == 127 * p;
  }

  lemma ModBound(x: nat, m: nat)
    requires m > 0
    ensures x % m <= x
  {
    var q, r := DivMod(x, m);
    assert m * q >= 0;
  }

  // The encoder writes the shortest block there is for a run.
  lemma BlockIsShortest(bits: seq<bool>, w: nat)
    requires ReadBlock(bits, w).Ok?
    ensures |Block(ReadBlock(bits, w).value.1)| <= ReadBlock(bits, w).value.0
  {
    var (k, n) := ReadBlock(bits, w).value;
    BlockForm(n);
    if bits[0] || bits[1] {
      Pow2Small();
      if !bits[0] {
        ValueBound(bits[2..6]);
      }
    } else {
      var bs := TakeVarint(bits[2..]).value;
      UnpackBound(bs, 0, w);
      VarintIsShort(n, |bs|);
    }
  }

  // Any other blocks for the same runs take at least as many bits.
  lemma {:induction false} BlocksAreShortest(blocks: seq<seq<bool>>, periods: seq<nat>, w: nat)
    requires |blocks| == |periods|
    requires forall i | 0 <= i < |blocks| :: ReadBlock(blocks[i], w) == Ok((|blocks[i]|, periods[i]))
    ensures |Blocks(periods)| <= |Flatten(blocks)|
  {
    if blocks != [] {
      BlockIsShortest(blocks[0], w);
      BlocksAreShortest(blocks[1..], periods[1..], w);
    }
  }

  // The bits written for a set: version 0, whether the first run is present, and the blocks
  // of its runs, in as few bits as any blocks for these runs take.
  lemma EncodingForm(s: seq<nat>, w: nat, blocks: seq<seq<bool>>)
    requires IsSetOf(s, w) && |blocks| == |Periods(s, w)|
    requires forall i | 0 <= i < |blocks| :: ReadBlock(blocks[i], w) == Ok((|blocks[i]|, Periods(s, w)[i]))
    ensures |EncodedBits(s, w)| >= 3 && EncodedBits(s, w)[..3] == [false, false, 0 in s]
    ensures |EncodedBits(s, w)| <= 3 + |Flatten(blocks)|
  {
    BlocksAreShortest(blocks, Periods(s, w), w);
    if 0 in s {
      var i :| 0 <= i < |s| && s[i] == 0;
      assert i > 0 ==> s[0] < s[i];
    }
  }

  // ------------------------------------------------------------------ what is refused

  // The bytes of a varint overflow T exactly if a byte is to be shifted by more than w.
  lemma {:induction false} UnpackOverflowIff(bs: seq<byte>, shift: nat, w: nat)
    requires bs != [] && bs[|bs| - 1] < 128 && forall i | 0 <= i < |bs| - 1 :: bs[i] >= 128
    ensures Unpack(bs, shift, w) == Err(UnpackOverflow) <==> shift + 7 * (|bs| - 1) > w
    ensures Unpack(bs, shift, w).Err? ==> Unpack(bs, shift, w) == Err(UnpackOverflow)
    decreases |bs|
  {
    if |bs| > 1 {
      UnpackOverflowIff(bs[1..], shift + 7, w);
    }
  }

  lemma {:induction false} VarintIsEnded(bits: seq<bool>)
    requires TakeVarint(bits).Some?
    ensures var bs := TakeVarint(bits).value;
            bs != [] && bs[|bs| - 1] < 128 && forall i | 0 <= i < |bs| - 1 :: bs[i] >= 128
    decreases |bits|
  {
    ValueBound(bits[..8]);
    Pow2Small();
    if ValueOf(bits[..8]) >= 128 {
      VarintIsEnded(bits[8..]);
    }
  }

  lemma BlockErrors(bits: seq<bool>, w: nat)
    ensures ReadBlock(bits, w).Err? ==>
              ReadBlock(bits, w).error == DataIndexFailure || ReadBlock(bits, w).error == UnpackOverflow
  {
    if |bits| >= 2 && !bits[0] && !bits[1] && TakeVarint(bits[2..]).Some? {
      VarintIsEnded(bits[2..]);
      UnpackOverflowIff(TakeVarint(bits[2..]).value, 0, w);
    }
  }

  lemma {:induction false} BlocksErrors(bits: seq<bool>, mag: bool, v: nat, out: set<nat>, w: nat)
    ensures DecodeBlocks(bits, mag, v, out, w).Err? ==>
              var e := DecodeBlocks(bits, mag, v, out, w).error; e == DataIndexFailure || e == UnpackOverflow
    decreases |bits|
  {
    BlockErrors(bits, w);
    if AnySet(bits) && ReadBlock(bits, w).Ok? {
      var (k, n) := ReadBlock(bits, w).value;
      BlocksErrors(bits[k..], !mag, (v + n) % Pow2(w), RlePlus.Covered(mag, v, n, out, w), w);
    }
  }

  // A version other than 0, or no room for a header, and nothing else, is a version mismatch.
  lemma VersionMismatchIff(bits: seq<bool>, w: nat)
    requires IsWordWidth(w)
    ensures DecodedBits(bits, w) == Err(VersionMismatch) <==> |bits| < 4 || bits[0] || bits[1]
  {
    if |bits| >= 4 {
      ZeroIffNoneSet(bits[..2]);
      assert bits[..2] == [bits[0], bits[1]];
      BlocksErrors(bits[3..], bits[2], 0, {}, w);
    }
  }

  // A set that would take more than 2^20 bytes as numbers of type T, and no other, is too large.
  lemma SizeLimitIff(bits: seq<bool>, w: nat)
    requires IsWordWidth(w) && |bits| >= 4 && !bits[0] && !bits[1]
    ensures var r := DecodeBlocks(bits[3..], bits[2], 0, {}, w);
            DecodedBits(bits, w) == if r.Ok? && |r.value| * (w / 8) > 0x10_0000 then Err(MaxSizeExceed) else r
  {
    ZeroIffNoneSet(bits[..2]);
    assert bits[..2] == [bits[0], bits[1]];
  }
}
