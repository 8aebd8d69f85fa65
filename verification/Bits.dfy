// Numbers as bits, least significant first, and the byte form of a bit string.

module Bits {
  import opened Basics

  function Pow2(n: nat): (r: nat)
    ensures r >= 1
  {
    if n == 0 then 1 else 2 * Pow2(n - 1)
  }

  lemma {:induction false} Pow2Add(m: nat, n: nat)
    ensures Pow2(m + n) == Pow2(m) * Pow2(n)
  {
    if m > 0 {
      Pow2Add(m - 1, n);
      assert 2 * (Pow2(m - 1) * Pow2(n)) == 2 * Pow2(m - 1) * Pow2(n);
    }
  }

  lemma Pow2Small()
    ensures Pow2(4) == 16 && Pow2(7) == 128 && Pow2(8) == 256
  {
    assert Pow2(4) == 2 * (2 * Pow2(2));
    assert Pow2(7) == 2 * (2 * (2 * Pow2(4)));
  }

  lemma Pow2Of64()
    ensures Pow2(64) == TWO64
  {
    Pow2Small();
    Pow2Add(8, 8);
    Pow2Add(16, 16);
    Pow2Add(32, 32);
  }

  function BitsOf(v: nat, n: nat): (bits: seq<bool>)
    ensures |bits| == n
  {
    if n == 0 then [] else [v % 2 == 1] + BitsOf(v / 2, n - 1)
  }

  function ValueOf(bits: seq<bool>): nat {
    if bits == [] then 0 else (if bits[0] then 1 else 0) + 2 * ValueOf(bits[1..])
  }

  // Bit k of a number is what a mask and a shift deliver.
  lemma {:induction false} BitAt(v: nat, n: nat, k: nat)
    requires k < n
    ensures BitsOf(v, n)[k] == ((v / Pow2(k)) % 2 == 1)
  {
    if k > 0 {
      BitAt(v / 2, n - 1, k - 1);
      DivDiv(v, Pow2(k - 1));
    }
  }

  lemma DivDiv(v: nat, p: nat)
    requires p > 0
    ensures v / 2 / p == v / (2 * p)
  {
    DivTwice(v, 2, p);
  }

  lemma DivMod(x: nat, d: nat) returns (q: nat, r: nat)
    requires d > 0
    ensures q == x / d && r == x % d && r < d && x == d * q + r
  {
    q, r := x / d, x % d;
  }

  lemma QuotientIs(v: nat, d: nat, q: nat, s: nat)
    requires d > 0 && v == d * q + s && s < d
    ensures v / d == q && v % d == s
  {
    var a, _ := DivMod(v, d);
    MulGap(d, a, q);
    MulGap(d, q, a);
  }

  lemma DivTwice(x: nat, a: nat, b: nat)
    requires a > 0 && b > 0
    ensures a * b > 0 && x / a / b == x / (a * b)
  {
    var y, s := DivMod(x, a);
    var q, r := DivMod(y, b);
    MulSum(a, b, q, r);
    MulGap(a, b, r);
    QuotientIs(x, a * b, q, a * r + s);
  }

  lemma MulSum(a: nat, b: nat, q: nat, r: nat)
    ensures a * (b * q + r) == a * b * q + a * r
  {
  }

  lemma MulGap(d: nat, a: nat, b: nat)
    ensures a > b ==> d * a >= d * b + d
  {
    if a > b {
      assert d * a == d * (b + 1) + d * (a - b - 1);
    }
  }

  lemma {:induction false} ValueBound(bits: seq<bool>)
    ensures ValueOf(bits) < Pow2(|bits|)
  {
    if bits != [] {
      ValueBound(bits[1..]);
    }
  }

  lemma {:induction false} BitsRoundTrip(v: nat, n: nat)
    requires v < Pow2(n)
    ensures ValueOf(BitsOf(v, n)) == v
  {
    if n > 0 {
      BitsRoundTrip(v / 2, n - 1);
      assert BitsOf(v, n)[1..] == BitsOf(v / 2, n - 1);
    }
  }

  lemma {:induction false} ValueRoundTrip(bits: seq<bool>)
    ensures BitsOf(ValueOf(bits), |bits|) == bits
  {
    if bits != [] {
      ValueRoundTrip(bits[1..]);
      assert bits == [bits[0]] + bits[1..];
    }
  }

  lemma {:induction false} ValueSnoc(bits: seq<bool>, b: bool)
    ensures ValueOf(bits + [b]) == ValueOf(bits) + (if b then Pow2(|bits|) else 0)
  {
    if bits == [] {
      assert [] + [b] == [b];
    } else {
      ValueSnoc(bits[1..], b);
      assert (bits + [b])[1..] == bits[1..] + [b];
    }
  }

  // Seven bits in each byte, lowest first; all bytes but the last have bit 7 set.
  function Varint(v: nat): (bs: seq<byte>)
    ensures bs != []
  {
    if v < 128 then [v] else [v % 128 + 128] + Varint(v / 128)
  }

  // A varint is as long as the number needs: its length is the least n with v < 128^n.
  lemma {:induction false} VarintLength(v: nat)
    ensures v < Pow2(7 * |Varint(v)|)
    ensures |Varint(v)| > 1 ==> Pow2(7 * (|Varint(v)| - 1)) <= v
  {
    Pow2Small();
    if v >= 128 {
      var n := |Varint(v / 128)|;
      VarintLength(v / 128);
      Pow2Add(7, 7 * n);
      if n > 1 {
        Pow2Add(7, 7 * (n - 1));
      }
    }
  }

  lemma VarintIsShort(v: nat, n: nat)
    requires n > 0 && v < Pow2(7 * n)
    ensures |Varint(v)| <= n
  {
    VarintLength(v);
    if |Varint(v)| > n {
      Pow2Monotone(7 * n, 7 * (|Varint(v)| - 1));
    }
  }

  // Byte i holds bits 7i to 7i + 6, and says whether another byte follows.
  lemma {:induction false} VarintAt(v: nat, i: nat)
    requires i < |Varint(v)|
    ensures Varint(v)[i] == (v / Pow2(7 * i)) % 128 + if i + 1 < |Varint(v)| then 128 else 0
    decreases i
  {
    if i > 0 {
      VarintAt(v / 128, i - 1);
      Pow2Small();
      Pow2Add(7, 7 * (i - 1));
      DivTwice(v, 128, Pow2(7 * (i - 1)));
    } else {
      assert v / 1 == v;
    }
  }

  predicate AnySet(bits: seq<bool>) {
    exists k | 0 <= k < |bits| :: bits[k]
  }

  lemma {:induction false} ZeroIffNoneSet(bits: seq<bool>)
    ensures AnySet(bits) <==> ValueOf(bits) > 0
  {
    if bits != [] {
      ZeroIffNoneSet(bits[1..]);
      if AnySet(bits) && !bits[0] {
        var k :| 0 <= k < |bits| && bits[k];
        assert bits[1..][k - 1];
      }
      if AnySet(bits[1..]) {
        var k :| 0 <= k < |bits[1..]| && bits[1..][k];
        assert bits[k + 1];
      }
    }
  }

  function Zeros(n: nat): (bits: seq<bool>)
    ensures |bits| == n && !AnySet(bits)
  {
    seq(n, _ => false)
  }

  // boost::to_block_range with blocks of one byte: the last block is filled with zeros.
  function ToBytes(bits: seq<bool>): seq<byte> {
    if bits == [] then []
    else
      var n := Min(8, |bits|);
      ValueBound(bits[..n]);
      Pow2Small();
      Pow2Monotone(n, 8);
      [ValueOf(bits[..n])] + ToBytes(bits[n..])
  }

  lemma {:induction false} Pow2Monotone(m: nat, n: nat)
    requires m <= n
    ensures Pow2(m) <= Pow2(n)
    decreases n
  {
    if m < n {
      Pow2Monotone(m, n - 1);
    }
  }

  function FromBytes(bytes: seq<byte>): seq<bool> {
    if bytes == [] then [] else BitsOf(bytes[0], 8) + FromBytes(bytes[1..])
  }

  lemma {:induction false} ValueWithZeros(bits: seq<bool>, n: nat)
    ensures ValueOf(bits + Zeros(n)) == ValueOf(bits)
  {
    if bits == [] {
      assert bits + Zeros(n) == Zeros(n);
      ZeroIffNoneSet(Zeros(n));
    } else {
      assert (bits + Zeros(n))[1..] == bits[1..] + Zeros(n);
      ValueWithZeros(bits[1..], n);
    }
  }

  // Packing and unpacking adds zero bits only, fewer than eight.
  lemma {:induction false} BytesRoundTrip(bits: seq<bool>) returns (padding: nat)
    ensures padding < 8 && (|bits| + padding) % 8 == 0
    ensures FromBytes(ToBytes(bits)) == bits + Zeros(padding)
    decreases |bits|
  {
    if bits == [] {
      padding := 0;
    } else if |bits| < 8 {
      padding := 8 - |bits|;
      assert bits[..|bits|] == bits && bits[|bits|..] == [];
      ValueWithZeros(bits, padding);
      ValueRoundTrip(bits + Zeros(padding));
      assert ToBytes(bits) == [ValueOf(bits)];
      assert FromBytes([ValueOf(bits)]) == BitsOf(ValueOf(bits), 8) + [];
    } else {
      padding := BytesRoundTrip(bits[8..]);
      ValueRoundTrip(bits[..8]);
      assert bits == bits[..8] + bits[8..];
      Associative(bits[..8], bits[8..], Zeros(padding));
    }
  }
}
