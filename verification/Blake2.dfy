// crypto/blake2: BLAKE2b and BLAKE2s as streaming contexts.
//
// The compression function F stays abstract. The reference is section 3.3 of RFC 7693,
// written over the whole input; the class keeps a block that is compressed only when
// more input arrives, and a byte counter of two words.

module Blake2 {
  import opened Basics
  import opened Bits

  type Chain = h: seq<nat> | |h| == 8 witness [0, 0, 0, 0, 0, 0, 0, 0]

  // Chain words, block, low and high word of the offset, last-block flag.
  type Compression = (Chain, seq<byte>, nat, nat, bool) -> Chain

  // One call of F, without the chain.
  datatype Call = Call(block: seq<byte>, low: nat, high: nat, last: bool)

  // `bb` bytes in a block, `wb` bytes in a word.
  datatype Variant = Variant(bb: nat, wb: nat, iv: Chain) {
    predicate Valid() {
      bb == 16 * wb && (wb == 8 || wb == 4)
    }

    // Largest digest and key.
    function Limit(): nat {
      8 * wb
    }

    function W(): (m: nat)
      ensures m > 0
    {
      Pow2(8 * wb)
    }
  }

  const BLAKE2B := Variant(128, 8,
    [0x6A09E667F3BCC908, 0xBB67AE8584CAA73B, 0x3C6EF372FE94F82B, 0xA54FF53A5F1D36F1,
     0x510E527FADE682D1, 0x9B05688C2B3E6C1F, 0x1F83D9ABFB41BD6B, 0x5BE0CD19137E2179])

  const BLAKE2S := Variant(64, 4,
    [0x6A09E667, 0xBB67AE85, 0x3C6EF372, 0xA54FF53A, 0x510E527F, 0x9B05688C, 0x1F83D9AB, 0x5BE0CD19])

  // x is the fractional part of the square root of p, whose whole part is c, as a word that
  // counts modulo m: the root lies between c + x/m and c + (x + 1)/m.
  predicate IsRootFraction(x: nat, p: nat, c: nat, m: nat) {
    x < m && c * c < p < (c + 1) * (c + 1) &&
    (c * m + x) * (c * m + x) < p * (m * m) < (c * m + x + 1) * (c * m + x + 1)
  }

  ghost predicate IsIv(iv: Chain, m: nat) {
    var primes, roots := [2, 3, 5, 7, 11, 13, 17, 19], [1, 1, 2, 2, 3, 3, 4, 4];
    forall i | 0 <= i < 8 :: IsRootFraction(iv[i], primes[i], roots[i], m)
  }

  // Section 2.6 of RFC 7693.
  lemma IvOf2b()
    ensures IsIv(BLAKE2B.iv, TWO64)
  {
    var iv, m := BLAKE2B.iv, TWO64;
    assert IsRootFraction(iv[0], 2, 1, m) && IsRootFraction(iv[1], 3, 1, m);
    assert IsRootFraction(iv[2], 5, 2, m) && IsRootFraction(iv[3], 7, 2, m);
    assert IsRootFraction(iv[4], 11, 3, m) && IsRootFraction(iv[5], 13, 3, m);
    assert IsRootFraction(iv[6], 17, 4, m) && IsRootFraction(iv[7], 19, 4, m);
  }

  lemma IvOf2s()
    ensures IsIv(BLAKE2S.iv, 0x1_0000_0000)
  {
    var iv, m := BLAKE2S.iv, 0x1_0000_0000;
    assert IsRootFraction(iv[0], 2, 1, m) && IsRootFraction(iv[1], 3, 1, m);
    assert IsRootFraction(iv[2], 5, 2, m) && IsRootFraction(iv[3], 7, 2, m);
    assert IsRootFraction(iv[4], 11, 3, m) && IsRootFraction(iv[5], 13, 3, m);
    assert IsRootFraction(iv[6], 17, 4, m) && IsRootFraction(iv[7], 19, 4, m);
  }

  // Section 2.1: sizes of blocks, keys, digests and words.
  lemma SizesOf2b()
    ensures BLAKE2B.Valid() && BLAKE2B.bb == 128 && BLAKE2B.Limit() == 64 && BLAKE2B.W() == TWO64
  {
    Pow2Of64();
  }

  lemma SizesOf2s()
    ensures BLAKE2S.Valid() && BLAKE2S.bb == 64 && BLAKE2S.Limit() == 32 && BLAKE2S.W() == 0x1_0000_0000
  {
    Pow2Small();
    Pow2Add(8, 8);
    Pow2Add(16, 16);
  }

  // ---------------------------------------------------------------- section 3.3 of RFC 7693

  function Xor(a: nat, b: nat): nat {
    if a == 0 && b == 0 then 0 else (a % 2 + b % 2) % 2 + 2 * Xor(a / 2, b / 2)
  }

  // The definition with the halves and the last bits named.
  lemma XorStep(a: nat, b: nat, ha: nat, da: nat, hb: nat, db: nat, x: nat)
    requires a == 2 * ha + da && b == 2 * hb + db && da < 2 && db < 2 && x == Xor(ha, hb)
    ensures Xor(a, b) == 2 * x + if da == db then 0 else 1
  {
    QuotientIs(a, 2, ha, da);
    QuotientIs(b, 2, hb, db);
  }

  predicate Bit(a: nat, k: nat) {
    (a / Pow2(k)) % 2 == 1
  }

  lemma BitOfHalf(a: nat, half: nat, d: nat, k: nat)
    requires a == 2 * half + d && d < 2
    ensures Bit(a, k) <==> if k == 0 then d == 1 else Bit(half, k - 1)
  {
    QuotientIs(a, 2, half, d);
    if k == 0 {
      assert a / 1 == a;
    } else {
      DivDiv(a, Pow2(k - 1));
    }
  }

  // Bit k of the result is set if and only if it is set in exactly one of the two.
  lemma {:induction false} XorBit(a: nat, b: nat, k: nat)
    ensures Bit(Xor(a, b), k) <==> Bit(a, k) != Bit(b, k)
    decreases k
  {
    var ha, da := DivMod(a, 2);
    var hb, db := DivMod(b, 2);
    var x := Xor(ha, hb);
    XorStep(a, b, ha, da, hb, db, x);
    BitOfHalf(a, ha, da, k);
    BitOfHalf(b, hb, db, k);
    BitOfHalf(Xor(a, b), x, if da == db then 0 else 1, k);
    if k > 0 {
      XorBit(ha, hb, k - 1);
    }
  }

  // Combining with the same number twice changes nothing.
  lemma {:induction false} XorTwice(a: nat, b: nat)
    ensures Xor(Xor(a, b), b) == a
    decreases a + b
  {
    if a != 0 || b != 0 {
      var ha, da := DivMod(a, 2);
      var hb, db := DivMod(b, 2);
      var x := Xor(ha, hb);
      XorTwice(ha, hb);
      XorStep(a, b, ha, da, hb, db, x);
      XorStep(Xor(a, b), b, x, if da == db then 0 else 1, hb, db, ha);
    }
  }

  lemma {:induction false} XorCommutes(a: nat, b: nat)
    ensures Xor(a, b) == Xor(b, a)
    decreases a + b
  {
    if a != 0 || b != 0 {
      XorCommutes(a / 2, b / 2);
    }
  }

  lemma XorEven(p: nat, b: nat)
    requires Xor(p, b / 2) == p + b / 2
    ensures Xor(2 * p, b) == 2 * p + b
  {
    var hb, db := DivMod(b, 2);
    XorStep(2 * p, b, p, 0, hb, db, p + hb);
  }

  lemma TwiceTimes(a: nat, p: nat)
    ensures a * (2 * p) == 2 * (a * p)
  {
  }

  // Numbers without a common bit are added.
  lemma {:induction false} XorDisjoint(a: nat, b: nat, n: nat)
    requires b < Pow2(n)
    ensures Xor(a * Pow2(n), b) == a * Pow2(n) + b
    decreases n
  {
    if n == 0 {
      XorZero(a);
    } else {
      XorDisjoint(a, b / 2, n - 1);
      XorEven(a * Pow2(n - 1), b);
      TwiceTimes(a, Pow2(n - 1));
    }
  }

  lemma {:induction false} XorZero(a: nat)
    ensures Xor(a, 0) == a
  {
    if a != 0 {
      XorZero(a / 2);
    }
  }

  // Parameter block p[0]: digest length, key length, fanout and depth 1.
  function InitialChain(v: Variant, kk: nat, nn: nat): Chain {
    v.iv[0 := Xor(v.iv[0], Xor(0x0101_0000, Xor(kk * 256, nn)))]
  }

  function Padded(bs: seq<byte>, n: nat): (r: seq<byte>)
    requires |bs| <= n
    ensures |r| == n
  {
    bs + seq(n - |bs|, _ => 0)
  }

  // The key fills a block of its own in front of the data.
  function Input(v: Variant, key: seq<byte>, data: seq<byte>): seq<byte>
    requires |key| <= v.bb
  {
    if key == [] then data else Padded(key, v.bb) + data
  }

  // Data blocks: none is empty, except the only block of an empty input.
  function BlockCount(v: Variant, input: seq<byte>): (dd: nat)
    requires v.Valid()
    ensures dd > 0
  {
    if input == [] then 1 else (|input| + v.bb - 1) / v.bb
  }

  // Block i, filled with zeros.
  function BlockAt(v: Variant, input: seq<byte>, i: nat): seq<byte>
    requires i * v.bb <= |input|
  {
    Padded(input[i * v.bb..Min(i * v.bb + v.bb, |input|)], v.bb)
  }

  // The offset counter in two words, each counting modulo m.
  function Low(m: nat, n: nat): nat requires m > 0 { n % m }
  function High(m: nat, n: nat): nat requires m > 0 { (n / m) % m }

  // The first n blocks, none of them the last.
  function InnerCalls(v: Variant, input: seq<byte>, n: nat): (calls: seq<Call>)
    requires n * v.bb <= |input|
    decreases n
  {
    if n == 0 then []
    else
      assert (n - 1) * v.bb <= n * v.bb;
      InnerCalls(v, input, n - 1) +
      [Call(BlockAt(v, input, n - 1), Low(v.W(), n * v.bb), High(v.W(), n * v.bb), false)]
  }

  // All blocks; the last carries the total length and the flag.
  function AllCalls(v: Variant, input: seq<byte>): seq<Call>
    requires v.Valid()
  {
    var dd := BlockCount(v, input);
    BlockCountCovers(v, input);
    InnerCalls(v, input, dd - 1) + [Call(BlockAt(v, input, dd - 1), Low(v.W(), |input|), High(v.W(), |input|), true)]
  }

  lemma BlockCountCovers(v: Variant, input: seq<byte>)
    requires v.Valid()
    ensures (BlockCount(v, input) - 1) * v.bb <= |input| <= BlockCount(v, input) * v.bb
    ensures input != [] ==> (BlockCount(v, input) - 1) * v.bb < |input|
  {
  }

  function Fold(F: Compression, h: Chain, calls: seq<Call>): Chain {
    if calls == [] then h
    else
      var n := |calls| - 1;
      F(Fold(F, h, calls[..n]), calls[n].block, calls[n].low, calls[n].high, calls[n].last)
  }

  function LittleEndian(x: nat, n: nat): (bs: seq<byte>)
    ensures |bs| == n
  {
    if n == 0 then [] else [x % 256] + LittleEndian(x / 256, n - 1)
  }

  // Section 2.5 of RFC 7693: the initial chain is the IV combined with the parameter block,
  // whose first bytes are digest length, key length, 1 and 1, and whose others are zero.
  ghost predicate IsInitialChain(v: Variant, kk: nat, nn: nat, h: Chain)
    requires v.Valid() && kk < 256 && nn < 256
  {
    LittleEndian(Xor(h[0], v.iv[0]), v.wb) == Padded([nn, kk, 1, 1], v.wb) && h[1..] == v.iv[1..]
  }

  lemma LittleEndianFirst(b: byte, x: nat, n: nat)
    requires n > 0
    ensures LittleEndian(b + 256 * x, n) == [b] + LittleEndian(x, n - 1)
  {
    QuotientIs(b + 256 * x, 256, x, b);
  }

  lemma {:induction false} LittleEndianZero(n: nat)
    ensures LittleEndian(0, n) == seq(n, _ => 0)
  {
    if n > 0 {
      LittleEndianZero(n - 1);
    }
  }

  lemma {:induction false} LittleEndianOf(bs: seq<byte>, x: nat, n: nat)
    requires |bs| <= n && x == ByteSum(bs)
    ensures LittleEndian(x, n) == Padded(bs, n)
  {
    if bs == [] {
      LittleEndianZero(n);
    } else {
      LittleEndianFirst(bs[0], ByteSum(bs[1..]), n);
      LittleEndianOf(bs[1..], ByteSum(bs[1..]), n - 1);
    }
  }

  function ByteSum(bs: seq<byte>): nat {
    if bs == [] then 0 else bs[0] + 256 * ByteSum(bs[1..])
  }

  lemma ParameterBytes(kk: byte, nn: byte, n: nat)
    requires n >= 4
    ensures LittleEndian(0x0101_0000 + kk * 256 + nn, n) == Padded([nn, kk, 1, 1], n)
  {
    var bs: seq<byte> := [nn, kk, 1, 1];
    assert bs[1..] == [kk, 1, 1] && bs[1..][1..] == [1, 1] && bs[1..][1..][1..] == [1] && [1][1..] == [];
    assert ByteSum([1]) == 1;
    assert ByteSum([1, 1]) == 1 + 256 * ByteSum([1]);
    assert ByteSum([kk, 1, 1]) == kk + 256 * ByteSum([1, 1]);
    LittleEndianOf(bs, 0x0101_0000 + kk * 256 + nn, n);
  }

  lemma ParameterWord(kk: byte, nn: byte)
    ensures Xor(0x0101_0000, Xor(kk * 256, nn)) == 0x0101_0000 + kk * 256 + nn
  {
    Pow2Small();
    Pow2Add(8, 8);
    XorDisjoint(kk, nn, 8);
    XorDisjoint(0x0101, kk * 256 + nn, 16);
  }

  lemma InitialChainIs(v: Variant, kk: nat, nn: nat)
    requires v.Valid() && kk < 256 && nn < 256
    ensures IsInitialChain(v, kk, nn, InitialChain(v, kk, nn))
  {
    var p := 0x0101_0000 + kk * 256 + nn;
    ParameterWord(kk, nn);
    XorCommutes(v.iv[0], p);
    XorTwice(p, v.iv[0]);
    ParameterBytes(kk, nn, v.wb);
  }

  function ChainBytes(h: seq<nat>, wb: nat): (bs: seq<byte>)
    ensures |bs| == |h| * wb
  {
    if h == [] then [] else
      assert |h| * wb == wb + (|h| - 1) * wb;
      LittleEndian(h[0], wb) + ChainBytes(h[1..], wb)
  }

  // BLAKE2 of a whole input: the first nn bytes of the final chain.
  function Digest(F: Compression, v: Variant, key: seq<byte>, data: seq<byte>, nn: nat): seq<byte>
    requires v.Valid() && |key| <= v.Limit() && nn <= v.Limit()
  {
    ChainBytes(Fold(F, InitialChain(v, |key|, nn), AllCalls(v, Input(v, key, data))), v.wb)[..nn]
  }

  // ---------------------------------------------------------------- lemmas

  // Two words with a carry count bytes.
  lemma CounterAdd(m: nat, n: nat, c: nat)
    requires c < m
    ensures Low(m, n + c) == (Low(m, n) + c) % m
    ensures High(m, n + c) == if (Low(m, n) + c) % m < c then (High(m, n) + 1) % m else High(m, n)
  {
    AddWithCarry(m, n, c);
    ModSucc(n / m, m);
  }

  lemma AddWithCarry(m: nat, n: nat, c: nat)
    requires c < m
    ensures (n + c) % m == (n % m + c) % m
    ensures (n + c) / m == n / m + if (n % m + c) % m < c then 1 else 0
  {
    var q, r := n / m, n % m;
    assert n == m * q + r;
    if r + c < m {
      QuotientIs(n + c, m, q, r + c);
      QuotientIs(r + c, m, 0, r + c);
    } else {
      assert m * (q + 1) == m * q + m;
      QuotientIs(n + c, m, q + 1, r + c - m);
      QuotientIs(r + c, m, 1, r + c - m);
    }
  }

  lemma ModSucc(q: nat, m: nat)
    requires m > 0
    ensures (q + 1) % m == (q % m + 1) % m
  {
    if m > 1 {
      AddWithCarry(m, q, 1);
    }
  }

  // More input leaves the blocks that are complete alone.
  lemma {:induction false} InnerCallsExtend(v: Variant, input: seq<byte>, more: seq<byte>, n: nat)
    requires n * v.bb <= |input|
    ensures n * v.bb <= |input + more|
    ensures InnerCalls(v, input + more, n) == InnerCalls(v, input, n)
    decreases n
  {
    if n > 0 {
      var i := n - 1;
      assert i * v.bb + v.bb == n * v.bb;
      InnerCallsExtend(v, input, more, i);
      assert (input + more)[i * v.bb..i * v.bb + v.bb] == input[i * v.bb..i * v.bb + v.bb];
    }
  }

  // The blocks of some calls, one after the other.
  function Blocks(calls: seq<Call>): seq<byte> {
    if calls == [] then [] else Blocks(calls[..|calls| - 1]) + calls[|calls| - 1].block
  }

  lemma BlocksSnoc(calls: seq<Call>, c: Call)
    ensures Blocks(calls + [c]) == Blocks(calls) + c.block
  {
    assert (calls + [c])[..|calls|] == calls;
  }

  // One block more, when there is one.
  lemma InnerCallsNext(v: Variant, input: seq<byte>, n: nat)
    requires n * v.bb + v.bb <= |input|
    ensures (n + 1) * v.bb == n * v.bb + v.bb
    ensures BlockAt(v, input, n) == input[n * v.bb..n * v.bb + v.bb]
    ensures InnerCalls(v, input, n + 1) ==
            InnerCalls(v, input, n) +
            [Call(input[n * v.bb..n * v.bb + v.bb], Low(v.W(), n * v.bb + v.bb), High(v.W(), n * v.bb + v.bb), false)]
  {
    assert (n + 1) * v.bb == n * v.bb + v.bb;
    var block := input[n * v.bb..n * v.bb + v.bb];
    assert |block| == v.bb && Padded(block, v.bb) == block;
  }

  // A block that ends the input and is full.
  lemma FullBlockNext(v: Variant, input: seq<byte>, n: nat)
    requires |input| == n * v.bb + v.bb
    ensures (n + 1) * v.bb == |input|
    ensures InnerCalls(v, input, n + 1) ==
            InnerCalls(v, input, n) + [Call(input[n * v.bb..], Low(v.W(), |input|), High(v.W(), |input|), false)]
  {
    InnerCallsNext(v, input, n);
    assert input[n * v.bb..|input|] == input[n * v.bb..];
  }

  lemma {:induction false} InnerBlocks(v: Variant, input: seq<byte>, n: nat)
    requires n * v.bb <= |input|
    ensures Blocks(InnerCalls(v, input, n)) == input[..n * v.bb]
    ensures |InnerCalls(v, input, n)| == n && forall c | c in InnerCalls(v, input, n) :: !c.last
    decreases n
  {
    if n > 0 {
      var i := n - 1;
      assert i * v.bb + v.bb == n * v.bb;
      InnerBlocks(v, input, i);
      InnerCallsNext(v, input, i);
      var block := input[i * v.bb..i * v.bb + v.bb];
      BlocksSnoc(InnerCalls(v, input, i), Call(block, Low(v.W(), n * v.bb), High(v.W(), n * v.bb), false));
      assert input[..n * v.bb] == input[..i * v.bb] + block;
    }
  }

  lemma LastPadded(input: seq<byte>, i: nat, n: nat)
    requires i <= |input| <= i + n
    ensures input[..i] + Padded(input[i..], n) == Padded(input, i + n)
  {
  }

  lemma LastBlockIsRest(v: Variant, input: seq<byte>, i: nat)
    requires i * v.bb <= |input| <= i * v.bb + v.bb
    ensures BlockAt(v, input, i) == Padded(input[i * v.bb..], v.bb)
  {
    assert input[i * v.bb..|input|] == input[i * v.bb..];
  }

  // Section 3.3 of RFC 7693 over the whole input: its blocks are the input filled with zeros
  // up to the end of the last block, and only the last call is flagged.
  lemma CallsCoverInput(v: Variant, input: seq<byte>)
    requires v.Valid()
    ensures |input| <= BlockCount(v, input) * v.bb
    ensures Blocks(AllCalls(v, input)) == Padded(input, BlockCount(v, input) * v.bb)
    ensures var calls := AllCalls(v, input);
            |calls| == BlockCount(v, input) && forall i | 0 <= i < |calls| :: calls[i].last <==> i == |calls| - 1
  {
    BlockCountCovers(v, input);
    var i := BlockCount(v, input) - 1;
    assert i * v.bb + v.bb == BlockCount(v, input) * v.bb;
    InnerBlocks(v, input, i);
    LastBlockIsRest(v, input, i);
    var last := Call(BlockAt(v, input, i), Low(v.W(), |input|), High(v.W(), |input|), true);
    CallsCover(InnerCalls(v, input, i), last, input, i * v.bb, v.bb);
  }

  lemma CallsCover(inner: seq<Call>, last: Call, input: seq<byte>, at: nat, n: nat)
    requires at <= |input| <= at + n && Blocks(inner) == input[..at] && last.block == Padded(input[at..], n)
    requires last.last && forall c | c in inner :: !c.last
    ensures Blocks(inner + [last]) == Padded(input, at + n)
    ensures forall k | 0 <= k <= |inner| :: (inner + [last])[k].last <==> k == |inner|
  {
    BlocksSnoc(inner, last);
    LastPadded(input, at, n);
    forall k | 0 <= k < |inner| ensures !(inner + [last])[k].last {
      assert inner[k] in inner;
    }
  }

  lemma InputAppend(v: Variant, key: seq<byte>, a: seq<byte>, b: seq<byte>)
    requires |key| <= v.bb
    ensures Input(v, key, a) + b == Input(v, key, a + b)
  {
    if key != [] {
      Associative(Padded(key, v.bb), a, b);
    }
  }

  lemma FoldSnoc(F: Compression, h: Chain, calls: seq<Call>, c: Call)
    ensures Fold(F, h, calls + [c]) == F(Fold(F, h, calls), c.block, c.low, c.high, c.last)
  {
    assert (calls + [c])[..|calls|] == calls;
  }

  // What the calls are once a full buffer is compressed.
  lemma BlockFlushed(F: Compression, v: Variant, h0: Chain, input: seq<byte>, n: nat, calls: seq<Call>, c: Call)
    requires |input| == n * v.bb + v.bb && calls == InnerCalls(v, input, n)
    requires c == Call(input[n * v.bb..], Low(v.W(), |input|), High(v.W(), |input|), false)
    ensures (n + 1) * v.bb == |input| && calls + [c] == InnerCalls(v, input, n + 1)
    ensures Fold(F, h0, calls + [c]) == F(Fold(F, h0, calls), c.block, c.low, c.high, c.last)
  {
    FullBlockNext(v, input, n);
    FoldSnoc(F, h0, calls, c);
  }

  lemma {:induction false} LittleEndianAt(x: nat, n: nat, i: nat)
    requires i < n
    ensures LittleEndian(x, n)[i] == (x / Pow2(8 * i)) % 256
  {
    if i > 0 {
      LittleEndianAt(x / 256, n - 1, i - 1);
      Pow2Add(8, 8 * (i - 1));
      Pow2Small();
      DivTwice(x, 256, Pow2(8 * (i - 1)));
    }
  }

  lemma DivModIs(i: nat, d: nat, n: nat)
    requires d > 0 && i < n * d
    ensures i / d < n && (i / d) * d + i % d == i
  {
    var q := i / d;
    assert i == d * q + i % d;
    assert d * (q + 1) == d * q + d;
    MulGap(d, q + 1, n);
  }

  // The byte the code picks from a chain word is the byte of the little-endian string.
  lemma {:induction false} ChainByteAt(h: seq<nat>, wb: nat, k: nat, r: nat, at: nat)
    requires k < |h| && r < wb && at == k * wb + r
    ensures at < |ChainBytes(h, wb)| && ChainBytes(h, wb)[at] == LittleEndian(h[k], wb)[r]
    decreases |h|
  {
    var rest := ChainBytes(h[1..], wb);
    assert ChainBytes(h, wb) == LittleEndian(h[0], wb) + rest;
    if k > 0 {
      assert k * wb == wb + (k - 1) * wb;
      ChainByteAt(h[1..], wb, k - 1, r, at - wb);
    }
  }

  lemma ByteIndex(h: Chain, wb: nat, i: nat)
    requires wb > 0 && i < 8 * wb
    ensures i / wb < 8 && ChainBytes(h, wb)[i] == (h[i / wb] / Pow2(8 * (i % wb))) % 256
  {
    DivModIs(i, wb, 8);
    ChainByteAt(h, wb, i / wb, i % wb, i);
    LittleEndianAt(h[i / wb], wb, i % wb);
  }

  // ---------------------------------------------------------------- the contexts

  class Blake2Context {
    const F: Compression
    const v: Variant
    const b: array<byte>          // input buffer
    var h: Chain                  // chained state
    var t0: nat                   // total number of bytes compressed, low word
    var t1: nat                   // high word
    var c: nat                    // bytes in the buffer
    var outlen: nat
    ghost var h0: Chain
    ghost var input: seq<byte>    // everything taken in, the key block included
    ghost var blocks: nat         // blocks compressed
    ghost var calls: seq<Call>    // calls of F so far

    ghost predicate Shape()
      reads this
    {
      v.Valid() && b.Length == v.bb
    }

    // The buffer holds what is not compressed; it is empty only before any input.
    ghost predicate Valid()
      reads this, b
    {
      Shape() && outlen <= v.Limit() && c <= v.bb && (c == 0 ==> blocks == 0) &&
      blocks * v.bb + c == |input| && b[..c] == input[blocks * v.bb..] &&
      t0 == Low(v.W(), blocks * v.bb) && t1 == High(v.W(), blocks * v.bb) &&
      calls == InnerCalls(v, input, blocks) && h == Fold(F, h0, calls)
    }

    constructor (F: Compression, v: Variant)
      requires v.Valid()
      ensures Shape() && this.F == F && this.v == v && fresh(b)
    {
      this.F, this.v := F, v;
      b := new byte[v.bb](_ => 0);
      h := [0, 0, 0, 0, 0, 0, 0, 0];
      t0, t1, c, outlen := 0, 0, 0, 0;
      h0 := [0, 0, 0, 0, 0, 0, 0, 0];
      input, blocks, calls := [], 0, [];
    }

    method Compress(last: bool)
      requires Shape()
      modifies `h, `calls
      ensures calls == old(calls) + [Call(b[..], t0, t1, last)]
      ensures h == F(old(h), b[..], t0, t1, last)
    {
      h := F(h, b[..], t0, t1, last);
      calls := calls + [Call(b[..], t0, t1, last)];
    }

    // Adds the buffered bytes to the counter, carrying into the high word.
    method Count()
      requires Shape() && c <= v.bb && blocks * v.bb + c == |input|
      requires t0 == Low(v.W(), blocks * v.bb) && t1 == High(v.W(), blocks * v.bb)
      modifies `t0, `t1
      ensures t0 == Low(v.W(), |input|) && t1 == High(v.W(), |input|)
    {
      WordsAreWide(v);
      CounterAdd(v.W(), blocks * v.bb, c);
      t0 := (t0 + c) % v.W();
      if t0 < c {
        t1 := (t1 + 1) % v.W();
      }
    }

    // A full buffer in front of more input.
    method Flush()
      requires Valid() && c == v.bb
      modifies this
      ensures Shape() && c == 0 && outlen == old(outlen) && h0 == old(h0) && input == old(input)
      ensures blocks == old(blocks) + 1 && blocks * v.bb == |input|
      ensures t0 == Low(v.W(), blocks * v.bb) && t1 == High(v.W(), blocks * v.bb)
      ensures calls == InnerCalls(v, input, blocks) && h == Fold(F, h0, calls)
    {
      Count();
      assert b[..] == b[..c];
      BlockFlushed(F, v, h0, input, blocks, calls, Call(b[..], t0, t1, false));
      Compress(false);
      blocks := blocks + 1;
      c := 0;
    }

    // One byte goes into the buffer.
    method Store(x: byte)
      requires Shape() && outlen <= v.Limit() && c < v.bb
      requires blocks * v.bb + c == |input| && b[..c] == input[blocks * v.bb..]
      requires t0 == Low(v.W(), blocks * v.bb) && t1 == High(v.W(), blocks * v.bb)
      requires calls == InnerCalls(v, input, blocks) && h == Fold(F, h0, calls)
      modifies `c, `input, b
      ensures Valid() && c == old(c) + 1 && input == old(input) + [x]
      ensures forall k | c <= k < v.bb :: b[k] == old(b[k])
    {
      InnerCallsExtend(v, input, [x], blocks);
      b[c] := x;
      c := c + 1;
      input := input + [x];
    }

    // The body of the update loop.
    method UpdateByte(x: byte)
      requires Valid()
      modifies this, b
      ensures Valid() && outlen == old(outlen) && h0 == old(h0)
      ensures input == old(input) + [x]
      ensures old(c) < v.bb ==> c == old(c) + 1 && forall k | c <= k < v.bb :: b[k] == old(b[k])
    {
      if c == v.bb {
        Flush();
      }
      Store(x);
    }

    method Update(data: seq<byte>)
      requires Valid()
      modifies this, b
      ensures Valid() && outlen == old(outlen) && h0 == old(h0)
      ensures input == old(input) + data
      ensures old(c) + |data| <= v.bb ==>
                c == old(c) + |data| && forall k | c <= k < v.bb :: b[k] == old(b[k])
    {
      for i := 0 to |data|
        invariant Valid() && outlen == old(outlen) && h0 == old(h0)
        invariant input == old(input) + data[..i]
        invariant old(c) + i <= v.bb ==> c == old(c) + i && forall k | c <= k < v.bb :: b[k] == old(b[k])
      {
        UpdateByte(data[i]);
        TakeSnoc(old(input), data, i);
      }
      assert data[..|data|] == data;
    }

    // One update for each chunk.
    method UpdateAll(chunks: seq<seq<byte>>)
      requires Valid()
      modifies this, b
      ensures Valid() && outlen == old(outlen) && h0 == old(h0)
      ensures input == old(input) + Flatten(chunks)
    {
      for i := 0 to |chunks|
        invariant Valid() && outlen == old(outlen) && h0 == old(h0)
        invariant input == old(input) + Flatten(chunks[..i])
      {
        assert chunks[..i + 1] == chunks[..i] + [chunks[i]];
        FlattenSnoc(chunks[..i], chunks[i]);
        Associative(old(input), Flatten(chunks[..i]), chunks[i]);
        Update(chunks[i]);
      }
      assert chunks[..|chunks|] == chunks;
    }

    // Zeros from position n of the buffer on.
    method ZeroFrom(n: nat)
      requires n <= b.Length
      modifies b
      ensures b[..n] == old(b[..n])
      ensures forall k | n <= k < b.Length :: b[k] == 0
    {
      for i := n to b.Length
        invariant b[..n] == old(b[..n])
        invariant forall k | n <= k < i :: b[k] == 0
      {
        b[i] := 0;
      }
    }

    // The chain and the counters before any input.
    method Start(kk: nat, nn: nat)
      requires Shape() && nn <= v.Limit()
      modifies this
      ensures Valid() && c == 0 && outlen == nn && h0 == InitialChain(v, kk, nn) && input == []
    {
      h := InitialChain(v, kk, nn);
      t0, t1, c, outlen := 0, 0, 0, nn;
      h0, input, blocks, calls := h, [], 0, [];
      QuotientIs(0, v.W(), 0, 0);
    }

    // -1 for illegal parameters; the context is then left alone.
    method Init(nn: nat, key: seq<byte>) returns (rc: int)
      requires Shape()
      modifies this, b
      ensures rc == if nn == 0 || nn > v.Limit() || |key| > v.Limit() then -1 else 0
      ensures rc == 0 ==> Valid() && outlen == nn && h0 == InitialChain(v, |key|, nn) && input == Input(v, key, [])
      ensures rc == 0 ==> IsInitialChain(v, |key|, nn, h0)
      ensures rc != 0 ==> unchanged(this) && unchanged(b)
    {
      if nn == 0 || nn > v.Limit() || |key| > v.Limit() {
        return -1;
      }
      InitialChainIs(v, |key|, nn);
      Start(|key|, nn);
      ZeroFrom(|key|);
      if |key| > 0 {
        AbsorbKey(key);
        assert input + [] == input;
      }
      rc := 0;
    }

    // The key and the zeros behind it are the first block.
    method AbsorbKey(key: seq<byte>)
      requires Valid() && c == 0 && input == [] && 0 < |key| <= v.bb
      requires forall k | |key| <= k < v.bb :: b[k] == 0
      modifies this, b
      ensures Valid() && outlen == old(outlen) && h0 == old(h0) && input == Padded(key, v.bb)
    {
      Update(key);
      assert b[..c] == key;
      assert b[..] == Padded(key, v.bb);
      InnerCallsExtend(v, input, Padded(key, v.bb)[|key|..], 0);
      c := v.bb;
      input := Padded(key, v.bb);
      assert b[..c] == input[0..];
    }

    // Fills the buffer with zeros.
    method Pad()
      requires Shape() && c <= v.bb
      modifies `c, b
      ensures c == v.bb && b[..] == Padded(old(b[..c]), v.bb)
    {
      ghost var start := c;
      while c < v.bb
        invariant start <= c <= v.bb
        invariant b[..start] == old(b[..c])
        invariant forall k | start <= k < c :: b[k] == 0
      {
        b[c] := 0;
        c := c + 1;
      }
    }

    method Final() returns (out: seq<byte>)
      requires Valid()
      modifies this, b
      ensures calls == AllCalls(v, old(input))
      ensures out == ChainBytes(Fold(F, old(h0), calls), v.wb)[..old(outlen)]
    {
      LastBlock(v, input, blocks, c);
      Count();
      Pad();
      FoldSnoc(F, h0, calls, Call(b[..], t0, t1, true));
      Compress(true);
      out := Output();
    }

    // Byte i of the chain: a shift and a mask of one word.
    method ByteOf(i: nat) returns (x: byte)
      requires v.Valid() && i < v.Limit()
      ensures x == ChainBytes(h, v.wb)[i]
    {
      ByteIndex(h, v.wb, i);
      x := (h[i / v.wb] / Pow2(8 * (i % v.wb))) % 256;
    }

    method Output() returns (out: seq<byte>)
      requires v.Valid() && outlen <= v.Limit()
      ensures out == ChainBytes(h, v.wb)[..outlen]
    {
      out := [];
      ghost var bytes := ChainBytes(h, v.wb);
      for i := 0 to outlen
        invariant out == bytes[..i]
      {
        var x := ByteOf(i);
        assert bytes[..i + 1] == bytes[..i] + [bytes[i]];
        out := out + [x];
      }
    }
  }

  lemma TakeSnoc(a: seq<byte>, data: seq<byte>, i: nat)
    requires i < |data|
    ensures a + data[..i] + [data[i]] == a + data[..i + 1]
  {
  }

  lemma WordsAreWide(v: Variant)
    requires v.Valid()
    ensures v.bb < v.W()
  {
    Pow2Small();
    Pow2Monotone(8, 8 * v.wb);
  }

  // The buffer at the end is the last block of the reference.
  lemma LastBlock(v: Variant, input: seq<byte>, blocks: nat, c: nat)
    requires v.Valid() && c <= v.bb && blocks * v.bb + c == |input| && (c == 0 ==> blocks == 0)
    ensures BlockCount(v, input) == blocks + 1
    ensures BlockAt(v, input, blocks) == Padded(input[blocks * v.bb..], v.bb)
  {
    if input != [] {
      QuotientIs(|input| + v.bb - 1, v.bb, blocks + 1, c - 1);
    }
  }

  // All in one.
  method Blake2(F: Compression, v: Variant, nn: nat, key: seq<byte>, data: seq<byte>) returns (out: Option<seq<byte>>)
    requires v.Valid()
    ensures out == if nn == 0 || nn > v.Limit() || |key| > v.Limit() then None else Some(Digest(F, v, key, data, nn))
  {
    out := HashChunks(F, v, nn, key, [data]);
    assert Flatten([data]) == data;
  }

  // Any cut into updates gives the digest of the whole.
  method HashChunks(F: Compression, v: Variant, nn: nat, key: seq<byte>, chunks: seq<seq<byte>>)
    returns (out: Option<seq<byte>>)
    requires v.Valid()
    ensures out == if nn == 0 || nn > v.Limit() || |key| > v.Limit() then None
            else Some(Digest(F, v, key, Flatten(chunks), nn))
  {
    var ctx := new Blake2Context(F, v);
    var rc := ctx.Init(nn, key);
    if rc != 0 {
      return None;
    }
    ctx.UpdateAll(chunks);
    InputAppend(v, key, [], Flatten(chunks));
    assert [] + Flatten(chunks) == Flatten(chunks);
    var digest := ctx.Final();
    out := Some(digest);
  }
}
