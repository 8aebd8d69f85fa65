// What the buffering machine finds the end of: exactly the items of RFC 7049,
// section 2.1, that contain no major type 7 item and no map of 2^63 or more pairs.

module CborFraming {
  import opened Basics
  import opened CborGrammar
  import opened CborBuffering

  // `bs` stands at position i of the input.
  predicate At(input: seq<byte>, i: nat, bs: seq<byte>) {
    i + |bs| <= |input| && forall k | 0 <= k < |bs| :: input[i + k] == bs[k]
  }

  lemma AtSplit(input: seq<byte>, i: nat, a: seq<byte>, b: seq<byte>)
    requires At(input, i, a + b)
    ensures At(input, i, a) && At(input, i + |a|, b)
  {
    forall k | 0 <= k < |a|
      ensures input[i + k] == a[k]
    {
      assert (a + b)[k] == a[k];
    }
    forall k | 0 <= k < |b|
      ensures input[i + |a| + k] == b[k]
    {
      assert (a + b)[|a| + k] == b[k];
      assert input[i + (|a| + k)] == b[k];
    }
  }

  lemma AtThree(input: seq<byte>, i: nat, j: nat, all: seq<byte>, a: seq<byte>, b: seq<byte>, c: seq<byte>)
    requires At(input, i, all) && all == a + (b + c) && j == i + |a| + |b|
    ensures At(input, i, a) && At(input, j, c)
    ensures j + |c| == i + |all| <= |input|
  {
    AtSplit(input, i, a, b + c);
    AtSplit(input, i + |a|, b, c);
  }

  lemma AtFirst(input: seq<byte>, i: nat, bs: seq<byte>)
    requires At(input, i, bs) && bs != []
    ensures i < |input| && input[i] == bs[0] && At(input, i + 1, bs[1..])
  {
    assert input[i + 0] == bs[0];
    forall k | 0 <= k < |bs[1..]|
      ensures input[i + 1 + k] == bs[1..][k]
    {
      assert input[i + (k + 1)] == bs[k + 1];
    }
  }

  lemma PowersOf256()
    ensures Pow256(8) == TWO64
  {
    assert Pow256(2) == 65536;
    assert Pow256(4) == 256 * (256 * Pow256(2));
    assert Pow256(6) == 256 * (256 * Pow256(4));
    assert Pow256(8) == 256 * (256 * Pow256(6));
  }

  // The number a head holds after reading `ext` on top of v.
  function Extended(v: nat, ext: seq<byte>): nat
    decreases |ext|
  {
    if ext == [] then v else Extended(v * 256 + ext[0], ext[1..])
  }

  lemma {:induction false} ExtendedIsBigEndian(pre: seq<byte>, ext: seq<byte>)
    ensures Extended(BigEndianValue(pre), ext) == BigEndianValue(pre + ext)
    decreases |ext|
  {
    if ext == [] {
      assert pre + ext == pre;
    } else {
      var pre' := pre + [ext[0]];
      assert pre'[..|pre|] == pre;
      ExtendedIsBigEndian(pre', ext[1..]);
      assert pre' + ext[1..] == pre + ext;
    }
  }

  lemma StepTaken(s: State, next: State, input: seq<byte>, i: nat)
    requires Sound(s) && !Done(s) && i < |input| && Step(s, input[i]) == Ok(next)
    ensures Feed(s, input, i) == Feed(next, input, i + 1)
  {
  }

  lemma NextShifts(ty: MajorType, v: nat, b: byte)
    requires v * 256 < TWO64
    ensures Next(Head(ty, v), b) == Head(ty, v * 256 + b)
  {
  }

  lemma FeedExtensionByte(p: nat, ty: MajorType, v: nat, k: nat, input: seq<byte>, i: nat)
    requires p > 0 && k > 0 && i < |input| && v * 256 < TWO64
    ensures Feed(Advance(p, Head(ty, v), k), input, i) ==
            Feed(Advance(p, Head(ty, v * 256 + input[i]), k - 1), input, i + 1)
  {
    NextShifts(ty, v, input[i]);
    StepTaken(State(p, k, Some(Head(ty, v))), Advance(p, Head(ty, v * 256 + input[i]), k - 1), input, i);
  }

  lemma {:induction false} ExtendedGrows(v: nat, ext: seq<byte>)
    ensures Extended(v, ext) >= v
    decreases |ext|
  {
    if ext != [] {
      ExtendedGrows(v * 256 + ext[0], ext[1..]);
    }
  }

  // The number in at most eight bytes.
  lemma ExtendedFits(ext: seq<byte>)
    requires |ext| <= 8
    ensures Extended(0, ext) == BigEndianValue(ext) < TWO64
  {
    ExtendedIsBigEndian([], ext);
    assert [] + ext == ext;
    BigEndianValueBound(ext);
    PowersOf256();
    Pow256Monotone(|ext|, 8);
  }

  // The extension bytes of a head build its argument; one that fits does not overflow.
  lemma {:induction false} FeedExtension(p: nat, ty: MajorType, v: nat, ext: seq<byte>, input: seq<byte>, i: nat)
    requires p > 0 && Extended(v, ext) < TWO64
    requires At(input, i, ext)
    ensures Feed(Advance(p, Head(ty, v), |ext|), input, i) ==
            Feed(Complete(p, Head(ty, Extended(v, ext))), input, i + |ext|)
    decreases |ext|
  {
    if ext != [] {
      var longer, rest := v * 256 + ext[0], ext[1..];
      AtFirst(input, i, ext);
      ExtendedGrows(longer, rest);
      FeedExtensionByte(p, ty, v, |ext|, input, i);
      FeedExtension(p, ty, longer, rest, input, i + 1);
    }
  }

  // The two parts of the first byte of a head.
  lemma FirstByteParts(ty: MajorType, info: nat, b: byte)
    requires info < 28 && b == TypeCode(ty) * 32 + info
    ensures b / 32 == TypeCode(ty) && b % 32 == info && MajorTypeOf(b / 32) == ty
  {
  }

  // Which first bytes are refused: major type 7, whatever follows, and otherwise reserved or
  // indefinite lengths.
  lemma FirstRefusesIff(b: byte)
    ensures First(b) == Err(InvalidHeadType) <==> b >= 224
    ensures First(b) == Err(InvalidHeadValue) <==> b < 224 && b % 32 >= 28
  {
    assert b == 32 * (b / 32) + b % 32;
  }

  // What First makes of it.
  lemma FirstReads(ty: MajorType, w: Width, v: nat, b: byte)
    requires ty != Special && Fits(w, v) && b == TypeCode(ty) * 32 + AdditionalInformation(w, v)
    ensures First(b) == Ok((Head(ty, if w == Inline then v else 0), ExtensionLength(w)))
  {
    FirstByteParts(ty, AdditionalInformation(w, v), b);
  }

  lemma FeedFirstByte(p: nat, ty: MajorType, w: Width, v: nat, input: seq<byte>, i: nat)
    requires p > 0 && ty != Special && Fits(w, v) && i < |input|
    requires input[i] == TypeCode(ty) * 32 + AdditionalInformation(w, v)
    ensures Feed(State(p, 0, None), input, i) ==
            Feed(Advance(p, Head(ty, if w == Inline then v else 0), ExtensionLength(w)), input, i + 1)
  {
    FirstReads(ty, w, v, input[i]);
  }

  lemma FeedHead(p: nat, ty: MajorType, w: Width, v: nat, input: seq<byte>, i: nat)
    requires p > 0 && ty != Special && Fits(w, v)
    requires At(input, i, HeadBytes(ty, w, v))
    ensures Feed(State(p, 0, None), input, i) ==
            Feed(Complete(p, Head(ty, v)), input, i + 1 + ExtensionLength(w))
  {
    var ext := BigEndian(v, ExtensionLength(w));
    AtFirst(input, i, HeadBytes(ty, w, v));
    assert HeadBytes(ty, w, v)[1..] == ext;
    FeedFirstByte(p, ty, w, v, input, i);
    if w != Inline {
      ExtendedFits(ext);
      FeedExtension(p, ty, 0, ext, input, i + 1);
      BigEndianRoundTrip(v, ExtensionLength(w));
    }
  }

  // Items the machine expects after the head of `it`.
  function Announced(it: Item): nat {
    Pushed(Head(TypeOf(it), Argument(it)))
  }

  // An item that the machine can read to the end: every container holds what its
  // head makes the machine expect.
  predicate Accepted(it: Item) {
    !it.Simple? && Fits(WidthOf(it), Argument(it)) && |Children(it)| == Announced(it) &&
    forall c | c in Children(it) :: Accepted(c)
  }

  // No container holds less than the machine expects.
  predicate Covered(it: Item) {
    Fits(WidthOf(it), Argument(it)) && |Children(it)| >= Announced(it) &&
    forall c | c in Children(it) :: Covered(c)
  }

  // How many of the items in the tree the machine never comes to expect.
  function Deficit(it: Item): nat
    requires Covered(it)
    decreases it
  {
    |Children(it)| - Announced(it) +
    match it
    case List(_, items) => DeficitAll(items)
    case Dictionary(_, _, flat) => DeficitAll(flat)
    case Tagged(_, _, item) => Deficit(item)
    case _ => 0
  }

  function DeficitAll(its: seq<Item>): nat
    requires forall it | it in its :: Covered(it)
    decreases its
  {
    if its == [] then 0 else Deficit(its[0]) + DeficitAll(its[1..])
  }

  lemma DeficitByChildren(it: Item)
    requires Covered(it)
    ensures forall c | c in Children(it) :: Covered(c)
    ensures Deficit(it) == |Children(it)| - Announced(it) + DeficitAll(Children(it))
  {
    if it.Tagged? {
      assert DeficitAll([it.item]) == Deficit(it.item) + DeficitAll([]);
    }
  }

  lemma {:induction false} DeficitAllAppend(a: seq<Item>, b: seq<Item>)
    requires forall it | it in a :: Covered(it)
    requires forall it | it in b :: Covered(it)
    ensures DeficitAll(a + b) == DeficitAll(a) + DeficitAll(b)
  {
    if a == [] {
      assert a + b == b;
    } else {
      assert (a + b)[1..] == a[1..] + b;
      DeficitAllAppend(a[1..], b);
    }
  }

  lemma {:induction false} DeficitAllZero(its: seq<Item>)
    requires forall it | it in its :: Covered(it)
    ensures DeficitAll(its) == 0 <==> forall it | it in its :: Deficit(it) == 0
  {
    if its != [] {
      var tail := its[1..];
      DeficitAllZero(tail);
      assert DeficitAll(its) == Deficit(its[0]) + DeficitAll(tail);
      if DeficitAll(its) == 0 {
        forall it | it in its ensures Deficit(it) == 0 {
          assert it == its[0] || it in tail;
        }
      } else if Deficit(its[0]) == 0 {
        var c :| c in tail && Deficit(c) != 0;
        assert c in its;
      } else {
        assert its[0] in its;
      }
    }
  }

  predicate AnySimple(its: seq<Item>) {
    exists it | it in its :: HasSimple(it)
  }

  // A work list the machine may or may not expect all of, standing at position i.
  ghost predicate Pending(its: seq<Item>, input: seq<byte>, i: nat) {
    (forall it | it in its :: Covered(it)) &&
    At(input, i, EncodeAll(its))
  }

  function Cost(its: seq<Item>): nat
    requires forall it | it in its :: Covered(it)
  {
    |its| + DeficitAll(its)
  }

  // The first item of a work list makes way for its children.
  function Unfolded(its: seq<Item>): seq<Item>
    requires its != []
  {
    Children(its[0]) + its[1..]
  }

  lemma UnfoldBytes(its: seq<Item>)
    requires its != []
    ensures EncodeAll(its) == HeadOf(its[0]) + (Payload(its[0]) + EncodeAll(Unfolded(its)))
  {
    EncodeByChildren(its[0]);
    EncodeAllAppend(Children(its[0]), its[1..]);
    Regroup(HeadOf(its[0]), Payload(its[0]), EncodeAll(Children(its[0])), EncodeAll(its[1..]));
  }

  lemma Regroup(a: seq<byte>, b: seq<byte>, c: seq<byte>, d: seq<byte>)
    ensures a + b + c + d == a + (b + (c + d))
  {
  }

  lemma UnfoldCost(its: seq<Item>)
    requires its != [] && forall it | it in its :: Covered(it)
    ensures forall it | it in Unfolded(its) :: Covered(it)
    ensures Cost(Unfolded(its)) + 1 == Cost(its) + Announced(its[0])
  {
    DeficitByChildren(its[0]);
    DeficitAllAppend(Children(its[0]), its[1..]);
  }

  lemma UnfoldSimple(its: seq<Item>)
    requires its != [] && !its[0].Simple?
    ensures AnySimple(Unfolded(its)) == AnySimple(its)
  {
    var rest := Unfolded(its);
    if AnySimple(rest) {
      var c :| c in rest && HasSimple(c);
      assert c in Children(its[0]) || c in its[1..];
      assert HasSimple(its[0]) || c in its;
    }
    if AnySimple(its) {
      var it :| it in its && HasSimple(it);
      if it == its[0] {
        var c :| c in Children(it) && HasSimple(c);
        assert c in rest;
      } else {
        assert it in its[1..];
        assert it in rest;
      }
    }
  }

  lemma CompleteItem(p: nat, it: Item)
    requires p > 0
    ensures Complete(p, Head(TypeOf(it), Argument(it))) == State(p - 1 + Announced(it), |Payload(it)|, None)
  {
  }

  lemma FeedItemHead(p: nat, it: Item, input: seq<byte>, i: nat)
    requires p > 0 && !it.Simple? && Fits(WidthOf(it), Argument(it)) && At(input, i, HeadOf(it))
    ensures Feed(State(p, 0, None), input, i) ==
            Feed(State(p - 1 + Announced(it), |Payload(it)|, None), input, i + |HeadOf(it)|)
  {
    FeedHead(p, TypeOf(it), WidthOf(it), Argument(it), input, i);
    CompleteItem(p, it);
  }

  lemma FeedHeadAndPayload(p: nat, it: Item, input: seq<byte>, i: nat, j: nat)
    requires p > 0 && !it.Simple? && Fits(WidthOf(it), Argument(it))
    requires At(input, i, HeadOf(it)) && i + |HeadOf(it)| + |Payload(it)| == j <= |input|
    ensures Feed(State(p, 0, None), input, i) == Feed(State(p - 1 + Announced(it), 0, None), input, j)
  {
    FeedItemHead(p, it, input, i);
    FeedPayload(p - 1 + Announced(it), |Payload(it)|, |Payload(it)|, input, i + |HeadOf(it)|);
  }

  lemma FirstItemBytes(its: seq<Item>, input: seq<byte>, i: nat, j: nat)
    requires its != [] && At(input, i, EncodeAll(its))
    requires j == i + |HeadOf(its[0])| + |Payload(its[0])|
    ensures At(input, i, HeadOf(its[0])) && j <= |input|
    ensures At(input, j, EncodeAll(Unfolded(its)))
    ensures j + |EncodeAll(Unfolded(its))| == i + |EncodeAll(its)|
  {
    UnfoldBytes(its);
    AtThree(input, i, j, EncodeAll(its), HeadOf(its[0]), Payload(its[0]), EncodeAll(Unfolded(its)));
  }

  // The first item turns the work list into its children followed by the rest.
  lemma FeedFirst(p: nat, its: seq<Item>, input: seq<byte>, i: nat) returns (p': nat, rest: seq<Item>, j: nat)
    requires p > 0 && its != [] && !its[0].Simple?
    requires Pending(its, input, i)
    ensures i < j && Pending(rest, input, j)
    ensures j + |EncodeAll(rest)| == i + |EncodeAll(its)|
    ensures Feed(State(p, 0, None), input, i) == Feed(State(p', 0, None), input, j)
    ensures p - Cost(its) == p' - Cost(rest) && AnySimple(rest) == AnySimple(its)
  {
    assert Covered(its[0]);
    j := i + |HeadOf(its[0])| + |Payload(its[0])|;
    FirstItemBytes(its, input, i, j);
    FeedHeadAndPayload(p, its[0], input, i, j);
    UnfoldCost(its);
    UnfoldSimple(its);
    p', rest := p - 1 + Announced(its[0]), Unfolded(its);
  }

  lemma FeedSimple(p: nat, its: seq<Item>, input: seq<byte>, i: nat)
    requires p > 0 && its != [] && its[0].Simple?
    requires Pending(its, input, i)
    ensures Feed(State(p, 0, None), input, i) == Fail(InvalidHeadType, i)
    ensures AnySimple(its) && |EncodeAll(its)| > 0
  {
    var head := HeadOf(its[0]);
    assert EncodeAll(its) == Encode(its[0]) + EncodeAll(its[1..]);
    assert Encode(its[0]) == head;
    AtSplit(input, i, head, EncodeAll(its[1..]));
    AtFirst(input, i, head);
    assert its[0] in its;
  }

  // The machine against a work list that ends at `end`, with `surplus` more items pending
  // than the list costs. It reads the list whole when the surplus is not negative and it
  // meets no major type 7 head; otherwise it stops before the end, on such a head or
  // because it expects nothing more.
  ghost predicate Verdict(f: Fed, surplus: int, simple: bool, input: seq<byte>, end: nat)
    requires end <= |input|
  {
    if !simple && surplus >= 0 then
      f == Feed(State(surplus, 0, None), input, end)
    else
      (if f.More? then f.state == FINISHED && f.consumed < end else f.error == InvalidHeadType && f.at < end) &&
      (surplus >= 0 ==> f.Fail?) && (!simple ==> f.More?)
  }

  // No item left, or none expected any more.
  lemma ForestEnds(p: nat, its: seq<Item>, input: seq<byte>, i: nat) returns (f: Fed)
    requires Pending(its, input, i) && (its == [] || p == 0)
    ensures f == Feed(State(p, 0, None), input, i)
    ensures Verdict(f, p - Cost(its), AnySimple(its), input, i + |EncodeAll(its)|)
  {
    f := Feed(State(p, 0, None), input, i);
    if its != [] {
      assert Encode(its[0]) != [];
    }
  }

  lemma {:induction false} FeedForest(p: nat, its: seq<Item>, input: seq<byte>, i: nat) returns (f: Fed)
    requires Pending(its, input, i)
    ensures f == Feed(State(p, 0, None), input, i)
    ensures Verdict(f, p - Cost(its), AnySimple(its), input, i + |EncodeAll(its)|)
    decreases |EncodeAll(its)|
  {
    if its == [] || p == 0 {
      f := ForestEnds(p, its, input, i);
    } else if its[0].Simple? {
      FeedSimple(p, its, input, i);
      f := Fail(InvalidHeadType, i);
    } else {
      var p', rest, j := FeedFirst(p, its, input, i);
      f := FeedForest(p', rest, input, j);
    }
  }

  lemma ArgumentBound(it: Item)
    requires Fits(WidthOf(it), Argument(it))
    ensures Argument(it) < TWO64
  {
    if WidthOf(it) != Inline {
      PowersOf256();
      Pow256Monotone(ExtensionLength(WidthOf(it)), 8);
    }
  }

  ghost predicate CoverageAgrees(it: Item) {
    Covered(it) && (Deficit(it) == 0 <==> !HasWideMap(it)) && (Accepted(it) <==> !HasSimple(it) && !HasWideMap(it))
  }

  predicate IsWide(it: Item) {
    it.Dictionary? && it.count >= TWO63
  }

  lemma Doubled(n: nat)
    requires n < TWO64
    ensures (2 * n) % TWO64 == if n < TWO63 then 2 * n else 2 * n - TWO64
  {
  }

  // The doubled count of a wide map is the only one that falls short.
  lemma AnnouncedOrWide(it: Item)
    requires Fits(WidthOf(it), Argument(it)) && (it.Dictionary? ==> |it.flat| == 2 * it.count)
    ensures Announced(it) <= |Children(it)| && (Announced(it) == |Children(it)| <==> !IsWide(it))
  {
    ArgumentBound(it);
    if it.Dictionary? {
      Doubled(it.count);
    }
  }

  lemma CoverageFromChildren(it: Item)
    requires WellFormed(it) && forall c | c in Children(it) :: CoverageAgrees(c)
    ensures CoverageAgrees(it)
  {
    AnnouncedOrWide(it);
    DeficitFromChildren(it);
    AcceptedFromChildren(it);
  }

  lemma DeficitFromChildren(it: Item)
    requires Fits(WidthOf(it), Argument(it)) && Announced(it) <= |Children(it)|
    requires Announced(it) == |Children(it)| <==> !IsWide(it)
    requires forall c | c in Children(it) :: Covered(c) && (Deficit(c) == 0 <==> !HasWideMap(c))
    ensures Covered(it) && (Deficit(it) == 0 <==> !HasWideMap(it))
  {
    DeficitByChildren(it);
    DeficitAllZero(Children(it));
  }

  lemma AcceptedFromChildren(it: Item)
    requires Fits(WidthOf(it), Argument(it)) && (Announced(it) == |Children(it)| <==> !IsWide(it))
    requires forall c | c in Children(it) :: Accepted(c) <==> !HasSimple(c) && !HasWideMap(c)
    ensures Accepted(it) <==> !HasSimple(it) && !HasWideMap(it)
  {
  }

  // On an item of the grammar the machine falls short exactly when a map announces
  // 2^63 pairs or more: the doubled count wraps around.
  lemma {:induction false} CoverageOfWellFormed(it: Item)
    requires WellFormed(it)
    ensures CoverageAgrees(it)
    decreases it
  {
    forall c | c in Children(it)
      ensures CoverageAgrees(c)
    {
      CoverageOfWellFormed(c);
    }
    CoverageFromChildren(it);
  }

  lemma {:induction false} CoverageOfAccepted(it: Item)
    requires Accepted(it)
    ensures Covered(it) && Deficit(it) == 0 && !HasSimple(it)
    decreases it
  {
    forall c | c in Children(it)
      ensures Covered(c) && Deficit(c) == 0 && !HasSimple(c)
    {
      CoverageOfAccepted(c);
    }
    DeficitByChildren(it);
    DeficitAllZero(Children(it));
  }

  // One item on its own, from the start of an object.
  lemma FeedOne(it: Item, input: seq<byte>, i: nat)
    requires Covered(it) && At(input, i, Encode(it))
    ensures Verdict(Feed(START, input, i), 0 - Deficit(it) as int, HasSimple(it), input, i + |Encode(it)|)
  {
    assert EncodeAll([it]) == Encode(it) + EncodeAll([]) == Encode(it);
    assert DeficitAll([it]) == Deficit(it) + DeficitAll([]);
    var _ := FeedForest(1, [it], input, i);
    assert it in [it];
  }

  // Exact framing: the machine takes the bytes of an item and not one byte more, whatever
  // follows, if and only if the item holds no major type 7 item and no map of 2^63 pairs.
  lemma FramedExactlyIff(it: Item, rest: seq<byte>)
    requires WellFormed(it)
    ensures Feed(START, Encode(it) + rest, 0) == More(FINISHED, |Encode(it)|) <==> !HasSimple(it) && !HasWideMap(it)
  {
    CoverageOfWellFormed(it);
    FeedOne(it, Encode(it) + rest, 0);
  }

  // A map head of 2^63 pairs pushes 2 * 2^63 mod 2^64 = 0 items: the object seems whole.
  lemma WideMapEndsEarly(rest: seq<byte>)
    requires Fits(Eight, TWO63)
    ensures Feed(START, HeadBytes(Map, Eight, TWO63) + rest, 0) == More(FINISHED, 9)
  {
    FeedHead(1, Map, Eight, TWO63, HeadBytes(Map, Eight, TWO63) + rest, 0);
  }

  lemma {:induction false} EncodingsAreLong(its: seq<Item>)
    ensures |its| <= |EncodeAll(its)|
    ensures forall it | it in its :: |Encode(it)| <= |EncodeAll(its)|
  {
    if its != [] {
      EncodingsAreLong(its[1..]);
      assert forall it | it in its :: it == its[0] || it in its[1..];
    }
  }

  // No object a 64-bit machine can hold contains a map of 2^63 pairs.
  lemma {:induction false} AddressableHasNoWideMap(it: Item)
    requires WellFormed(it)
    requires |Encode(it)| < TWO64
    ensures !HasWideMap(it)
    decreases it
  {
    EncodeByChildren(it);
    EncodingsAreLong(Children(it));
    forall c | c in Children(it) ensures !HasWideMap(c) {
      AddressableHasNoWideMap(c);
    }
  }

  // Feeding more input does not change what was done with the first part.
  lemma {:induction false} FeedAppend(s: State, a: seq<byte>, b: seq<byte>, i: nat)
    requires Sound(s) && i <= |a|
    ensures match Feed(s, a, i)
            case Fail(e, at) => Feed(s, a + b, i) == Fail(e, at)
            case More(s', n) => Feed(s, a + b, i) == Feed(s', a + b, n) && (Done(s') || n == |a|)
    decreases |a| - i
  {
    if !Done(s) && i < |a| {
      assert (a + b)[i] == a[i];
      match Step(s, a[i])
      case Err(_) =>
      case Ok(s') => FeedAppend(s', a, b, i + 1);
    }
  }

  // `consume` on an unfinished object finishes it or eats the whole input.
  lemma Progress(s: State, input: seq<byte>)
    requires Sound(s) && Feed(s, input, 0).More?
    ensures Done(Feed(s, input, 0).state) || Feed(s, input, 0).consumed == |input|
  {
    FeedAppend(s, input, [], 0);
  }

  // On every proper prefix of an item the machine takes all bytes and is not done.
  lemma ProperPrefixIsNotDone(it: Item, k: nat)
    requires WellFormed(it) && !HasSimple(it) && !HasWideMap(it)
    requires k < |Encode(it)|
    ensures var f := Feed(START, Encode(it)[..k], 0);
            f.More? && f.consumed == k && !Done(f.state)
  {
    var a, b := Encode(it)[..k], Encode(it)[k..];
    assert a + b == Encode(it) == Encode(it) + [];
    FramedExactlyIff(it, []);
    FeedAppend(START, a, b, 0);
  }

  function Shifted(f: Fed, n: nat): Fed {
    match f
    case More(s, c) => More(s, n + c)
    case Fail(e, at) => Fail(e, n + at)
  }

  lemma {:induction false} FeedShift(s: State, a: seq<byte>, b: seq<byte>, i: nat)
    requires Sound(s) && i <= |b|
    ensures Feed(s, a + b, |a| + i) == Shifted(Feed(s, b, i), |a|)
    decreases |b| - i
  {
    if !Done(s) && i < |b| {
      assert (a + b)[|a| + i] == b[i];
      match Step(s, b[i])
      case Err(_) =>
      case Ok(s') => FeedShift(s', a, b, i + 1);
    }
  }

  // A reader that hands over one chunk after the other until the object is done.
  function FeedChunks(s: State, chunks: seq<seq<byte>>): Fed
    requires Sound(s)
    decreases |chunks|
  {
    if Done(s) || chunks == [] then More(s, 0)
    else match Feed(s, chunks[0], 0)
      case Fail(e, at) => Fail(e, at)
      case More(s', n) => Shifted(FeedChunks(s', chunks[1..]), n)
  }

  // Chunk independence: however the bytes are cut, the same state is reached after the
  // same number of bytes, or the same byte is refused.
  lemma {:induction false} CutsDoNotMatter(s: State, chunks: seq<seq<byte>>)
    requires Sound(s)
    ensures FeedChunks(s, chunks) == Feed(s, Flatten(chunks), 0)
    decreases |chunks|
  {
    if !Done(s) && chunks != [] {
      var a, b := chunks[0], Flatten(chunks[1..]);
      FeedAppend(s, a, b, 0);
      match Feed(s, a, 0)
      case Fail(_, _) =>
      case More(s', n) =>
        CutsDoNotMatter(s', chunks[1..]);
        if !Done(s') {
          FeedShift(s', a, b, 0);
        }
    }
  }

  // `moreBytes` never asks for more than any completion of the object still has.
  lemma {:induction false} SafeReadSize(s: State, input: seq<byte>, i: nat)
    requires Sound(s) && i <= |input|
    requires Feed(s, input, i).More? && Done(Feed(s, input, i).state)
    ensures Missing(s) <= Feed(s, input, i).consumed - i
    decreases |input| - i
  {
    if !Done(s) {
      SafeReadSize(Step(s, input[i]).value, input, i + 1);
    }
  }

  // With fewer bytes than a head misses, the head stays open.
  lemma {:induction false} FeedStarved(p: nat, ty: MajorType, v: nat, k: nat, input: seq<byte>, i: nat)
    requires p > 0 && i <= |input| < i + k
    ensures Feed(Advance(p, Head(ty, v), k), input, i).More?
    ensures !Done(Feed(Advance(p, Head(ty, v), k), input, i).state)
    decreases |input| - i
  {
    if i < |input| {
      FeedStarved(p, ty, Next(Head(ty, v), input[i]).value, k - 1, input, i + 1);
    }
  }

  predicate Ends(f: Fed, end: nat) {
    f == More(FINISHED, end)
  }

  // If the object ends, the extension bytes of an open head are all there.
  lemma NextExtension(p: nat, ty: MajorType, w: Width, input: seq<byte>, i: nat, end: nat) returns (v: nat)
    requires p > 0 && w != Inline && i <= |input|
    requires Ends(Feed(Advance(p, Head(ty, 0), ExtensionLength(w)), input, i), end)
    ensures Fits(w, v) && i + ExtensionLength(w) <= |input|
    ensures input[i..i + ExtensionLength(w)] == BigEndian(v, ExtensionLength(w))
    ensures Ends(Feed(Complete(p, Head(ty, v)), input, i + ExtensionLength(w)), end)
  {
    var k := ExtensionLength(w);
    if |input| < i + k {
      FeedStarved(p, ty, 0, k, input, i);
    }
    var ext := input[i..i + k];
    ExtendedFits(ext);
    FeedExtension(p, ty, 0, ext, input, i);
    BigEndianValueBound(ext);
    v := BigEndianValue(ext);
  }

  lemma NextFirstByte(p: nat, input: seq<byte>, i: nat, end: nat) returns (ty: MajorType, w: Width)
    requires p > 0 && i <= |input| && Ends(Feed(State(p, 0, None), input, i), end)
    ensures ty != Special && i < |input|
    ensures w == Inline ==> input[i] % 32 < 24
    ensures input[i] == TypeCode(ty) * 32 + AdditionalInformation(w, input[i] % 32)
    ensures var v := if w == Inline then input[i] % 32 else 0;
            Ends(Feed(Advance(p, Head(ty, v), ExtensionLength(w)), input, i + 1), end)
  {
    var info := input[i] % 32;
    ty := MajorTypeOf(input[i] / 32);
    w := if info < 24 then Inline
         else if info == 24 then One
         else if info == 25 then Two
         else if info == 26 then Four
         else Eight;
    assert TypeCode(ty) == input[i] / 32;
    assert First(input[i]).Ok?;
  }

  // If the object ends, its next bytes are a head that fits its width.
  lemma NextHead(p: nat, input: seq<byte>, i: nat, end: nat) returns (ty: MajorType, w: Width, v: nat, j: nat)
    requires p > 0 && i <= |input| && Ends(Feed(State(p, 0, None), input, i), end)
    ensures ty != Special && Fits(w, v) && i < j <= |input|
    ensures input[i..j] == HeadBytes(ty, w, v)
    ensures Ends(Feed(Complete(p, Head(ty, v)), input, j), end)
  {
    ty, w := NextFirstByte(p, input, i, end);
    j := i + 1 + ExtensionLength(w);
    v := input[i] % 32;
    if w != Inline {
      v := NextExtension(p, ty, w, input, i + 1, end);
    }
    HeadSlice(input, i, ty, w, v);
  }

  lemma HeadSlice(input: seq<byte>, i: nat, ty: MajorType, w: Width, v: nat)
    requires i + 1 + ExtensionLength(w) <= |input|
    requires input[i] == TypeCode(ty) * 32 + AdditionalInformation(w, v)
    requires input[i + 1..i + 1 + ExtensionLength(w)] == BigEndian(v, ExtensionLength(w))
    ensures input[i..i + 1 + ExtensionLength(w)] == HeadBytes(ty, w, v)
  {
  }

  // If the object ends, a payload is all there.
  lemma NextPayload(p: nat, n: nat, input: seq<byte>, i: nat, end: nat)
    requires i <= |input| && Ends(Feed(State(p, n, None), input, i), end)
    ensures i + n <= |input| && Ends(Feed(State(p, 0, None), input, i + n), end)
  {
    FeedPayload(p, n, Min(n, |input| - i), input, i);
  }

  // The item with a given head, payload and children.
  function Build(ty: MajorType, w: Width, v: nat, payload: seq<byte>, children: seq<Item>): (it: Item)
    requires ty != Special && Fits(w, v) && |payload| == PayloadLength(Head(ty, v))
    requires |children| == Pushed(Head(ty, v))
    ensures TypeOf(it) == ty && WidthOf(it) == w && Argument(it) == v
    ensures Payload(it) == payload && Children(it) == children
  {
    match ty
    case Unsigned => Integer(false, w, v)
    case Signed => Integer(true, w, v)
    case Bytes => String(false, w, payload)
    case Text => String(true, w, payload)
    case Array => List(w, children)
    case Map => Dictionary(w, v, children)
    case Tag => Tagged(w, v, children[0])
  }

  // One head and its payload.
  lemma NextItem(p: nat, input: seq<byte>, i: nat, end: nat) returns (ty: MajorType, w: Width, v: nat, j: nat, k: nat)
    requires p > 0 && i <= |input| && Ends(Feed(State(p, 0, None), input, i), end)
    ensures ty != Special && Fits(w, v) && i < j <= k <= |input| && k - j == PayloadLength(Head(ty, v))
    ensures input[i..j] == HeadBytes(ty, w, v)
    ensures Ends(Feed(State(p - 1 + Pushed(Head(ty, v)), 0, None), input, k), end)
  {
    ty, w, v, j := NextHead(p, input, i, end);
    k := j + PayloadLength(Head(ty, v));
    NextPayload(p - 1 + Pushed(Head(ty, v)), PayloadLength(Head(ty, v)), input, j, end);
  }

  // Whenever the machine finishes, the bytes it took are the items it expected.
  lemma {:induction false} Parse(p: nat, input: seq<byte>, i: nat, end: nat) returns (its: seq<Item>)
    requires i <= |input| && Ends(Feed(State(p, 0, None), input, i), end)
    ensures i <= end <= |input| && |its| == p
    ensures forall it | it in its :: Accepted(it)
    ensures EncodeAll(its) == input[i..end]
    decreases |input| - i
  {
    if p == 0 {
      its := [];
    } else {
      var ty, w, v, j, k := NextItem(p, input, i, end);
      var rest := Parse(p - 1 + Pushed(Head(ty, v)), input, k, end);
      its := Assemble(ty, w, v, input[j..k], rest);
      SliceThree(input, i, j, k, end);
    }
  }

  lemma SliceThree(input: seq<byte>, i: nat, j: nat, k: nat, end: nat)
    requires i <= j <= k <= end <= |input|
    ensures input[i..end] == input[i..j] + (input[j..k] + input[k..end])
  {
  }

  lemma Assemble(ty: MajorType, w: Width, v: nat, payload: seq<byte>, rest: seq<Item>) returns (its: seq<Item>)
    requires ty != Special && Fits(w, v) && |payload| == PayloadLength(Head(ty, v))
    requires |rest| >= Pushed(Head(ty, v))
    requires forall it | it in rest :: Accepted(it)
    ensures |its| + Pushed(Head(ty, v)) == |rest| + 1
    ensures forall it | it in its :: Accepted(it)
    ensures EncodeAll(its) == HeadBytes(ty, w, v) + (payload + EncodeAll(rest))
  {
    var c := Pushed(Head(ty, v));
    var it := Build(ty, w, v, payload, rest[..c]);
    its := [it] + rest[c..];
    assert rest == rest[..c] + rest[c..] == Unfolded(its);
    UnfoldBytes(its);
  }

  lemma FinishedIsItem(input: seq<byte>, n: nat) returns (it: Item)
    requires Ends(Feed(START, input, 0), n)
    ensures n <= |input| && Accepted(it) && Encode(it) == input[..n]
  {
    var its := Parse(1, input, 0, n);
    it := its[0];
    assert EncodeAll(its) == Encode(it) + [];
    assert input[0..n] == input[..n];
  }

  lemma ItemIsFinished(it: Item, input: seq<byte>)
    requires Accepted(it) && At(input, 0, Encode(it))
    ensures Ends(Feed(START, input, 0), |Encode(it)|)
  {
    CoverageOfAccepted(it);
    FeedOne(it, input, 0);
  }

  // The machine finishes after n bytes if and only if those bytes are one item every
  // container of which holds what its head announces.
  lemma FinishesIffItem(input: seq<byte>, n: nat)
    requires n <= |input|
    ensures Feed(START, input, 0) == More(FINISHED, n) <==>
            exists it :: Accepted(it) && Encode(it) == input[..n]
  {
    if Ends(Feed(START, input, 0), n) {
      var it := FinishedIsItem(input, n);
    }
    if it :| Accepted(it) && Encode(it) == input[..n] {
      ItemIsFinished(it, input);
    }
  }

  // ---------------------------------------------------------------- items of RFC 7049

  // What the machine is for: items of section 2.1 of RFC 7049 without the two kinds it
  // cannot read.
  predicate Readable(it: Item) {
    WellFormed(it) && !HasSimple(it) && !HasWideMap(it)
  }

  // What the machine reads is an item of the grammar exactly if no map announces 2^63
  // pairs; such a map announces more than it holds.
  lemma {:induction false} AcceptedIsWellFormedIff(it: Item)
    requires Accepted(it)
    ensures !HasSimple(it) && (WellFormed(it) <==> !HasWideMap(it))
    decreases it
  {
    CoverageOfAccepted(it);
    ArgumentBound(it);
    forall c | c in Children(it) ensures WellFormed(c) <==> !HasWideMap(c) {
      AcceptedIsWellFormedIff(c);
    }
  }

  // This byte completes a map head of 2^63 pairs or more: the doubled count wraps.
  predicate CompletesWide(s: State, b: byte)
    requires Sound(s)
  {
    s.head.Some? && s.moreBytes == 1 && s.head.value.ty == Map && Next(s.head.value, b).value >= TWO63
  }

  // The machine, fed from position i, meets such a head.
  predicate MeetsWide(s: State, input: seq<byte>, i: nat)
    requires Sound(s) && i <= |input|
    decreases |input| - i
  {
    if Done(s) || i == |input| then false
    else match Step(s, input[i])
      case Err(_) => false
      case Ok(s') => CompletesWide(s, input[i]) || MeetsWide(s', input, i + 1)
  }

  lemma {:induction false} WideAfterPayload(p: nat, k: nat, input: seq<byte>, i: nat)
    requires i + k <= |input|
    ensures MeetsWide(State(p, k, None), input, i) == MeetsWide(State(p, 0, None), input, i + k)
    decreases k
  {
    if k > 0 {
      WideAfterPayload(p, k - 1, input, i + 1);
    }
  }

  lemma WideExtensionByte(p: nat, ty: MajorType, v: nat, k: nat, input: seq<byte>, i: nat)
    requires p > 0 && k > 0 && i < |input| && v * 256 + input[i] < TWO64
    ensures MeetsWide(State(p, k, Some(Head(ty, v))), input, i) <==>
            (k == 1 && ty == Map && v * 256 + input[i] >= TWO63) ||
            MeetsWide(Advance(p, Head(ty, v * 256 + input[i]), k - 1), input, i + 1)
  {
    assert Next(Head(ty, v), input[i]).value == v * 256 + input[i];
  }

  lemma {:induction false} WideExtension(p: nat, ty: MajorType, v: nat, ext: seq<byte>, input: seq<byte>, i: nat)
    requires p > 0 && ext != [] && Extended(v, ext) < TWO64 && At(input, i, ext)
    ensures MeetsWide(State(p, |ext|, Some(Head(ty, v))), input, i) <==>
            (ty == Map && Extended(v, ext) >= TWO63) ||
            MeetsWide(Complete(p, Head(ty, Extended(v, ext))), input, i + |ext|)
    decreases |ext|
  {
    AtFirst(input, i, ext);
    ExtendedGrows(v * 256 + ext[0], ext[1..]);
    WideExtensionByte(p, ty, v, |ext|, input, i);
    if |ext| > 1 {
      WideExtension(p, ty, v * 256 + ext[0], ext[1..], input, i + 1);
    } else {
      assert ext[1..] == [];
    }
  }

  lemma WideFirstByte(p: nat, ty: MajorType, w: Width, v: nat, input: seq<byte>, i: nat)
    requires p > 0 && ty != Special && Fits(w, v) && i < |input|
    requires input[i] == TypeCode(ty) * 32 + AdditionalInformation(w, v)
    ensures MeetsWide(State(p, 0, None), input, i) ==
            MeetsWide(Advance(p, Head(ty, if w == Inline then v else 0), ExtensionLength(w)), input, i + 1)
  {
    FirstReads(ty, w, v, input[i]);
  }

  lemma WideAfterHead(p: nat, ty: MajorType, w: Width, v: nat, input: seq<byte>, i: nat)
    requires p > 0 && ty != Special && Fits(w, v)
    requires At(input, i, HeadBytes(ty, w, v))
    ensures MeetsWide(State(p, 0, None), input, i) <==>
            (ty == Map && v >= TWO63) || MeetsWide(Complete(p, Head(ty, v)), input, i + 1 + ExtensionLength(w))
  {
    var ext := BigEndian(v, ExtensionLength(w));
    AtFirst(input, i, HeadBytes(ty, w, v));
    assert HeadBytes(ty, w, v)[1..] == ext;
    WideFirstByte(p, ty, w, v, input, i);
    if w != Inline {
      ExtendedFits(ext);
      WideExtension(p, ty, 0, ext, input, i + 1);
      BigEndianRoundTrip(v, ExtensionLength(w));
    }
  }

  predicate AnyWide(its: seq<Item>) {
    exists it | it in its :: HasWideMap(it)
  }

  lemma UnfoldWide(its: seq<Item>)
    requires its != []
    ensures AnyWide(its) <==> IsWide(its[0]) || AnyWide(Unfolded(its))
  {
    var rest := Unfolded(its);
    if AnyWide(rest) {
      var c :| c in rest && HasWideMap(c);
      assert c in Children(its[0]) || c in its[1..];
      assert HasWideMap(its[0]) || c in its;
    }
    if AnyWide(its) {
      var it :| it in its && HasWideMap(it);
      if it == its[0] && !IsWide(it) {
        var c :| c in Children(it) && HasWideMap(c);
        assert c in rest;
      } else if it != its[0] {
        assert it in its[1..];
        assert it in rest;
      }
    }
    assert its[0] in its;
  }

  lemma UnfoldAccepted(its: seq<Item>)
    requires its != [] && forall it | it in its :: Accepted(it)
    ensures forall it | it in Unfolded(its) :: Accepted(it)
    ensures |Unfolded(its)| == |its| - 1 + Announced(its[0])
  {
    assert Accepted(its[0]);
  }

  lemma WideAfterItem(p: nat, it: Item, input: seq<byte>, i: nat, j: nat)
    requires p > 0 && !it.Simple? && Fits(WidthOf(it), Argument(it))
    requires At(input, i, HeadOf(it)) && i + |HeadOf(it)| + |Payload(it)| == j <= |input|
    ensures MeetsWide(State(p, 0, None), input, i) <==>
            IsWide(it) || MeetsWide(State(p - 1 + Announced(it), 0, None), input, j)
  {
    WideAfterHead(p, TypeOf(it), WidthOf(it), Argument(it), input, i);
    CompleteItem(p, it);
    WideAfterPayload(p - 1 + Announced(it), |Payload(it)|, input, i + |HeadOf(it)|);
  }

  // The first item turns the work list into its children followed by the rest.
  lemma WideFirst(its: seq<Item>, input: seq<byte>, i: nat) returns (j: nat)
    requires its != [] && (forall it | it in its :: Accepted(it)) && At(input, i, EncodeAll(its))
    ensures i < j && At(input, j, EncodeAll(Unfolded(its))) && j + |EncodeAll(Unfolded(its))| == i + |EncodeAll(its)|
    ensures MeetsWide(State(|its|, 0, None), input, i) <==>
            IsWide(its[0]) || MeetsWide(State(|Unfolded(its)|, 0, None), input, j)
  {
    assert Accepted(its[0]);
    j := i + |HeadOf(its[0])| + |Payload(its[0])|;
    FirstItemBytes(its, input, i, j);
    WideAfterItem(|its|, its[0], input, i, j);
    UnfoldAccepted(its);
  }

  // Reading items, the machine meets the wide maps in them.
  lemma {:induction false} MeetsWideIff(its: seq<Item>, input: seq<byte>, i: nat)
    requires (forall it | it in its :: Accepted(it)) && At(input, i, EncodeAll(its))
    ensures MeetsWide(State(|its|, 0, None), input, i) <==> AnyWide(its)
    decreases |EncodeAll(its)|
  {
    if its != [] {
      var j := WideFirst(its, input, i);
      UnfoldAccepted(its);
      UnfoldWide(its);
      MeetsWideIff(Unfolded(its), input, j);
    }
  }

  lemma MeetsWideOne(it: Item, input: seq<byte>, n: nat)
    requires Accepted(it) && n <= |input| && Encode(it) == input[..n]
    ensures MeetsWide(START, input, 0) <==> HasWideMap(it)
  {
    EncodeSingle(it);
    MeetsWideIff([it], input, 0);
    assert it in [it];
  }

  lemma FramedHereIff(it: Item, input: seq<byte>, n: nat)
    requires WellFormed(it) && n <= |input| && Encode(it) == input[..n]
    ensures Feed(START, input, 0) == More(FINISHED, n) <==> Readable(it)
    ensures Readable(it) ==> !MeetsWide(START, input, 0)
  {
    assert Encode(it) + input[n..] == input;
    FramedExactlyIff(it, input[n..]);
    CoverageOfWellFormed(it);
    if Readable(it) {
      MeetsWideOne(it, input, n);
    }
  }

  // The converse of exact framing: what the machine finishes on is an item of the grammar
  // if and only if it met no map head of 2^63 pairs or more.
  lemma FinishedIsItemIff(input: seq<byte>, n: nat)
    requires Feed(START, input, 0) == More(FINISHED, n)
    ensures n <= |input|
    ensures !MeetsWide(START, input, 0) <==> exists it :: WellFormed(it) && Encode(it) == input[..n]
  {
    var it := FinishedIsItem(input, n);
    MeetsWideOne(it, input, n);
    AcceptedIsWellFormedIff(it);
    if other :| WellFormed(other) && Encode(other) == input[..n] {
      FramedHereIff(other, input, n);
    }
  }

  // Both directions over all inputs: the machine finishes after n bytes without meeting such
  // a head if and only if those bytes are a readable item.
  lemma FinishesIffReadable(input: seq<byte>, n: nat)
    requires n <= |input|
    ensures (Feed(START, input, 0) == More(FINISHED, n) && !MeetsWide(START, input, 0)) <==>
            exists it :: Readable(it) && Encode(it) == input[..n]
  {
    if Feed(START, input, 0) == More(FINISHED, n) && !MeetsWide(START, input, 0) {
      FinishedIsItemIff(input, n);
      var it :| WellFormed(it) && Encode(it) == input[..n];
      FramedHereIff(it, input, n);
      assert Readable(it);
    }
    if it :| Readable(it) && Encode(it) == input[..n] {
      FramedHereIff(it, input, n);
    }
  }
}
