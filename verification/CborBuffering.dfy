// common/libp2p/cbor_buffering.cpp: where does one CBOR object end?
//
// `Step` and `Feed` describe the machine one byte at a time, with one number for
// everything still pending. The class below is the code: a stack of counts, loops
// that eat several bytes at once. `Consume` is proved to compute `Feed`.

module CborBuffering {
  import opened Basics
  import opened CborGrammar

  datatype Error = InvalidHeadType | InvalidHeadValue

  datatype Head = Head(ty: MajorType, value: nat)

  // `moreBytes` counts head bytes when `head` is present, payload bytes otherwise.
  datatype State = State(pending: nat, moreBytes: nat, head: Option<Head>)

  datatype Fed =
    | More(state: State, consumed: nat)
    | Fail(error: Error, at: nat)

  const START := State(1, 0, None)
  const FINISHED := State(0, 0, None)

  predicate Done(s: State) {
    s.pending == 0 && s.moreBytes == 0
  }

  // The bytes an unfinished object is known to need.
  function Missing(s: State): nat {
    if Done(s) then 0 else if s.moreBytes == 0 then 1 else s.moreBytes
  }

  predicate Sound(s: State) {
    s.head.Some? ==> s.moreBytes > 0 && s.pending > 0
  }

  function MajorTypeOf(code: nat): MajorType
    requires code < 8
  {
    if code == 0 then Unsigned
    else if code == 1 then Signed
    else if code == 2 then Bytes
    else if code == 3 then Text
    else if code == 4 then Array
    else if code == 5 then Map
    else if code == 6 then Tag
    else Special
  }

  // First byte of a head: the head so far and how many bytes of it are missing.
  function First(first: byte): Result<(Head, nat), Error> {
    var ty := MajorTypeOf(first / 32);
    var info := first % 32;
    if ty == Special then Err(InvalidHeadType)
    else if info < 24 then Ok((Head(ty, info), 0))
    else if info == 24 then Ok((Head(ty, 0), 1))
    else if info == 25 then Ok((Head(ty, 0), 2))
    else if info == 26 then Ok((Head(ty, 0), 4))
    else if info == 27 then Ok((Head(ty, 0), 8))
    else Err(InvalidHeadValue)
  }

  // A 64-bit shift by one byte.
  function Next(h: Head, next: byte): Head {
    h.(value := (h.value * 256) % TWO64 + next)
  }

  // Items a complete head adds. The count of a map is doubled in 64 bits.
  function Pushed(h: Head): nat {
    match h.ty
    case Array => h.value
    case Map => (2 * h.value) % TWO64
    case Tag => 1
    case _ => 0
  }

  function PayloadLength(h: Head): nat {
    if h.ty == Bytes || h.ty == Text then h.value else 0
  }

  function Complete(pending: nat, h: Head): State
    requires pending > 0
  {
    State(pending - 1 + Pushed(h), PayloadLength(h), None)
  }

  function Advance(pending: nat, h: Head, more: nat): State
    requires pending > 0
  {
    if more == 0 then Complete(pending, h) else State(pending, more, Some(h))
  }

  function Step(s: State, b: byte): Result<State, Error>
    requires Sound(s) && !Done(s)
  {
    if s.head.Some? then Ok(Advance(s.pending, Next(s.head.value, b), s.moreBytes - 1))
    else if s.moreBytes > 0 then Ok(s.(moreBytes := s.moreBytes - 1))
    else match First(b)
      case Err(e) => Err(e)
      case Ok(p) => Ok(Advance(s.pending, p.0, p.1))
  }

  // From position i of the input, bytes are taken until the object ends, the input
  // ends, or a head is refused. Positions are absolute.
  function Feed(s: State, input: seq<byte>, i: nat): (f: Fed)
    requires Sound(s) && i <= |input|
    ensures f.More? ==> Sound(f.state) && i <= f.consumed <= |input|
    ensures f.Fail? ==> i <= f.at < |input|
    decreases |input| - i
  {
    if Done(s) || i == |input| then More(s, i)
    else match Step(s, input[i])
      case Err(e) => Fail(e, i)
      case Ok(s') => Feed(s', input, i + 1)
  }

  lemma {:induction false} FeedPayload(p: nat, k: nat, m: nat, input: seq<byte>, i: nat)
    requires m <= k && i + m <= |input|
    ensures Feed(State(p, k, None), input, i) == Feed(State(p, k - m, None), input, i + m)
    decreases m
  {
    if m > 0 {
      FeedPayload(p, k - 1, m - 1, input, i + 1);
    }
  }

  function Sum(counts: seq<nat>): nat {
    if counts == [] then 0 else Sum(counts[..|counts| - 1]) + counts[|counts| - 1]
  }

  class CborBuffering {
    var moreNested: seq<nat>
    var moreBytes: nat
    var partialHead: Option<Head>

    ghost function Abs(): State
      reads this
    {
      State(Sum(moreNested), moreBytes, partialHead)
    }

    // The innermost count is never left at zero; an incomplete head misses bytes.
    ghost predicate Valid()
      reads this
    {
      (moreNested != [] ==> moreNested[|moreNested| - 1] > 0) &&
      (partialHead.Some? ==> moreBytes > 0 && moreNested != [])
    }

    lemma PendingIffNested()
      requires Valid()
      ensures moreNested == [] <==> Sum(moreNested) == 0
      ensures Sound(Abs())
    {
    }

    constructor ()
      ensures Valid() && Done(Abs()) && Abs() == FINISHED
    {
      moreNested := [];
      moreBytes := 0;
      partialHead := None;
    }

    method IsDone() returns (done: bool)
      requires Valid()
      ensures done == Done(Abs())
    {
      PendingIffNested();
      var more := MoreBytes();
      done := more == 0 && moreNested == [];
    }

    method MoreBytes() returns (more: nat)
      requires Valid()
      ensures more == Missing(Abs())
    {
      PendingIffNested();
      if moreBytes != 0 {
        more := moreBytes;
      } else {
        more := if moreNested == [] then 0 else 1;
      }
    }

    method Reset()
      requires Valid() && Done(Abs())
      modifies this
      ensures Valid() && Abs() == START
    {
      PendingIffNested();
      moreNested := moreNested + [1];
      assert Sum([1]) == Sum([]) + 1;
      assert moreNested == [1];
    }

    // Counts that reached zero are taken off the stack.
    method PopFinished()
      modifies this
      ensures partialHead == old(partialHead) && moreBytes == old(moreBytes)
      ensures Sum(moreNested) == old(Sum(moreNested))
      ensures moreNested != [] ==> moreNested[|moreNested| - 1] > 0
    {
      while moreNested != [] && moreNested[|moreNested| - 1] == 0
        invariant partialHead == old(partialHead) && moreBytes == old(moreBytes)
        invariant Sum(moreNested) == old(Sum(moreNested))
        decreases |moreNested|
      {
        moreNested := moreNested[..|moreNested| - 1];
      }
    }

    // A complete head: one item fewer in the innermost count, its own items on top.
    method CompleteHead(available: nat) returns (partial: nat)
      requires moreNested != [] && moreNested[|moreNested| - 1] > 0
      requires partialHead.Some? && moreBytes == 0
      modifies this
      ensures Valid() && partialHead == None
      ensures var s := old(Complete(Sum(moreNested), partialHead.value));
              partial == Min(s.moreBytes, available) &&
              Abs() == s.(moreBytes := s.moreBytes - partial)
    {
      var head := partialHead.value;
      partialHead := None;
      partial := 0;
      var last := |moreNested| - 1;
      ghost var below := moreNested[..last];
      moreNested := moreNested[..last] + [moreNested[last] - 1];
      assert moreNested[..last] == below;
      ghost var reduced := moreNested;
      match head.ty {
        case Unsigned =>
        case Signed =>
        case Bytes =>
          partial := Min(head.value, available);
          moreBytes := head.value - partial;
        case Text =>
          partial := Min(head.value, available);
          moreBytes := head.value - partial;
        case Array =>
          moreNested := moreNested + [head.value];
          assert moreNested[..|reduced|] == reduced;
        case Map =>
          moreNested := moreNested + [(2 * head.value) % TWO64];
          assert moreNested[..|reduced|] == reduced;
        case Tag =>
          moreNested := moreNested + [1];
          assert moreNested[..|reduced|] == reduced;
        case Special =>
      }
      PopFinished();
    }

    // The rest of a head that has begun, as far as the input goes.
    method ContinueHead(input: seq<byte>, from: nat) returns (consumed: nat)
      requires from <= |input| && partialHead.Some? && Sum(moreNested) > 0
      modifies `moreBytes, `partialHead
      ensures from <= consumed <= |input| && partialHead.Some?
      ensures from < |input| && old(moreBytes) != 0 ==> from < consumed
      ensures moreBytes != 0 ==> consumed == |input|
      ensures old(Feed(Advance(Sum(moreNested), partialHead.value, moreBytes), input, from)) ==
              Feed(Advance(Sum(moreNested), partialHead.value, moreBytes), input, consumed)
    {
      consumed := from;
      while consumed < |input| && moreBytes != 0
        invariant from <= consumed <= |input| && partialHead.Some?
        invariant moreBytes + consumed == old(moreBytes) + from
        invariant old(Feed(Advance(Sum(moreNested), partialHead.value, moreBytes), input, from)) ==
                  Feed(Advance(Sum(moreNested), partialHead.value, moreBytes), input, consumed)
      {
        moreBytes := moreBytes - 1;
        partialHead := Some(Next(partialHead.value, input[consumed]));
        consumed := consumed + 1;
      }
    }

    // The first byte of a head.
    method BeginHead(input: seq<byte>, from: nat) returns (r: Result<nat, Error>)
      requires Valid() && moreNested != [] && from < |input|
      requires partialHead == None && moreBytes == 0
      modifies `moreBytes, `partialHead
      ensures r.Err? ==> old(Feed(Abs(), input, from)) == Fail(r.error, from)
      ensures r.Ok? ==>
                r.value == from + 1 && partialHead.Some? && Sum(moreNested) > 0 &&
                old(Feed(Abs(), input, from)) ==
                Feed(Advance(Sum(moreNested), partialHead.value, moreBytes), input, from + 1)
    {
      PendingIffNested();
      var head := First(input[from]);
      if head.Err? {
        return Err(head.error);
      }
      moreBytes := head.value.1;
      partialHead := Some(head.value.0);
      r := Ok(from + 1);
    }

    // A complete head: skip what is there of its payload.
    method FinishHead(input: seq<byte>, from: nat) returns (consumed: nat)
      requires moreNested != [] && moreNested[|moreNested| - 1] > 0 && from <= |input|
      requires partialHead.Some? && moreBytes == 0
      modifies this
      ensures Valid() && Sound(Abs()) && from <= consumed <= |input|
      ensures partialHead == None && (consumed < |input| ==> moreBytes == 0)
      ensures old(Feed(Complete(Sum(moreNested), partialHead.value), input, from)) == Feed(Abs(), input, consumed)
    {
      ghost var s := Complete(Sum(moreNested), partialHead.value);
      var partial := CompleteHead(|input| - from);
      FeedPayload(s.pending, s.moreBytes, partial, input, from);
      PendingIffNested();
      consumed := from + partial;
    }

    // One turn of the outer loop of `consume`: begin or continue a head and, once it
    // is complete, its payload.
    method ReadItem(input: seq<byte>, from: nat) returns (r: Result<nat, Error>)
      requires Valid() && moreNested != [] && from < |input|
      requires partialHead == None ==> moreBytes == 0
      modifies this
      ensures old(Sound(Abs()))
      ensures r.Err? ==> old(Feed(Abs(), input, from)) == Fail(r.error, from)
      ensures r.Ok? ==>
                Valid() && Sound(Abs()) && from < r.value <= |input| &&
                (r.value < |input| ==> partialHead == None && moreBytes == 0) &&
                old(Feed(Abs(), input, from)) == Feed(Abs(), input, r.value)
    {
      PendingIffNested();
      var consumed := from;
      if partialHead == None {
        var begun := BeginHead(input, from);
        if begun.Err? {
          return begun;
        }
        consumed := begun.value;
      }
      consumed := ContinueHead(input, consumed);
      if moreBytes == 0 {
        consumed := FinishHead(input, consumed);
      }
      r := Ok(consumed);
    }

    method Consume(input: seq<byte>) returns (r: Result<nat, Error>)
      requires Valid() && !Done(Abs())
      modifies this
      ensures old(Sound(Abs()))
      ensures match old(Feed(Abs(), input, 0))
              case More(s, n) => r == Ok(n) && Valid() && Abs() == s
              case Fail(e, _) => r == Err(e)
    {
      PendingIffNested();
      var size := |input|;
      var consumed := 0;
      if partialHead == None && moreBytes != 0 {
        var partial := Min(moreBytes, size - consumed);
        FeedPayload(Sum(moreNested), moreBytes, partial, input, 0);
        moreBytes := moreBytes - partial;
        consumed := consumed + partial;
      }
      while consumed < size && moreNested != []
        invariant Valid() && Sound(Abs()) && consumed <= size
        invariant old(Feed(Abs(), input, 0)) == Feed(Abs(), input, consumed)
        invariant partialHead == None && consumed < size ==> moreBytes == 0
      {
        var next := ReadItem(input, consumed);
        if next.Err? {
          return Err(next.error);
        }
        consumed := next.value;
      }
      PendingIffNested();
      r := Ok(consumed);
    }
  }
}
