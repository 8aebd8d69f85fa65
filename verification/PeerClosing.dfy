// When and why a peer closes, what it leaves, and what the log says of it.

module PeerClosing {
  import opened Basics
  import opened IntSets
  import opened PeerDelivery
  import opened PeerProtocol
  import opened PeerRuns
  import opened ResponseStatus

  // Why an open peer closes, and the status that its requests are told.
  function Reason(p: Peer, i: Input): int {
    match i
    case DoConnectFailed => -2
    case TimerFired(_, _, _) => -3
    case Wrote(_, _, _) => -4
    case Read(_, None, _) => -4
    case Read(_, Some(_), _) => -7
    case DoEnqueue(_, _) => if p.endpoint == NoEndpoint then -5 else -7
    case DoAddBlock(_, _) => -7
    case DoSend(_, _, _) => -7
    case DoClose(status) => status
    case _ => 0
  }

  // When a step closes an open peer. What a message leads to is said by its requests alone.
  ghost predicate Closes(p: Peer, i: Input) {
    match i
    case DoConnectFailed => p.streams == map[] && p.endpoint == Connecting
    case TimerFired(writing, backlog, now) =>
      forall s | s in p.streams ::
        p.streams[s].expireTime <= now && (p.streams[s].hasQueue ==> s !in writing && s !in backlog)
    case Wrote(_, ok, _) => !ok
    case Read(s, None, _) => p.streams.Keys == {s}
    case Read(s, Some(m), now) => s in p.streams && Step(p, RequestsOnly(s, m.completeList, m.requests, now)).closed
    case DoEnqueue(_, fits) => p.endpoint == NoEndpoint || !fits
    case DoAddBlock(id, fits) => id in p.remote && !fits
    case DoSend(id, _, fits) => id in p.remote && !fits
    case DoClose(_) => true
    case _ => false
  }

  lemma CloseTells(p: Peer, status: int)
    ensures Grows(p.log, Close(p, status).log, e => IsTold(e, status))
  {
    CloseGrows(p, status, e => IsTold(e, status));
  }

  lemma CloseStreamTells(p: Peer, s: StreamId, status: int)
    ensures Grows(p.log, CloseStream(p, s, status).log, e => IsTold(e, status))
  {
    if s in p.streams {
      DropStreamGrows(p, s, status, e => IsTold(e, status));
      CloseTells(DropStream(p, s, status), status);
    }
  }

  lemma {:induction false} CloseEachTells(p: Peer, ss: seq<StreamId>, n: nat)
    requires n <= |ss|
    ensures Grows(p.log, CloseEach(p, ss, n).log, e => IsTold(e, -3))
  {
    if n > 0 {
      CloseEachTells(p, ss, n - 1);
      CloseStreamTells(CloseEach(p, ss, n - 1), ss[n - 1], RS_TIMEOUT);
    }
  }

  lemma {:induction false} DeliveriesTell(open: set<RequestId>, rs: seq<Response>, n: nat, status: int)
    requires n <= |rs|
    ensures forall e | e in Deliveries(open, rs, n) :: IsTold(e, status)
  {
    if n > 0 {
      DeliveriesTell(open, rs, n - 1, status);
    }
  }

  lemma MessageTells(p: Peer, s: StreamId, m: Message, now: int)
    requires Inv(p) && !p.closed && s in p.streams
    ensures Grows(p.log, Step(p, Read(s, Some(m), now)).log, e => IsTold(e, -7))
  {
    var q := Step(p, Read(s, Some(m), now));
    var open := if q.closed then {} else p.local;
    var aside := MessageIsDelivered(p, s, m, now);
    var ds, bs := Deliveries(open, m.responses, |m.responses|), Reports(m.blocks, |m.blocks|);
    DeliveriesTell(open, m.responses, |m.responses|, -7);
    Tail(p.log, aside, ds, bs, q.log);
  }

  lemma Tail(log: seq<Event>, aside: seq<Event>, ds: seq<Event>, bs: seq<Event>, all: seq<Event>)
    requires all == log + [TimerReset] + aside + ds + bs
    requires (forall e | e in aside :: IsTold(e, -7)) && (forall e | e in ds :: IsTold(e, -7))
    requires forall e | e in bs :: IsTold(e, -7)
    ensures Grows(log, all, e => IsTold(e, -7))
  {
    var more := [TimerReset] + aside + ds + bs;
    assert all == log + more;
    forall k | |log| <= k < |all| ensures IsTold(all[k], -7) {
      assert all[k] == more[k - |log|] && more[k - |log|] in more;
    }
  }

  lemma TimerTells(p: Peer, writing: set<StreamId>, backlog: set<StreamId>, now: int)
    ensures Grows(p.log, Step(p, TimerFired(writing, backlog, now)).log, e => IsTold(e, -3))
  {
    CloseTells(p, -3);
    var ss := AscendingSeq(TimedOutStreams(p, writing, backlog, now));
    CloseEachTells(ExtendStarved(p, writing, backlog, now), ss, |ss|);
  }

  lemma ReadTells(p: Peer, s: StreamId, m: Option<Message>, now: int)
    requires Inv(p) && !p.closed
    ensures Grows(p.log, Step(p, Read(s, m, now)).log, e => IsTold(e, if m == None then -4 else -7))
  {
    if m == None {
      CloseStreamTells(p, s, -4);
    } else if s in p.streams {
      MessageTells(p, s, m.value, now);
    }
  }

  // Whatever a step does, the requests it abandons are told the reason.
  lemma ReasonIsTold(p: Peer, i: Input)
    requires Inv(p) && !p.closed
    ensures Grows(p.log, Step(p, i).log, e => IsTold(e, Reason(p, i)))
  {
    match i
    case DoConnectFailed => CloseTells(p, -2);
    case TimerFired(writing, backlog, now) => TimerTells(p, writing, backlog, now);
    case Wrote(_, _, _) => CloseTells(p, -4);
    case Read(s, m, now) => ReadTells(p, s, m, now);
    case DoEnqueue(_, _) => CloseTells(p, Reason(p, i));
    case DoAddBlock(id, _) => if id in p.remote { CloseTells(WithResponder(p, p.remote[id]), -7); }
    case DoSend(id, _, _) => if id in p.remote { CloseTells(WithResponder(p, p.remote[id]), -7); }
    case DoClose(status) => CloseTells(p, status);
    case _ =>
  }

  // A closed peer with nothing left, which has just said why.
  ghost predicate IsClosedFor(q: Peer, status: int) {
    q.closed && q.closeStatus == status && q.streams == map[] && q.remote == map[] && q.local == {} &&
    q.endpoint == NoEndpoint
  }

  lemma CloseLeaves(p: Peer, status: int)
    requires Inv(p) && !p.closed
    ensures IsClosedFor(Close(p, status), status)
  {
    CloseKeeps(p, status);
  }

  lemma TimerCloses(p: Peer, writing: set<StreamId>, backlog: set<StreamId>, now: int)
    requires Inv(p) && !p.closed
    ensures var i := TimerFired(writing, backlog, now);
            Step(p, i).closed <==> Closes(p, i)
  {
    TimerClosesTheIdle(p, writing, backlog, now);
    var idle := TimedOutStreams(p, writing, backlog, now);
    if p.streams.Keys - idle == {} {
      forall s | s in p.streams ensures s in idle {
        assert s !in p.streams.Keys - idle;
      }
    }
  }

  lemma MessageCloses(p: Peer, s: StreamId, m: Message, now: int)
    requires Inv(p) && !p.closed
    ensures Step(p, Read(s, Some(m), now)).closed <==> Closes(p, Read(s, Some(m), now))
  {
    if s in p.streams {
      var aside := MessageParts(ResetPeerTimeout(p), s, m, now);
      RequestsOnlyIs(p, s, m.completeList, m.requests, now);
    }
  }

  lemma LastStream(streams: map<StreamId, StreamCtx>, s: StreamId)
    requires s in streams
    ensures streams - {s} == map[] <==> streams.Keys == {s}
  {
    assert (streams - {s}).Keys == streams.Keys - {s};
    if streams.Keys == {s} {
      assert (streams - {s}).Keys == {};
    }
    if streams - {s} == map[] {
      forall t | t in streams ensures t == s {
        assert t != s ==> t in streams - {s};
      }
    }
  }

  // An open peer closes in these cases and in no other.
  lemma ClosesIff(p: Peer, i: Input)
    requires Inv(p) && !p.closed
    ensures Step(p, i).closed <==> Closes(p, i)
  {
    match i
    case DoConnectFailed => CloseLeaves(p, -2);
    case TimerFired(writing, backlog, now) => TimerCloses(p, writing, backlog, now);
    case Wrote(_, _, _) => CloseLeaves(p, -4);
    case Read(s, None, _) =>
      if s in p.streams {
        LastStream(p.streams, s);
        CloseEndsEmpty(DropStream(p, s, -4), -4);
      }
    case Read(s, Some(m), now) => MessageCloses(p, s, m, now);
    case DoEnqueue(_, _) => CloseLeaves(p, Reason(p, i));
    case DoAddBlock(id, _) =>
      if id in p.remote {
        WithResponderKeeps(p, p.remote[id]);
        CloseLeaves(WithResponder(p, p.remote[id]), -7);
      }
    case DoSend(id, _, _) =>
      if id in p.remote {
        WithResponderKeeps(p, p.remote[id]);
        CloseLeaves(WithResponder(p, p.remote[id]), -7);
      }
    case DoClose(status) => CloseLeaves(p, status);
    case _ =>
  }

  lemma {:induction false} RequestsCloseFor(p: Peer, s: StreamId, rs: seq<Request>, n: nat)
    requires Inv(p) && !p.closed && s in p.streams && n <= |rs|
    ensures var q := OnRequests(p, s, rs, n); q.closed ==> IsClosedFor(q, -7)
  {
    if n > 0 {
      var q, r := OnRequests(p, s, rs, n - 1), rs[n - 1];
      RequestsCloseFor(p, s, rs, n - 1);
      OnRequestsKeeps(p, s, rs, n - 1);
      if s in q.streams && !r.cancel {
        var w := WithResponder(q, s);
        WithResponderKeeps(q, s);
        if r.id in w.remote {
          WithResponderKeeps(w, w.remote[r.id]);
          CloseLeaves(WithResponder(w, w.remote[r.id]), -7);
        }
      }
    }
  }

  lemma MessageClosesFor(p: Peer, s: StreamId, m: Message, now: int)
    requires Inv(p) && !p.closed && s in p.streams
    ensures var q := Step(p, Read(s, Some(m), now)); q.closed ==> IsClosedFor(q, -7)
  {
    LoggedKeeps(p, TimerReset);
    var p0 := ResetPeerTimeout(p);
    var p1 := if m.completeList then ForgetRemote(p0, s) else p0;
    RequestsCloseFor(p1, s, m.requests, |m.requests|);
    var p2 := OnRequests(p1, s, m.requests, |m.requests|);
    ResponsesDeliver(p2, m.responses, |m.responses|);
    BlocksReport(OnResponses(p2, m.responses, |m.responses|), m.blocks, |m.blocks|);
  }

  lemma {:induction false} CloseEachFor(p: Peer, ss: seq<StreamId>, n: nat)
    requires Inv(p) && !p.closed && n <= |ss|
    ensures var q := CloseEach(p, ss, n); Inv(q) && (q.closed ==> IsClosedFor(q, -3))
  {
    if n > 0 {
      var q, s := CloseEach(p, ss, n - 1), ss[n - 1];
      CloseEachFor(p, ss, n - 1);
      CloseEachKeeps(p, ss, n);
      if s in q.streams {
        StreamClosesFor(q, s, -3);
      }
    }
  }

  lemma StreamClosesFor(p: Peer, s: StreamId, status: int)
    requires Inv(p) && !p.closed && s in p.streams
    ensures var q := CloseStream(p, s, status); q.closed ==> IsClosedFor(q, status)
  {
    var q := DropStream(p, s, status);
    DropStreamKeepsLinks(p, s, status);
    if q.streams == map[] && IsError(status) {
      DropStreamKeepsAccount(p, s, status, None);
      CloseKeeps(q, status);
    }
  }

  // It is left with nothing, and with the reason as its status.
  lemma ClosesForReason(p: Peer, i: Input)
    requires Inv(p) && !p.closed && Step(p, i).closed
    ensures IsClosedFor(Step(p, i), Reason(p, i))
  {
    ClosesIff(p, i);
    match i
    case TimerFired(writing, backlog, now) =>
      CloseLeaves(p, -3);
      ExtendStarvedKeeps(p, writing, backlog, now);
      var ss := AscendingSeq(TimedOutStreams(p, writing, backlog, now));
      CloseEachFor(ExtendStarved(p, writing, backlog, now), ss, |ss|);
    case Read(s, None, _) => StreamClosesFor(p, s, -4);
    case Read(s, Some(m), now) => MessageClosesFor(p, s, m, now);
    case DoAddBlock(id, _) =>
      WithResponderKeeps(p, p.remote[id]);
      CloseLeaves(WithResponder(p, p.remote[id]), -7);
    case DoSend(id, _, _) =>
      WithResponderKeeps(p, p.remote[id]);
      CloseLeaves(WithResponder(p, p.remote[id]), -7);
    case _ => CloseLeaves(p, Reason(p, i));
  }

  // The requests that a closing peer abandons are told in ascending order.
  lemma {:induction false} NoticesAre(ids: set<RequestId>, status: int)
    ensures |Notices(ids, status)| == |AscendingSeq(ids)|
    ensures forall k | 0 <= k < |AscendingSeq(ids)| ::
              Notices(ids, status)[k] == Abandoned(AscendingSeq(ids)[k], status)
    decreases ids
  {
    if ids != {} {
      NoticesAre(ids - {Least(ids)}, status);
    }
  }

  // The log says of which streams a step has closed.
  ghost predicate SaysClosed(a: seq<Event>, b: seq<Event>, s: StreamId) {
    exists k :: |a| <= k < |b| && b[k] == StreamClosed(s)
  }

  // From p to q exactly those streams went whose closing the log reports.
  ghost predicate Reported(p: Peer, q: Peer) {
    p.log <= q.log && q.streams.Keys <= p.streams.Keys &&
    forall s :: SaysClosed(p.log, q.log, s) <==> s in p.streams && s !in q.streams
  }

  lemma ReportedThrough(p: Peer, q: Peer, r: Peer)
    requires Reported(p, q) && Reported(q, r)
    ensures Reported(p, r)
  {
    forall s ensures SaysClosed(p.log, r.log, s) <==> s in p.streams && s !in r.streams {
      if k :| |p.log| <= k < |r.log| && r.log[k] == StreamClosed(s) {
        assert k < |q.log| ==> q.log[k] == r.log[k];
        assert SaysClosed(p.log, q.log, s) || SaysClosed(q.log, r.log, s);
      }
      if SaysClosed(p.log, q.log, s) {
        var k :| |p.log| <= k < |q.log| && q.log[k] == StreamClosed(s);
        assert r.log[k] == StreamClosed(s);
      }
    }
  }

  predicate ClosesNothing(e: Event) {
    !e.StreamClosed?
  }

  lemma NothingReported(p: Peer, q: Peer)
    requires Grows(p.log, q.log, ClosesNothing) && q.streams.Keys == p.streams.Keys
    ensures Reported(p, q)
  {
  }

  lemma {:induction false} NoticesCloseNothing(ids: set<RequestId>, status: int)
    ensures forall e | e in Notices(ids, status) :: e.Abandoned?
    decreases ids
  {
    if ids != {} {
      NoticesCloseNothing(ids - {Least(ids)}, status);
    }
  }

  lemma DropStreamReported(p: Peer, s: StreamId, status: int)
    requires s in p.streams
    ensures Reported(p, DropStream(p, s, status))
  {
    var q := DropStream(p, s, status);
    var notices := if p.endpoint == Connected(s) then Notices(p.local, status) else [];
    NoticesCloseNothing(p.local, status);
    var more := notices + [StreamClosed(s)];
    assert q.log == p.log + more;
    forall j | 0 <= j < |notices| ensures more[j].Abandoned? {
      assert notices[j] in notices;
    }
    forall t ensures SaysClosed(p.log, q.log, t) <==> t == s {
      if k :| |p.log| <= k < |q.log| && q.log[k] == StreamClosed(t) {
        assert more[k - |p.log|] == StreamClosed(t);
      }
      assert q.log[|q.log| - 1] == StreamClosed(s);
    }
  }

  lemma {:induction false} DropStreamsReported(p: Peer, status: int)
    ensures Reported(p, DropStreams(p, status))
    decreases |p.streams|
  {
    if p.streams == map[] {
      NothingReported(p, p);
    } else {
      var s := Least(p.streams.Keys);
      DropStreamReported(p, s, status);
      DropStreamsReported(DropStream(p, s, status), status);
      ReportedThrough(p, DropStream(p, s, status), DropStreams(p, status));
    }
  }

  lemma CloseReported(p: Peer, status: int)
    ensures Reported(p, Close(p, status))
  {
    if p.closed {
      NothingReported(p, p);
    } else {
      var p1 := p.(closed := true, closeStatus := status, remote := map[]);
      var q, r := DropStreams(p1, status), Close(p, status);
      DropStreamsReported(p1, status);
      NoticesCloseNothing(q.local, status);
      var notices := if q.endpoint != NoEndpoint then Notices(q.local, status) else [];
      var more := notices + [PeerClosed(status, status != RS_REJECTED_LOCALLY)];
      assert r.log == q.log + more;
      forall k | |q.log| <= k < |r.log| ensures !r.log[k].StreamClosed? {
        assert r.log[k] == more[k - |q.log|] && more[k - |q.log|] in more;
      }
      NothingReported(q, r);
      ReportedThrough(p1, q, r);
    }
  }

  lemma CloseStreamReported(p: Peer, s: StreamId, status: int)
    ensures Reported(p, CloseStream(p, s, status))
  {
    if s !in p.streams {
      NothingReported(p, p);
    } else {
      var q := DropStream(p, s, status);
      DropStreamReported(p, s, status);
      CloseReported(q, status);
      ReportedThrough(p, q, Close(q, status));
    }
  }

  lemma ServeReported(p: Peer, id: RequestId, status: int, fits: bool)
    ensures Reported(p, SendResponse(p, id, status, fits)) && Reported(p, AddBlockToResponse(p, id, fits))
  {
    NothingReported(p, p);
    if FindResponseSink(p, id).Some? {
      var w := WithResponder(p, FindResponseSink(p, id).value);
      NothingReported(p, w);
      CloseReported(w, RS_SLOW_STREAM);
      if fits {
        NothingReported(p, SendResponse(p, id, status, fits));
        NothingReported(p, AddBlockToResponse(p, id, fits));
      } else {
        ReportedThrough(p, w, Close(w, RS_SLOW_STREAM));
      }
    }
  }

  lemma RequestReported(p: Peer, s: StreamId, r: Request)
    ensures Reported(p, OnRequest(p, s, r))
  {
    if s !in p.streams {
      NothingReported(p, p);
    } else if r.cancel {
      NothingReported(p, OnCancel(p, s, r.id));
    } else {
      var w := WithResponder(p, s);
      NothingReported(p, w);
      if r.id in w.remote {
        ServeReported(w, r.id, RS_REJECTED, r.fits);
        ReportedThrough(p, w, SendResponse(w, r.id, RS_REJECTED, r.fits));
      } else {
        NothingReported(p, OnNewRequest(w, s, r.id));
      }
    }
  }

  lemma {:induction false} RequestsReported(p: Peer, s: StreamId, rs: seq<Request>, n: nat)
    requires n <= |rs|
    ensures Reported(p, OnRequests(p, s, rs, n))
  {
    if n == 0 {
      NothingReported(p, p);
    } else {
      var q := OnRequests(p, s, rs, n - 1);
      RequestsReported(p, s, rs, n - 1);
      RequestReported(q, s, rs[n - 1]);
      ReportedThrough(p, q, OnRequest(q, s, rs[n - 1]));
    }
  }

  lemma {:induction false} DeliveriesCloseNothing(open: set<RequestId>, rs: seq<Response>, n: nat)
    requires n <= |rs|
    ensures forall e | e in Deliveries(open, rs, n) :: e.Answered?
  {
    if n > 0 {
      DeliveriesCloseNothing(open, rs, n - 1);
    }
  }

  lemma RestReported(p: Peer, s: StreamId, m: Message, now: int)
    ensures var q := OnBlocks(OnResponses(p, m.responses, |m.responses|), m.blocks, |m.blocks|);
            Reported(p, ShiftExpireTime(q, s, now))
  {
    var n, k := |m.responses|, |m.blocks|;
    var ds, bs := Deliveries(p.local, m.responses, n), Reports(m.blocks, k);
    ResponsesDeliver(p, m.responses, n);
    BlocksReport(OnResponses(p, m.responses, n), m.blocks, k);
    DeliveriesCloseNothing(p.local, m.responses, n);
    var q := ShiftExpireTime(OnBlocks(OnResponses(p, m.responses, n), m.blocks, k), s, now);
    assert q.log == p.log + (ds + bs);
    forall i | |p.log| <= i < |q.log| ensures ClosesNothing(q.log[i]) {
      var j := i - |p.log|;
      assert q.log[i] == (ds + bs)[j];
      assert j < |ds| ==> ds[j] in ds;
    }
    NothingReported(p, q);
  }

  lemma MessageReported(p: Peer, s: StreamId, m: Message, now: int)
    requires s in p.streams
    ensures Reported(p, OnMessage(p, s, m, now))
  {
    var p1 := if m.completeList then ForgetRemote(p, s) else p;
    var p2 := OnRequests(p1, s, m.requests, |m.requests|);
    NothingReported(p, p1);
    RequestsReported(p1, s, m.requests, |m.requests|);
    ReportedThrough(p, p1, p2);
    RestReported(p2, s, m, now);
    ReportedThrough(p, p2, OnMessage(p, s, m, now));
  }

  lemma ReadReported(p: Peer, s: StreamId, m: Option<Message>, now: int)
    ensures Reported(p, OnReaderEvent(p, s, m, now))
  {
    var p0 := ResetPeerTimeout(p);
    NothingReported(p, p);
    NothingReported(p, p0);
    CloseStreamReported(p, s, RS_CONNECTION_ERROR);
    if m.Some? && s in p.streams && !p.closed {
      MessageReported(p0, s, m.value, now);
      ReportedThrough(p, p0, OnMessage(p0, s, m.value, now));
    }
  }

  lemma {:induction false} CloseEachReported(p: Peer, ss: seq<StreamId>, n: nat)
    requires n <= |ss|
    ensures Reported(p, CloseEach(p, ss, n))
  {
    if n == 0 {
      NothingReported(p, p);
    } else {
      var q := CloseEach(p, ss, n - 1);
      CloseEachReported(p, ss, n - 1);
      CloseStreamReported(q, ss[n - 1], RS_TIMEOUT);
      ReportedThrough(p, q, CloseStream(q, ss[n - 1], RS_TIMEOUT));
    }
  }

  lemma TimerReported(p: Peer, writing: set<StreamId>, backlog: set<StreamId>, now: int)
    ensures Reported(p, OnCleanupTimer(p, writing, backlog, now))
  {
    if p.streams == map[] {
      CloseReported(p, RS_TIMEOUT);
    } else {
      var e := ExtendStarved(p, writing, backlog, now);
      var ss := AscendingSeq(TimedOutStreams(p, writing, backlog, now));
      assert e.streams.Keys == p.streams.Keys;
      NothingReported(p, e);
      CloseEachReported(e, ss, |ss|);
      ReportedThrough(p, e, CloseEach(e, ss, |ss|));
    }
  }

  // Whatever a step does, the log says of exactly the streams that are gone that they were closed.
  lemma StreamsAreReported(p: Peer, i: Input, s: StreamId)
    ensures SaysClosed(p.log, Step(p, i).log, s) <==> s in p.streams && s !in Step(p, i).streams
  {
    match i
    case DoConnectFailed => CloseReported(p, RS_CANNOT_CONNECT);
    case DoEnqueue(_, _) => CloseReported(p, RS_INTERNAL_ERROR); CloseReported(p, RS_SLOW_STREAM);
    case DoAddBlock(id, fits) => ServeReported(p, id, 0, fits);
    case DoSend(id, status, fits) => ServeReported(p, id, status, fits);
    case DoClose(status) => CloseReported(p, status);
    case Read(t, m, now) => ReadReported(p, t, m, now);
    case Wrote(_, _, _) => CloseReported(p, RS_CONNECTION_ERROR);
    case TimerFired(writing, backlog, now) => TimerReported(p, writing, backlog, now);
    case _ =>
  }
}
