// What the other entry points of a peer do, as a caller sees it.

module PeerEffects {
  import opened Basics
  import opened IntSets
  import opened PeerClosing
  import opened PeerDelivery
  import opened PeerProtocol
  import opened PeerRuns
  import opened ResponseStatus

  // A local request is taken in once, while the peer is open and stays so. A cancel takes it
  // back, known or not, and sends a message if there is an endpoint that takes it.
  lemma LocalRequestsAreKept(p: Peer, id: RequestId, fits: bool)
    requires Inv(p)
    ensures var q := Step(p, DoEnqueue(id, fits));
            if p.closed then q == p.(log := p.log + [Refused(id)])
            else if q.closed then Closes(p, DoEnqueue(id, fits))
            else q == p.(local := p.local + {id}, log := p.log + if id in p.local then [] else [Accepted(id)])
    ensures var q := Step(p, DoCancel(id, fits));
            if p.closed then q == p
            else q == p.(local := p.local - {id},
                         log := p.log + (if id in p.local then [Withdrawn(id)] else []) +
                                        if p.endpoint != NoEndpoint && fits then [CancelQueued(id)] else [])
  {
    if !p.closed {
      ClosesIff(p, DoEnqueue(id, fits));
      assert id in p.local ==> p.local + {id} == p.local;
      assert id !in p.local ==> p.local - {id} == p.local;
      assert p.log + [] == p.log;
    }
  }

  // A response or block of a request that the other side has made goes out, through the
  // stream of the request, or the peer closes; of any other nothing happens.
  lemma AnswersAreServed(p: Peer, id: RequestId, status: int, fits: bool)
    requires Inv(p)
    ensures var q, b := Step(p, DoSend(id, status, fits)), Step(p, DoAddBlock(id, fits));
            if id !in p.remote then q == p && b == p
            else if fits then
              q.log == p.log + [Responded(p.remote[id], id, status)] && q.remote == p.remote &&
              b.log == p.log + [BlockAdded(p.remote[id], id)] && b.remote == p.remote
            else IsClosedFor(q, -7) && IsClosedFor(b, -7)
  {
    if id in p.remote && !fits {
      WithResponderKeeps(p, p.remote[id]);
      CloseLeaves(WithResponder(p, p.remote[id]), -7);
    }
  }

  // Connecting makes an endpoint: on the first live stream, or to wait for one. The stream
  // that comes first then becomes its stream.
  lemma ConnectingUsesFirst(p: Peer, s: StreamId, now: int)
    requires Inv(p)
    ensures var q := Step(p, DoConnect);
            q.log == p.log && q.streams.Keys == p.streams.Keys &&
            if p.endpoint != NoEndpoint then q == p
            else if p.streams == map[] then q.endpoint == Connecting
            else q.endpoint.Connected? && q.endpoint.stream in q.streams &&
                 q.streams[q.endpoint.stream].hasQueue && forall t | t in p.streams :: q.endpoint.stream <= t
    ensures var q := Step(p, StreamReady(s, now));
            q.streams.Keys == p.streams.Keys + {s} &&
            q.endpoint == (if !p.closed && p.endpoint == Connecting then Connected(s) else p.endpoint) &&
            q.log == p.log + (if p.streams == map[] then [TimerScheduled] else []) +
                             if p.closed then [] else [TimerReset]
  {
    assert p.log + [] == p.log;
  }

  ghost predicate SameTimes(p: Peer, q: Peer) {
    q.streams.Keys == p.streams.Keys && forall t | t in p.streams :: q.streams[t].expireTime == p.streams[t].expireTime
  }

  lemma RequestKeepsTimes(p: Peer, s: StreamId, r: Request)
    requires !OnRequest(p, s, r).closed
    ensures SameTimes(p, OnRequest(p, s, r))
  {
    if s in p.streams && !r.cancel {
      var w := WithResponder(p, s);
      if r.id in w.remote && w.remote[r.id] in w.streams && !r.fits && !p.closed {
        CloseEndsEmpty(WithResponder(w, w.remote[r.id]), RS_SLOW_STREAM);
      }
    }
  }

  lemma {:induction false} RequestsKeepTimes(p: Peer, s: StreamId, rs: seq<Request>, n: nat)
    requires n <= |rs| && !OnRequests(p, s, rs, n).closed
    ensures SameTimes(p, OnRequests(p, s, rs, n))
  {
    if n > 0 {
      var q := OnRequests(p, s, rs, n - 1);
      RequestLeavesOpen(q, s, rs[n - 1]);
      RequestsKeepTimes(p, s, rs, n - 1);
      RequestKeepsTimes(q, s, rs[n - 1]);
    }
  }

  // The stream has a minute from now, and the time of other streams is what it was.
  ghost predicate IsProlonged(p: Peer, q: Peer, s: StreamId, now: int) {
    q.streams.Keys == p.streams.Keys + {s} && q.streams[s].expireTime == now + 60000 &&
    forall t | t in p.streams && t != s :: q.streams[t].expireTime == p.streams[t].expireTime
  }

  // Activity on a stream prolongs it: a message, a completed write, its beginning.
  lemma MessageProlongs(p: Peer, s: StreamId, m: Message, now: int)
    requires !p.closed && s in p.streams && !Step(p, Read(s, Some(m), now)).closed
    ensures IsProlonged(p, Step(p, Read(s, Some(m), now)), s, now)
  {
    var p0 := ResetPeerTimeout(p);
    var p1 := if m.completeList then ForgetRemote(p0, s) else p0;
    var p2 := OnRequests(p1, s, m.requests, |m.requests|);
    ResponsesDeliver(p2, m.responses, |m.responses|);
    BlocksReport(OnResponses(p2, m.responses, |m.responses|), m.blocks, |m.blocks|);
    RequestsKeepTimes(p1, s, m.requests, |m.requests|);
    assert SameTimes(p, p2);
  }

  lemma WriteProlongs(p: Peer, s: StreamId, now: int)
    requires !p.closed
    ensures var q := Step(p, Wrote(s, true, now));
            q.log == p.log + [TimerReset] && !q.closed &&
            if s in p.streams then IsProlonged(p, q, s, now) else q.streams == p.streams
  {
  }

  lemma StreamBegins(p: Peer, s: StreamId, now: int)
    requires s !in p.streams
    ensures IsProlonged(p, Step(p, StreamReady(s, now)), s, now)
  {
  }

  lemma {:induction false} CloseEachLeaves(p: Peer, ss: seq<StreamId>, n: nat)
    requires n <= |ss|
    ensures forall t | t in CloseEach(p, ss, n).streams ::
              t in p.streams && CloseEach(p, ss, n).streams[t] == p.streams[t]
  {
    if n > 0 {
      var q, s := CloseEach(p, ss, n - 1), ss[n - 1];
      CloseEachLeaves(p, ss, n - 1);
      if s in q.streams && !q.closed {
        CloseEndsEmpty(DropStream(q, s, RS_TIMEOUT), RS_TIMEOUT);
      }
    }
  }

  // The timer of an open peer: a stream stays that has time left, or a queue with something
  // to write; one that only waits for its window gets three minutes more, from now.
  lemma TimerLeaves(p: Peer, writing: set<StreamId>, backlog: set<StreamId>, now: int)
    requires !p.closed
    ensures var q := Step(p, TimerFired(writing, backlog, now));
            (forall s :: s in q.streams <==>
               s in p.streams &&
               (p.streams[s].expireTime > now || (p.streams[s].hasQueue && (s in writing || s in backlog)))) &&
            forall s | s in q.streams :: var c := p.streams[s];
              q.streams[s].expireTime ==
              if c.hasQueue && s !in writing && s in backlog && c.expireTime < now + 180000 then now + 180000
              else c.expireTime
  {
    TimerClosesTheIdle(p, writing, backlog, now);
    var idle := TimedOutStreams(p, writing, backlog, now);
    var q := Step(p, TimerFired(writing, backlog, now));
    assert forall s :: s in q.streams <==> s in p.streams.Keys - idle;
    if p.streams != map[] {
      var ss := AscendingSeq(idle);
      CloseEachLeaves(ExtendStarved(p, writing, backlog, now), ss, |ss|);
    }
  }
}
