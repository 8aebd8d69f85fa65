// What a peer does with a message, as its callers and the other side see it: the callbacks
// and responses it makes. Said over Step, and without the functions that Step is made of.

module PeerDelivery {
  import opened Basics
  import opened IntSets
  import opened PeerProtocol
  import opened PeerRuns
  import opened ResponseStatus

  // ------------------------------------------------------- responses and blocks

  // Response k finds its request open: the id was open, and no response before it in the
  // message was the last one for it.
  predicate IsDue(open: set<RequestId>, rs: seq<Response>, k: nat)
    requires k < |rs|
  {
    rs[k].id in open && forall j | 0 <= j < k && rs[j].id == rs[k].id :: !IsTerminal(rs[j].status)
  }

  // One callback for each of the first n responses that is due, in the order of the message.
  function Deliveries(open: set<RequestId>, rs: seq<Response>, n: nat): seq<Event>
    requires n <= |rs|
  {
    if n == 0 then []
    else
      Deliveries(open, rs, n - 1) +
      if IsDue(open, rs, n - 1) then [Answered(rs[n - 1].id, rs[n - 1].status)] else []
  }

  // The requests still open behind the first n responses.
  function StillOpen(open: set<RequestId>, rs: seq<Response>, n: nat): set<RequestId>
    requires n <= |rs|
  {
    set id | id in open && forall j | 0 <= j < n && rs[j].id == id :: !IsTerminal(rs[j].status)
  }

  // The callbacks for the blocks of a message: each with the first block as root.
  function Reports(blocks: seq<int>, n: nat): seq<Event>
    requires n <= |blocks|
  {
    seq(n, k requires 0 <= k < n => BlockReceived(blocks[0], blocks[k]))
  }

  lemma {:induction false} ResponsesDeliver(p: Peer, rs: seq<Response>, n: nat)
    requires n <= |rs|
    ensures OnResponses(p, rs, n) ==
            p.(local := StillOpen(p.local, rs, n), log := p.log + Deliveries(p.local, rs, n))
  {
    if n == 0 {
      assert StillOpen(p.local, rs, 0) == p.local && p.log + [] == p.log;
    } else {
      ResponsesDeliver(p, rs, n - 1);
      ResponseDelivers(p.local, rs, n);
      Associative(p.log, Deliveries(p.local, rs, n - 1), [Answered(rs[n - 1].id, rs[n - 1].status)]);
      assert Deliveries(p.local, rs, n - 1) + [] == Deliveries(p.local, rs, n - 1);
    }
  }

  lemma ResponseDelivers(open: set<RequestId>, rs: seq<Response>, n: nat)
    requires 0 < n <= |rs|
    ensures rs[n - 1].id in StillOpen(open, rs, n - 1) <==> IsDue(open, rs, n - 1)
    ensures StillOpen(open, rs, n) ==
            StillOpen(open, rs, n - 1) - if IsTerminal(rs[n - 1].status) then {rs[n - 1].id} else {}
  {
  }

  lemma {:induction false} BlocksReport(p: Peer, blocks: seq<int>, n: nat)
    requires n <= |blocks|
    ensures OnBlocks(p, blocks, n) == p.(log := p.log + Reports(blocks, n))
  {
    if n == 0 {
      assert p.log + Reports(blocks, 0) == p.log;
    } else {
      BlocksReport(p, blocks, n - 1);
      var last := [BlockReceived(blocks[0], blocks[n - 1])];
      assert Reports(blocks, n) == Reports(blocks, n - 1) + last;
      Associative(p.log, Reports(blocks, n - 1), last);
    }
  }

  // Neither a callback for a response nor one for a block; whoever is abandoned is told why.
  predicate IsAside(e: Event) {
    !e.Answered? && !e.BlockReceived? && IsTold(e, -7)
  }

  // Abandoned requests are told this status.
  predicate IsTold(e: Event, status: int) {
    e.Abandoned? ==> e.status == status
  }

  lemma RequestGrows(p: Peer, s: StreamId, r: Request)
    ensures Grows(p.log, OnRequest(p, s, r).log, IsAside)
  {
    if s in p.streams && !r.cancel {
      var w := WithResponder(p, s);
      if r.id in w.remote && w.remote[r.id] in w.streams && !r.fits {
        CloseGrows(WithResponder(w, w.remote[r.id]), RS_SLOW_STREAM, IsAside);
      }
    }
  }

  lemma RequestLeavesOpen(p: Peer, s: StreamId, r: Request)
    requires !OnRequest(p, s, r).closed
    ensures !p.closed && OnRequest(p, s, r).local == p.local
  {
    if s in p.streams && !r.cancel {
      var w := WithResponder(p, s);
      if r.id in w.remote && w.remote[r.id] in w.streams && !r.fits && !p.closed {
        CloseEndsEmpty(WithResponder(w, w.remote[r.id]), RS_SLOW_STREAM);
      }
    }
  }

  // Requests of the other side answer none of this side's, and leave them open unless they
  // close the peer.
  lemma {:induction false} RequestsAreAside(p: Peer, s: StreamId, rs: seq<Request>, n: nat)
    requires n <= |rs|
    ensures Grows(p.log, OnRequests(p, s, rs, n).log, IsAside)
    ensures !OnRequests(p, s, rs, n).closed ==> !p.closed && OnRequests(p, s, rs, n).local == p.local
  {
    if n > 0 {
      var q := OnRequests(p, s, rs, n - 1);
      RequestsAreAside(p, s, rs, n - 1);
      RequestGrows(q, s, rs[n - 1]);
      if !OnRequest(q, s, rs[n - 1]).closed {
        RequestLeavesOpen(q, s, rs[n - 1]);
      }
    }
  }

  // After the requests of a message nothing is open in a closed peer.
  lemma OpenAfterRequests(p: Peer, s: StreamId, rs: seq<Request>)
    requires Inv(p) && !p.closed && s in p.streams
    ensures var q := OnRequests(p, s, rs, |rs|); q.local == if q.closed then {} else p.local
  {
    OnRequestsKeeps(p, s, rs, |rs|);
    RequestsAreAside(p, s, rs, |rs|);
  }

  lemma GrownBy(a: seq<Event>, b: seq<Event>, ok: Event -> bool) returns (more: seq<Event>)
    requires Grows(a, b, ok)
    ensures b == a + more && forall e | e in more :: ok(e)
  {
    more := b[|a|..];
    forall e | e in more ensures ok(e) {
      var k :| 0 <= k < |more| && more[k] == e;
      assert b[|a| + k] == e;
    }
  }

  lemma MessageParts(p: Peer, s: StreamId, m: Message, now: int) returns (aside: seq<Event>)
    requires s in p.streams
    ensures var p1 := if m.completeList then ForgetRemote(p, s) else p;
            var p2 := OnRequests(p1, s, m.requests, |m.requests|);
            var q := OnMessage(p, s, m, now);
            q.closed == p2.closed && q.local == StillOpen(p2.local, m.responses, |m.responses|) &&
            q.log == p.log + aside + Deliveries(p2.local, m.responses, |m.responses|) +
                     Reports(m.blocks, |m.blocks|)
    ensures forall e | e in aside :: IsAside(e)
  {
    var p1 := if m.completeList then ForgetRemote(p, s) else p;
    var p2 := OnRequests(p1, s, m.requests, |m.requests|);
    RequestsAreAside(p1, s, m.requests, |m.requests|);
    ResponsesDeliver(p2, m.responses, |m.responses|);
    BlocksReport(OnResponses(p2, m.responses, |m.responses|), m.blocks, |m.blocks|);
    aside := GrownBy(p1.log, p2.log, IsAside);
  }

  // A message on a live stream, over every state a peer can be in: what its requests lead to
  // comes first; then each response that is due is called back once, with its own status, in
  // order, and no other; then each block is reported, with the first one as root. Afterwards
  // a request is open exactly if it was and none of its responses was terminal.
  lemma MessageIsDelivered(p: Peer, s: StreamId, m: Message, now: int) returns (aside: seq<Event>)
    requires Inv(p) && !p.closed && s in p.streams
    ensures var q := Step(p, Read(s, Some(m), now));
            var open := if q.closed then {} else p.local;
            q.log == p.log + [TimerReset] + aside +
                     Deliveries(open, m.responses, |m.responses|) + Reports(m.blocks, |m.blocks|) &&
            q.local == StillOpen(open, m.responses, |m.responses|)
    ensures forall e | e in aside :: IsAside(e)
  {
    LoggedKeeps(p, TimerReset);
    var p0 := ResetPeerTimeout(p);
    OpenAfterRequests(if m.completeList then ForgetRemote(p0, s) else p0, s, m.requests);
    aside := MessageParts(p0, s, m, now);
  }

  // So of every reachable peer.
  lemma EveryMessageIsDelivered(inputs: seq<Input>, s: StreamId, m: Message, now: int) returns (aside: seq<Event>)
    requires !Run(inputs).closed && s in Run(inputs).streams
    ensures var p, q := Run(inputs), Run(inputs + [Read(s, Some(m), now)]);
            var open := if q.closed then {} else p.local;
            q.log == p.log + [TimerReset] + aside +
                     Deliveries(open, m.responses, |m.responses|) + Reports(m.blocks, |m.blocks|) &&
            q.local == StillOpen(open, m.responses, |m.responses|)
    ensures forall e | e in aside :: IsAside(e)
  {
    EveryRunKeeps(inputs);
    RunSnoc(inputs, Read(s, Some(m), now));
    aside := MessageIsDelivered(Run(inputs), s, m, now);
  }

  // ------------------------------------------------------- requests of the other side

  // A message with nothing in it but requests, perhaps as a complete list.
  function RequestsOnly(s: StreamId, complete: bool, rs: seq<Request>, now: int): Input {
    Read(s, Some(Message(complete, rs, [], [])), now)
  }

  lemma RequestsOnlyIs(p: Peer, s: StreamId, complete: bool, rs: seq<Request>, now: int)
    requires !p.closed && s in p.streams
    ensures var p0 := ResetPeerTimeout(p);
            Step(p, RequestsOnly(s, complete, rs, now)) ==
            ShiftExpireTime(OnRequests(if complete then ForgetRemote(p0, s) else p0, s, rs, |rs|), s, now)
  {
  }

  lemma {:induction false} SamePrefix(p: Peer, s: StreamId, rs: seq<Request>, r: Request, n: nat)
    requires n <= |rs|
    ensures OnRequests(p, s, rs + [r], n) == OnRequests(p, s, rs, n)
  {
    if n > 0 {
      SamePrefix(p, s, rs, r, n - 1);
    }
  }

  // A complete list forgets what the stream had asked for; that is all that an empty one does.
  lemma CompleteListForgets(p: Peer, s: StreamId, complete: bool, now: int)
    requires !p.closed && s in p.streams
    ensures var q := Step(p, RequestsOnly(s, complete, [], now));
            q.remote == p.remote - (if complete then p.streams[s].remoteIds else {}) &&
            q.streams.Keys == p.streams.Keys &&
            q.streams[s].remoteIds == (if complete then {} else p.streams[s].remoteIds) &&
            q.log == p.log + [TimerReset] && !q.closed
  {
    RequestsOnlyIs(p, s, complete, [], now);
  }

  // What one request of a peer with these tables comes to.
  ghost predicate IsHandled(q: Peer, s: StreamId, r: Request, next: Peer) {
    if q.closed then next == q
    else if r.cancel then next.remote == q.remote - {r.id} && next.log == q.log && !next.closed
    else if r.id !in q.remote then
      next.remote == q.remote[r.id := s] && next.log == q.log + [RemoteRequest(s, r.id)] && !next.closed
    else if r.fits then
      next.remote == q.remote && next.log == q.log + [Responded(q.remote[r.id], r.id, 30)] && !next.closed
    else next.closed && next.closeStatus == -7
  }

  lemma RequestIsHandled(p: Peer, s: StreamId, r: Request, now: int)
    requires Linked(p) && (if p.closed then s !in p.streams else s in p.streams)
    ensures IsHandled(ShiftExpireTime(p, s, now), s, r, ShiftExpireTime(OnRequest(p, s, r), s, now))
  {
    if s in p.streams && !r.cancel {
      var w := WithResponder(p, s);
      if r.id in w.remote && !r.fits {
        CloseEndsEmpty(WithResponder(w, w.remote[r.id]), RS_SLOW_STREAM);
        CloseStatusIs(WithResponder(w, w.remote[r.id]), RS_SLOW_STREAM);
      }
    }
  }

  lemma {:induction false} DropStreamsStatus(p: Peer, status: int)
    ensures DropStreams(p, status).closeStatus == p.closeStatus
    decreases |p.streams|
  {
    if p.streams != map[] {
      DropStreamsStatus(DropStream(p, Least(p.streams.Keys), status), status);
    }
  }

  lemma CloseStatusIs(p: Peer, status: int)
    requires !p.closed
    ensures Close(p, status).closed && Close(p, status).closeStatus == status
  {
    CloseEndsEmpty(p, status);
    DropStreamsStatus(p.(closed := true, closeStatus := status, remote := map[]), status);
  }

  lemma {:induction false} StreamStaysListed(p: Peer, s: StreamId, rs: seq<Request>, n: nat)
    requires s in p.streams && n <= |rs|
    ensures !OnRequests(p, s, rs, n).closed ==> s in OnRequests(p, s, rs, n).streams
  {
    if n > 0 {
      StreamStaysListed(p, s, rs, n - 1);
      var q := OnRequests(p, s, rs, n - 1);
      if !OnRequest(q, s, rs[n - 1]).closed {
        RequestLeavesOpen(q, s, rs[n - 1]);
        if s in q.streams && !rs[n - 1].cancel {
          var w := WithResponder(q, s);
          if rs[n - 1].id in w.remote && w.remote[rs[n - 1].id] in w.streams && !rs[n - 1].fits {
            CloseEndsEmpty(WithResponder(w, w.remote[rs[n - 1].id]), RS_SLOW_STREAM);
          }
        }
      }
    }
  }

  // One request more at the end of any message of requests, in every state a peer can be in:
  // a cancel takes the id back; a new id is handed on and served through this stream; an id
  // that is taken is rejected through the stream it belongs to, or the peer is closed.
  lemma NextRequestIsHandled(p: Peer, s: StreamId, complete: bool, rs: seq<Request>, r: Request, now: int)
    requires Inv(p) && !p.closed && s in p.streams
    ensures IsHandled(Step(p, RequestsOnly(s, complete, rs, now)), s, r,
                      Step(p, RequestsOnly(s, complete, rs + [r], now)))
  {
    LoggedKeeps(p, TimerReset);
    var p0 := ResetPeerTimeout(p);
    var p1 := if complete then ForgetRemote(p0, s) else p0;
    RequestsOnlyIs(p, s, complete, rs, now);
    RequestsOnlyIs(p, s, complete, rs + [r], now);
    SamePrefix(p1, s, rs, r, |rs|);
    OnRequestsKeeps(p1, s, rs, |rs|);
    StreamStaysListed(p1, s, rs, |rs|);
    RequestIsHandled(OnRequests(p1, s, rs, |rs|), s, r, now);
  }
}
