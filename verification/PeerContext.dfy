// ipfs_lite/ipfs/graphsync/impl/network/peer_context.cpp: the object itself. Each method
// is proved to make exactly the step that PeerProtocol defines.

module PeerContext {
  import opened Basics
  import opened IntSets
  import opened PeerProtocol
  import opened ResponseStatus
  import PeerEffects

  // The latest expiry among the streams that neither write nor are out of time, at least 0.
  ghost predicate IsLatestExpiry(m: int, p: Peer, seen: set<StreamId>, writing: set<StreamId>,
                                 backlog: set<StreamId>, now: int)
  {
    var e := ExtendStarved(p, writing, backlog, now);
    (m == 0 || exists s :: s in seen && Waits(p, s, writing, backlog, now) && e.streams[s].expireTime == m) &&
    m >= 0 &&
    forall s | s in seen && Waits(p, s, writing, backlog, now) :: e.streams[s].expireTime <= m
  }

  predicate Waits(p: Peer, s: StreamId, writing: set<StreamId>, backlog: set<StreamId>, now: int) {
    s in p.streams && !(p.streams[s].hasQueue && s in writing) && !TimedOut(p.streams[s], s, writing, backlog, now)
  }

  // They are the streams that stay without a write in flight.
  lemma WaitsIff(p: Peer, s: StreamId, writing: set<StreamId>, backlog: set<StreamId>, now: int)
    requires !p.closed
    ensures Waits(p, s, writing, backlog, now) <==>
            s in p.streams && s in Step(p, TimerFired(writing, backlog, now)).streams &&
            !(p.streams[s].hasQueue && s in writing)
  {
    PeerEffects.TimerLeaves(p, writing, backlog, now);
  }

  // What one more stream does to it.
  function Latest(m: int, p: Peer, s: StreamId, writing: set<StreamId>, backlog: set<StreamId>, now: int): int
    requires s in p.streams
  {
    var t := ExtendStarved(p, writing, backlog, now).streams[s].expireTime;
    if Waits(p, s, writing, backlog, now) && t > m then t else m
  }

  lemma LatestExpiryStep(m: int, p: Peer, seen: set<StreamId>, s: StreamId, writing: set<StreamId>,
                         backlog: set<StreamId>, now: int)
    requires IsLatestExpiry(m, p, seen, writing, backlog, now) && s in p.streams
    ensures IsLatestExpiry(Latest(m, p, s, writing, backlog, now), p, seen + {s}, writing, backlog, now)
  {
    var e := ExtendStarved(p, writing, backlog, now);
    if Latest(m, p, s, writing, backlog, now) == m && m != 0 {
      var x :| x in seen && Waits(p, x, writing, backlog, now) && e.streams[x].expireTime == m;
      assert x in seen + {s};
    }
  }

  const PEER_CLOSE_DELAY: int := 60000

  class PeerContext {
    var streams: map<StreamId, StreamCtx>
    var remoteRequestsStreams: map<RequestId, StreamId>
    var localRequestIds: set<RequestId>
    var requestsEndpoint: Endpoint
    var closed: bool
    var closeStatus: int
    var log: seq<Event>

    ghost function View(): Peer
      reads this
    {
      Peer(streams, remoteRequestsStreams, localRequestIds, requestsEndpoint, closed, closeStatus, log)
    }

    constructor ()
      ensures View() == INITIAL
    {
      streams, remoteRequestsStreams, localRequestIds := map[], map[], {};
      requestsEndpoint, closed, closeStatus, log := NoEndpoint, false, RS_INTERNAL_ERROR, [];
    }

    // True when the caller has to open a stream.
    method NeedToConnect() returns (connect: bool)
      modifies this
      ensures View() == PeerProtocol.NeedToConnect(old(View()))
      ensures connect <==> old(requestsEndpoint) == NoEndpoint && requestsEndpoint == Connecting
    {
      if requestsEndpoint != NoEndpoint {
        return false;
      }
      requestsEndpoint := Connecting;
      if streams == map[] {
        return true;
      }
      var s := Least(streams.Keys);
      streams := streams[s := streams[s].(hasQueue := true)];
      requestsEndpoint := Connected(s);
      connect := false;
    }

    method FinishStreamConfig(stream: StreamId, now: int)
      modifies this
      ensures View() == PeerProtocol.FinishStreamConfig(old(View()), stream, now)
    {
      var ctx := StreamCtx(false, false, {}, 0);
      if !closed && streams == map[] && requestsEndpoint == Connecting {
        ctx := ctx.(hasQueue := true);
        requestsEndpoint := Connected(stream);
      }
      if streams == map[] {
        log := log + [TimerScheduled];
      }
      ctx := ctx.(expireTime := now + STREAM_CLOSE_DELAY);
      ResetPeerTimeout();
      if stream !in streams {
        streams := streams[stream := ctx];
      }
    }

    method ResetPeerTimeout()
      modifies `log
      ensures View() == PeerProtocol.ResetPeerTimeout(old(View()))
    {
      if closed {
        return;
      }
      log := log + [TimerReset];
    }

    method KeepAlive()
      modifies `log
      ensures View() == PeerProtocol.ResetPeerTimeout(old(View()))
    {
      ResetPeerTimeout();
    }

    method ConnectFailed()
      modifies this
      ensures View() == PeerProtocol.ConnectFailed(old(View()))
    {
      if !closed && streams == map[] && requestsEndpoint == Connecting {
        Close(RS_CANNOT_CONNECT);
      }
    }

    method EnqueueRequest(id: RequestId, fits: bool)
      modifies this
      ensures View() == PeerProtocol.EnqueueRequest(old(View()), id, fits)
    {
      if closed {
        log := log + [Refused(id)];
        return;
      }
      if requestsEndpoint == NoEndpoint {
        Close(RS_INTERNAL_ERROR);
        return;
      }
      if fits {
        if id !in localRequestIds {
          log := log + [Accepted(id)];
        }
        localRequestIds := localRequestIds + {id};
      } else {
        Close(RS_SLOW_STREAM);
      }
    }

    method CancelRequest(id: RequestId, fits: bool)
      modifies this
      ensures View() == PeerProtocol.CancelRequest(old(View()), id, fits)
    {
      if closed {
        return;
      }
      if id in localRequestIds {
        log := log + [Withdrawn(id)];
      }
      localRequestIds := localRequestIds - {id};
      if requestsEndpoint != NoEndpoint {
        if fits {
          log := log + [CancelQueued(id)];
        }
      }
    }

    method CreateResponseEndpoint(stream: StreamId)
      requires stream in streams
      modifies `streams
      ensures View() == WithResponder(old(View()), stream)
    {
      streams := streams[stream := streams[stream].(hasQueue := true)];
      streams := streams[stream := streams[stream].(hasResponder := true)];
    }

    method AddBlockToResponse(id: RequestId, fits: bool) returns (added: bool)
      modifies this
      ensures View() == PeerProtocol.AddBlockToResponse(old(View()), id, fits)
      ensures added <==> fits && FindResponseSink(old(View()), id).Some?
    {
      if id !in remoteRequestsStreams {
        return false;
      }
      var stream := remoteRequestsStreams[id];
      if stream !in streams {
        return false;
      }
      CreateResponseEndpoint(stream);
      if !fits {
        Close(RS_SLOW_STREAM);
        return false;
      }
      log := log + [BlockAdded(stream, id)];
      added := true;
    }

    method SendResponse(id: RequestId, status: int, fits: bool)
      modifies this
      ensures View() == PeerProtocol.SendResponse(old(View()), id, status, fits)
    {
      if id !in remoteRequestsStreams {
        return;
      }
      var stream := remoteRequestsStreams[id];
      if stream !in streams {
        return;
      }
      CreateResponseEndpoint(stream);
      if fits {
        log := log + [Responded(stream, id, status)];
      } else {
        Close(RS_SLOW_STREAM);
      }
    }

    method Close(status: int)
      modifies this
      ensures View() == PeerProtocol.Close(old(View()), status)
      decreases if closed then 0 else 1, |streams|, 1
    {
      if closed {
        return;
      }
      closeStatus := status;
      closed := true;
      remoteRequestsStreams := map[];
      ghost var start := View();
      while streams != map[]
        invariant closed && DropStreams(View(), status) == DropStreams(start, status)
        decreases |streams|
      {
        CloseStream(Least(streams.Keys), status);
      }
      if requestsEndpoint != NoEndpoint {
        CloseLocalRequests(status);
      }
      log := log + [PeerClosed(status, status != RS_REJECTED_LOCALLY)];
    }

    method CloseStream(stream: StreamId, status: int)
      modifies this
      ensures View() == PeerProtocol.CloseStream(old(View()), stream, status)
      decreases if closed then 0 else 1, |streams|, 0
    {
      if stream !in streams {
        return;
      }
      ForgetRequests(streams[stream].remoteIds);
      streams := streams - {stream};
      if requestsEndpoint == Connected(stream) {
        CloseLocalRequests(status);
      }
      log := log + [StreamClosed(stream)];
      assert View() == DropStream(old(View()), stream, status);
      if !closed && streams == map[] && IsError(status) {
        Close(status);
      }
    }

    // The loop that closeStream and a complete request list share.
    method ForgetRequests(ids: set<RequestId>)
      modifies `remoteRequestsStreams
      ensures remoteRequestsStreams == old(remoteRequestsStreams) - ids
    {
      var rest := ids;
      while rest != {}
        invariant rest <= ids && remoteRequestsStreams == old(remoteRequestsStreams) - (ids - rest)
      {
        var id := Least(rest);
        remoteRequestsStreams := remoteRequestsStreams - {id};
        rest := rest - {id};
      }
    }

    method CloseLocalRequests(status: int)
      modifies `localRequestIds, `requestsEndpoint, `log
      ensures View() == PeerProtocol.CloseLocalRequests(old(View()), status)
    {
      var ids := localRequestIds;
      localRequestIds := {};
      while ids != {}
        invariant localRequestIds == {}
        invariant log + Notices(ids, status) == old(log) + Notices(old(localRequestIds), status)
      {
        var id := Least(ids);
        Associative(log, [Abandoned(id, status)], Notices(ids - {id}, status));
        log := log + [Abandoned(id, status)];
        ids := ids - {id};
      }
      assert log + [] == log;
      requestsEndpoint := NoEndpoint;
    }

    method OnResponse(r: Response)
      modifies this
      ensures View() == PeerProtocol.OnResponse(old(View()), r)
      ensures r.id !in old(localRequestIds) ==> View() == old(View())
      ensures r.id in old(localRequestIds) ==>
                log == old(log) + [Answered(r.id, r.status)] && (r.id in localRequestIds <==> !IsTerminal(r.status))
    {
      if r.id !in localRequestIds {
        return;
      }
      if IsTerminal(r.status) {
        localRequestIds := localRequestIds - {r.id};
      }
      log := log + [Answered(r.id, r.status)];
    }

    method OnRequest(stream: StreamId, r: Request)
      modifies this
      ensures View() == PeerProtocol.OnRequest(old(View()), stream, r)
    {
      if stream !in streams {
        return;
      }
      if r.cancel {
        streams := streams[stream := streams[stream].(remoteIds := streams[stream].remoteIds - {r.id})];
        remoteRequestsStreams := remoteRequestsStreams - {r.id};
        return;
      }
      CreateResponseEndpoint(stream);
      if r.id in remoteRequestsStreams {
        SendResponse(r.id, RS_REJECTED, r.fits);
      } else {
        remoteRequestsStreams := remoteRequestsStreams[r.id := stream];
        streams := streams[stream := streams[stream].(remoteIds := streams[stream].remoteIds + {r.id})];
        log := log + [RemoteRequest(stream, r.id)];
      }
    }

    // None: reading the stream failed.
    method OnReaderEvent(stream: StreamId, message: Option<Message>, now: int)
      modifies this
      ensures View() == PeerProtocol.OnReaderEvent(old(View()), stream, message, now)
    {
      if closed {
        return;
      }
      if message == None {
        CloseStream(stream, RS_CONNECTION_ERROR);
        return;
      }
      ResetPeerTimeout();
      if stream !in streams {
        return;
      }
      var m := message.value;
      if m.completeList {
        ForgetRequests(streams[stream].remoteIds);
        streams := streams[stream := streams[stream].(remoteIds := {})];
      }
      ReadRequests(stream, m.requests);
      ReadResponses(m.responses);
      ReadBlocks(m.blocks);
      if stream in streams {
        streams := streams[stream := streams[stream].(expireTime := now + STREAM_CLOSE_DELAY)];
      }
    }

    method ReadRequests(stream: StreamId, rs: seq<Request>)
      modifies this
      ensures View() == OnRequests(old(View()), stream, rs, |rs|)
    {
      for i := 0 to |rs|
        invariant View() == OnRequests(old(View()), stream, rs, i)
      {
        OnRequest(stream, rs[i]);
      }
    }

    method ReadResponses(rs: seq<Response>)
      modifies this
      ensures View() == OnResponses(old(View()), rs, |rs|)
    {
      for i := 0 to |rs|
        invariant View() == OnResponses(old(View()), rs, i)
      {
        OnResponse(rs[i]);
      }
    }

    method ReadBlocks(blocks: seq<int>)
      modifies this
      ensures View() == OnBlocks(old(View()), blocks, |blocks|)
    {
      var root, rootSet := 0, false;
      for i := 0 to |blocks|
        invariant View() == OnBlocks(old(View()), blocks, i)
        invariant rootSet == (i > 0) && (rootSet ==> root == blocks[0])
      {
        if !rootSet {
          root := blocks[i];
          rootSet := true;
        }
        log := log + [BlockReceived(root, blocks[i])];
      }
    }

    method OnWriterEvent(stream: StreamId, ok: bool, now: int)
      modifies this
      ensures View() == PeerProtocol.OnWriterEvent(old(View()), stream, ok, now)
    {
      if closed {
        return;
      }
      if !ok {
        Close(RS_CONNECTION_ERROR);
        return;
      }
      ResetPeerTimeout();
      if stream in streams {
        streams := streams[stream := streams[stream].(expireTime := now + STREAM_CLOSE_DELAY)];
      }
    }

    // Returns the delay after which the timer fires again, if it does.
    method OnStreamCleanupTimer(writing: set<StreamId>, backlog: set<StreamId>, now: int) returns (delay: Option<int>)
      modifies this
      ensures View() == OnCleanupTimer(old(View()), writing, backlog, now)
      ensures delay.Some? <==> !closed && streams != map[]
      ensures delay.Some? ==>
                exists m :: IsLatestExpiry(m, old(View()), old(streams.Keys), writing, backlog, now) &&
                            delay.value == if m > now then m - now else 60000
    {
      if streams == map[] {
        Close(RS_TIMEOUT);
        return None;
      }
      var timedOut, latest := FindTimedOut(writing, backlog, now);
      ghost var start := View();
      for i := 0 to |timedOut|
        invariant View() == CloseEach(start, timedOut, i)
      {
        CloseStream(timedOut[i], RS_TIMEOUT);
      }
      if closed || streams == map[] {
        return None;
      }
      delay := Some(if latest > now then latest - now else PEER_CLOSE_DELAY);
    }

    // One pass in the order of the map: extends starved streams, collects idle ones.
    method FindTimedOut(writing: set<StreamId>, backlog: set<StreamId>, now: int)
        returns (timedOut: seq<StreamId>, latest: int)
      modifies `streams
      ensures View() == ExtendStarved(old(View()), writing, backlog, now)
      ensures timedOut == AscendingSeq(TimedOutStreams(old(View()), writing, backlog, now))
      ensures IsLatestExpiry(latest, old(View()), old(streams.Keys), writing, backlog, now)
    {
      timedOut, latest := [], 0;
      var rest := streams.Keys;
      ghost var p := View();
      ghost var ids := TimedOutStreams(p, writing, backlog, now);
      ghost var extended := ExtendStarved(p, writing, backlog, now).streams;
      assert ids * rest == ids;
      while rest != {}
        invariant rest <= p.streams.Keys && streams.Keys == p.streams.Keys
        invariant forall s | s in p.streams :: streams[s] == if s in rest then p.streams[s] else extended[s]
        invariant timedOut + AscendingSeq(ids * rest) == AscendingSeq(ids)
        invariant IsLatestExpiry(latest, p, p.streams.Keys - rest, writing, backlog, now)
      {
        var s := Least(rest);
        AscendingSplit(ids, rest, s);
        Associative(timedOut, if s in ids then [s] else [], AscendingSeq(ids * (rest - {s})));
        LatestExpiryStep(latest, p, p.streams.Keys - rest, s, writing, backlog, now);
        assert p.streams.Keys - (rest - {s}) == p.streams.Keys - rest + {s};
        rest := rest - {s};
        latest, timedOut := CheckStream(p, s, latest, timedOut, writing, backlog, now);
      }
      assert timedOut + [] == timedOut;
      assert streams == extended;
    }

    method CheckStream(ghost p: Peer, s: StreamId, latest: int, timedOut: seq<StreamId>,
                       writing: set<StreamId>, backlog: set<StreamId>, now: int)
        returns (latest': int, timedOut': seq<StreamId>)
      requires s in streams && s in p.streams && streams[s] == p.streams[s]
      modifies `streams
      ensures streams == old(streams)[s := ExtendStarved(p, writing, backlog, now).streams[s]]
      ensures latest' == Latest(latest, p, s, writing, backlog, now)
      ensures timedOut' == timedOut + if s in TimedOutStreams(p, writing, backlog, now) then [s] else []
    {
      latest', timedOut' := latest, timedOut;
      var ctx := streams[s];
      if ctx.hasQueue && s in writing {
        return;
      }
      if ctx.hasQueue && s in backlog {
        streams := streams[s := Extended(ctx, now)];
        if streams[s].expireTime > latest {
          latest' := streams[s].expireTime;
        }
        return;
      }
      if ctx.expireTime <= now {
        timedOut' := timedOut + [s];
      } else if ctx.expireTime > latest {
        latest' := ctx.expireTime;
      }
    }
  }
}
