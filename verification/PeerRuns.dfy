// What every run of peer steps keeps: the structure of the peer's tables, and the
// accounting of its callbacks.

module PeerRuns {
  import opened Basics
  import opened IntSets
  import Logs
  import opened PeerProtocol
  import opened ResponseStatus

  // ---------------------------------------------- the discipline of callbacks

  // What a log says: the local requests still open, the stream each remote request was last
  // made through, and how the peer was reported closed.
  datatype Account = Account(open: set<RequestId>, asked: map<RequestId, StreamId>, reported: Option<int>)

  // A request opens once, is answered or abandoned only while open, and ends with its
  // terminal answer, its abandonment or its withdrawal; the peer is reported closed once,
  // with nothing open and nothing opened later; only then is a request refused. A remote
  // request is served through the stream it was last made through.
  function Record(a: Account, e: Event): Option<Account> {
    match e
    case Accepted(id) => if id !in a.open && a.reported == None then Some(a.(open := a.open + {id})) else None
    case Withdrawn(id) => if id in a.open then Some(a.(open := a.open - {id})) else None
    case Answered(id, status) =>
      if id !in a.open then None else if IsTerminal(status) then Some(a.(open := a.open - {id})) else Some(a)
    case Abandoned(id, _) => if id in a.open then Some(a.(open := a.open - {id})) else None
    case Refused(_) => if a.reported.Some? then Some(a) else None
    case RemoteRequest(s, id) => Some(a.(asked := a.asked[id := s]))
    case Responded(s, id, _) => if id in a.asked && a.asked[id] == s then Some(a) else None
    case BlockAdded(s, id) => if id in a.asked && a.asked[id] == s then Some(a) else None
    case PeerClosed(status, deferred) =>
      if a.reported == None && a.open == {} && deferred == (status != RS_REJECTED_LOCALLY)
      then Some(a.(reported := Some(status))) else None
    case _ => Some(a)
  }

  const NOTHING: Account := Account({}, map[], None)

  function Replay(log: seq<Event>): Option<Account> {
    Logs.Replay(Record, NOTHING, log)
  }

  lemma ReplaySnoc(log: seq<Event>, e: Event)
    ensures Replay(log + [e]) == match Replay(log) case None => None case Some(a) => Record(a, e)
  {
    Logs.ReplaySnoc(Record, NOTHING, log, e);
  }

  // ------------------------------------------------------------ the invariant

  // Every remote request names a live stream that lists it; a connected endpoint writes to
  // the queue of a live stream.
  ghost predicate Linked(p: Peer) {
    (forall id | id in p.remote :: p.remote[id] in p.streams && id in p.streams[p.remote[id]].remoteIds) &&
    (p.endpoint.Connected? ==> p.endpoint.stream in p.streams && p.streams[p.endpoint.stream].hasQueue) &&
    (forall s | s in p.streams :: p.streams[s].hasResponder ==> p.streams[s].hasQueue)
  }

  // The log keeps the discipline and says what the tables say.
  ghost predicate Agrees(a: Account, p: Peer, reported: Option<int>) {
    a.open == p.local && a.reported == reported &&
    forall id | id in p.remote :: id in a.asked && a.asked[id] == p.remote[id]
  }

  ghost predicate Accounted(p: Peer, reported: Option<int>) {
    Replay(p.log).Some? && Agrees(Replay(p.log).value, p, reported) && (p.local != {} ==> p.endpoint != NoEndpoint)
  }

  ghost predicate Inv(p: Peer) {
    Linked(p) && Accounted(p, if p.closed then Some(p.closeStatus) else None) &&
    (!p.closed && p.endpoint == Connecting ==> p.streams == map[]) &&
    (p.closed ==> p.remote == map[] && p.local == {})
  }

  // ------------------------------------------------------------------ closing

  lemma {:induction false} NoticesEndAll(log: seq<Event>, ids: set<RequestId>, status: int, a: Account)
    requires Replay(log) == Some(a) && ids <= a.open
    ensures Replay(log + Notices(ids, status)) == Some(a.(open := a.open - ids))
    decreases ids
  {
    if ids == {} {
      assert log + Notices(ids, status) == log && a.open - ids == a.open;
    } else {
      var id := Least(ids);
      var e := Abandoned(id, status);
      ReplaySnoc(log, e);
      NoticesEndAll(log + [e], ids - {id}, status, a.(open := a.open - {id}));
      Associative(log, [e], Notices(ids - {id}, status));
      assert a.open - {id} - (ids - {id}) == a.open - ids;
    }
  }

  lemma CloseLocalRequestsAccounts(p: Peer, status: int, reported: Option<int>)
    requires Replay(p.log).Some? && Agrees(Replay(p.log).value, p, reported)
    ensures Accounted(CloseLocalRequests(p, status), reported)
  {
    NoticesEndAll(p.log, p.local, status, Replay(p.log).value);
    assert p.local - p.local == {};
  }

  lemma DropStreamKeepsLinks(p: Peer, s: StreamId, status: int)
    requires Linked(p) && s in p.streams
    ensures var q := DropStream(p, s, status);
            Linked(q) && q.streams == p.streams - {s} && q.closed == p.closed && q.closeStatus == p.closeStatus &&
            (q.endpoint == p.endpoint || q.endpoint == NoEndpoint) && (p.remote == map[] ==> q.remote == map[])
  {
  }

  lemma StreamClosedAccounts(p: Peer, q: Peer, s: StreamId, reported: Option<int>)
    requires Accounted(p, reported) && q.local == p.local && q.endpoint == p.endpoint
    requires q.log == p.log + [StreamClosed(s)]
    requires forall id | id in q.remote :: id in p.remote && q.remote[id] == p.remote[id]
    ensures Accounted(q, reported)
  {
    ReplaySnoc(p.log, StreamClosed(s));
  }

  lemma DropStreamKeepsAccount(p: Peer, s: StreamId, status: int, reported: Option<int>)
    requires Accounted(p, reported) && s in p.streams
    ensures Accounted(DropStream(p, s, status), reported)
  {
    if p.endpoint == Connected(s) {
      CloseLocalRequestsAccounts(p, status, reported);
      StreamClosedAccounts(CloseLocalRequests(p, status), DropStream(p, s, status), s, reported);
    } else {
      StreamClosedAccounts(p, DropStream(p, s, status), s, reported);
    }
  }

  lemma {:induction false} DropStreamsKeeps(p: Peer, status: int, reported: Option<int>)
    requires Linked(p) && Accounted(p, reported) && p.remote == map[]
    ensures var q := DropStreams(p, status);
            Linked(q) && Accounted(q, reported) && q.streams == map[] && q.remote == map[] &&
            q.closed == p.closed && q.closeStatus == p.closeStatus
    decreases |p.streams|
  {
    if p.streams != map[] {
      var s := Least(p.streams.Keys);
      DropStreamKeepsLinks(p, s, status);
      DropStreamKeepsAccount(p, s, status, reported);
      DropStreamsKeeps(DropStream(p, s, status), status, reported);
    }
  }

  // The last event of a peer that has nothing left.
  lemma ReportedKeeps(p: Peer, status: int)
    requires Linked(p) && Accounted(p, None) && p.closed && p.closeStatus == status
    requires p.remote == map[] && p.local == {} && p.endpoint == NoEndpoint
    ensures Inv(Logged(p, PeerClosed(status, status != RS_REJECTED_LOCALLY)))
  {
    var a, e := Replay(p.log).value, PeerClosed(status, status != RS_REJECTED_LOCALLY);
    ReplaySnoc(p.log, e);
    assert Record(a, e) == Some(a.(reported := Some(status)));
    assert Replay(Logged(p, e).log) == Some(a.(reported := Some(status)));
  }

  lemma CloseKeeps(p: Peer, status: int)
    requires Linked(p) && Accounted(p, if p.closed then Some(p.closeStatus) else None)
    requires p.closed ==> Inv(p)
    ensures Inv(Close(p, status)) && Close(p, status).closed
    ensures !p.closed ==> var q := Close(p, status);
                          q.streams == map[] && q.endpoint == NoEndpoint && q.closeStatus == status
  {
    if !p.closed {
      var p1 := p.(closed := true, closeStatus := status, remote := map[]);
      DropStreamsKeeps(p1, status, None);
      var q := DropStreams(p1, status);
      if q.endpoint != NoEndpoint {
        CloseLocalRequestsAccounts(q, status, None);
        ReportedKeeps(CloseLocalRequests(q, status), status);
      } else {
        ReportedKeeps(q, status);
      }
    }
  }

  lemma CloseStreamKeeps(p: Peer, s: StreamId, status: int)
    requires Inv(p)
    ensures Inv(CloseStream(p, s, status))
  {
    if s in p.streams {
      DropStreamKeepsLinks(p, s, status);
      DropStreamKeepsAccount(p, s, status, if p.closed then Some(p.closeStatus) else None);
      var q := DropStream(p, s, status);
      if !q.closed && q.streams == map[] && IsError(status) {
        CloseKeeps(q, status);
      }
    }
  }

  // -------------------------------------------------------------------- steps

  lemma NeedToConnectKeeps(p: Peer)
    requires Inv(p)
    ensures Inv(NeedToConnect(p))
  {
  }

  // Timers and cancel messages do not concern the account.
  lemma LoggedKeeps(p: Peer, e: Event)
    requires Inv(p) && (e.TimerScheduled? || e.TimerReset? || e.CancelQueued?)
    ensures Inv(Logged(p, e))
  {
    var a := Replay(p.log).value;
    ReplaySnoc(p.log, e);
    assert Record(a, e) == Some(a);
    assert Replay(Logged(p, e).log) == Some(a);
  }

  lemma FinishStreamConfigKeeps(p: Peer, s: StreamId, now: int)
    requires Inv(p)
    ensures Inv(FinishStreamConfig(p, s, now))
  {
    LoggedKeeps(p, TimerScheduled);
    var q := if p.streams == map[] then Logged(p, TimerScheduled) else p;
    LoggedKeeps(q, TimerReset);
    JoinKeeps(ResetPeerTimeout(q), s, now);
  }

  lemma JoinKeeps(p: Peer, s: StreamId, now: int)
    requires Inv(p)
    ensures var joins := IsConnecting(p);
            var ctx := StreamCtx(joins, false, {}, now + STREAM_CLOSE_DELAY);
            Inv(p.(endpoint := if joins then Connected(s) else p.endpoint,
                   streams := if s in p.streams then p.streams else p.streams[s := ctx]))
  {
  }

  lemma EnqueueRequestKeeps(p: Peer, id: RequestId, fits: bool)
    requires Inv(p)
    ensures Inv(EnqueueRequest(p, id, fits))
  {
    if p.closed {
      ReplaySnoc(p.log, Refused(id));
    } else if p.endpoint == NoEndpoint {
      CloseKeeps(p, RS_INTERNAL_ERROR);
    } else if !fits {
      CloseKeeps(p, RS_SLOW_STREAM);
    } else {
      ReplaySnoc(p.log, Accepted(id));
    }
  }

  lemma CancelRequestKeeps(p: Peer, id: RequestId, fits: bool)
    requires Inv(p)
    ensures Inv(CancelRequest(p, id, fits))
  {
    if !p.closed {
      ReplaySnoc(p.log, Withdrawn(id));
      LoggedKeeps(Withdraw(p, id), CancelQueued(id));
    }
  }

  lemma OnResponseKeeps(p: Peer, r: Response)
    requires Inv(p)
    ensures Inv(OnResponse(p, r))
  {
    ReplaySnoc(p.log, Answered(r.id, r.status));
  }

  lemma WithResponderKeeps(p: Peer, s: StreamId)
    requires Inv(p) && s in p.streams
    ensures Inv(WithResponder(p, s)) && WithResponder(p, s).streams.Keys == p.streams.Keys
  {
  }

  // The stream of a remote request is always found.
  lemma SinkIsFound(p: Peer, id: RequestId)
    requires Inv(p)
    ensures FindResponseSink(p, id) == if id in p.remote then Some(p.remote[id]) else None
  {
  }

  lemma AddBlockKeeps(p: Peer, id: RequestId, fits: bool)
    requires Inv(p)
    ensures Inv(AddBlockToResponse(p, id, fits))
  {
    match FindResponseSink(p, id)
    case None =>
    case Some(s) =>
      WithResponderKeeps(p, s);
      if fits {
        ReplaySnoc(p.log, BlockAdded(s, id));
      } else {
        CloseKeeps(WithResponder(p, s), RS_SLOW_STREAM);
      }
  }

  lemma SendResponseKeeps(p: Peer, id: RequestId, status: int, fits: bool)
    requires Inv(p)
    ensures Inv(SendResponse(p, id, status, fits))
  {
    match FindResponseSink(p, id)
    case None =>
    case Some(s) =>
      WithResponderKeeps(p, s);
      if fits {
        ReplaySnoc(p.log, Responded(s, id, status));
      } else {
        CloseKeeps(WithResponder(p, s), RS_SLOW_STREAM);
      }
  }

  lemma OnCancelKeeps(p: Peer, s: StreamId, id: RequestId)
    requires Inv(p) && s in p.streams
    ensures Inv(OnCancel(p, s, id))
  {
  }

  lemma OnNewRequestKeeps(p: Peer, s: StreamId, id: RequestId)
    requires Inv(p) && !p.closed && s in p.streams
    ensures Inv(OnNewRequest(p, s, id)) && !OnNewRequest(p, s, id).closed
  {
    var a, q := Replay(p.log).value, OnNewRequest(p, s, id);
    ReplaySnoc(p.log, RemoteRequest(s, id));
    assert Replay(q.log) == Some(a.(asked := a.asked[id := s]));
  }

  lemma RejectionKeeps(p: Peer, id: RequestId, fits: bool)
    requires Inv(p) && !p.closed && id in p.remote
    ensures var q := SendResponse(p, id, RS_REJECTED, fits); Inv(q) && (q.closed ==> q.streams == map[])
  {
    SendResponseKeeps(p, id, RS_REJECTED, fits);
    if !fits {
      WithResponderKeeps(p, p.remote[id]);
      CloseEndsEmpty(WithResponder(p, p.remote[id]), RS_SLOW_STREAM);
    }
  }

  lemma OnRequestKeeps(p: Peer, s: StreamId, r: Request)
    requires Inv(p) && (p.closed ==> s !in p.streams)
    ensures Inv(OnRequest(p, s, r)) && (OnRequest(p, s, r).closed ==> s !in OnRequest(p, s, r).streams)
  {
    if s in p.streams {
      if r.cancel {
        OnCancelKeeps(p, s, r.id);
      } else {
        var q := WithResponder(p, s);
        WithResponderKeeps(p, s);
        if r.id in q.remote {
          RejectionKeeps(q, r.id, r.fits);
        } else {
          OnNewRequestKeeps(q, s, r.id);
        }
      }
    }
  }

  lemma {:induction false} OnRequestsKeeps(p: Peer, s: StreamId, rs: seq<Request>, n: nat)
    requires Inv(p) && (p.closed ==> s !in p.streams) && n <= |rs|
    ensures Inv(OnRequests(p, s, rs, n)) && (OnRequests(p, s, rs, n).closed ==> s !in OnRequests(p, s, rs, n).streams)
  {
    if n > 0 {
      OnRequestsKeeps(p, s, rs, n - 1);
      OnRequestKeeps(OnRequests(p, s, rs, n - 1), s, rs[n - 1]);
    }
  }

  lemma {:induction false} OnResponsesKeeps(p: Peer, rs: seq<Response>, n: nat)
    requires Inv(p) && n <= |rs|
    ensures Inv(OnResponses(p, rs, n))
  {
    if n > 0 {
      OnResponsesKeeps(p, rs, n - 1);
      OnResponseKeeps(OnResponses(p, rs, n - 1), rs[n - 1]);
    }
  }

  lemma {:induction false} OnBlocksKeeps(p: Peer, blocks: seq<int>, n: nat)
    requires Inv(p) && n <= |blocks|
    ensures Inv(OnBlocks(p, blocks, n))
  {
    if n > 0 {
      OnBlocksKeeps(p, blocks, n - 1);
      ReplaySnoc(OnBlocks(p, blocks, n - 1).log, BlockReceived(blocks[0], blocks[n - 1]));
    }
  }

  lemma ShiftExpireTimeKeeps(p: Peer, s: StreamId, now: int)
    requires Inv(p)
    ensures Inv(ShiftExpireTime(p, s, now))
  {
  }

  lemma OnMessageKeeps(p: Peer, s: StreamId, m: Message, now: int)
    requires Inv(p) && !p.closed && s in p.streams
    ensures Inv(OnMessage(p, s, m, now))
  {
    var p1 := if m.completeList then ForgetRemote(p, s) else p;
    OnRequestsKeeps(p1, s, m.requests, |m.requests|);
    var p2 := OnRequests(p1, s, m.requests, |m.requests|);
    OnResponsesKeeps(p2, m.responses, |m.responses|);
    var p3 := OnResponses(p2, m.responses, |m.responses|);
    OnBlocksKeeps(p3, m.blocks, |m.blocks|);
    ShiftExpireTimeKeeps(OnBlocks(p3, m.blocks, |m.blocks|), s, now);
  }

  lemma OnReaderEventKeeps(p: Peer, s: StreamId, m: Option<Message>, now: int)
    requires Inv(p)
    ensures Inv(OnReaderEvent(p, s, m, now))
  {
    if p.closed {
    } else if m == None {
      CloseStreamKeeps(p, s, RS_CONNECTION_ERROR);
    } else {
      LoggedKeeps(p, TimerReset);
      if s in p.streams {
        OnMessageKeeps(ResetPeerTimeout(p), s, m.value, now);
      }
    }
  }

  lemma OnWriterEventKeeps(p: Peer, s: StreamId, ok: bool, now: int)
    requires Inv(p)
    ensures Inv(OnWriterEvent(p, s, ok, now))
  {
    if !p.closed && !ok {
      CloseKeeps(p, RS_CONNECTION_ERROR);
    } else if !p.closed {
      LoggedKeeps(p, TimerReset);
      ShiftExpireTimeKeeps(ResetPeerTimeout(p), s, now);
    }
  }

  lemma {:induction false} CloseEachKeeps(p: Peer, ss: seq<StreamId>, n: nat)
    requires Inv(p) && n <= |ss|
    ensures Inv(CloseEach(p, ss, n))
  {
    if n > 0 {
      CloseEachKeeps(p, ss, n - 1);
      CloseStreamKeeps(CloseEach(p, ss, n - 1), ss[n - 1], RS_TIMEOUT);
    }
  }

  lemma ExtendStarvedKeeps(p: Peer, writing: set<StreamId>, backlog: set<StreamId>, now: int)
    requires Inv(p)
    ensures Inv(ExtendStarved(p, writing, backlog, now))
  {
    assert ExtendStarved(p, writing, backlog, now).streams.Keys == p.streams.Keys;
  }

  lemma OnCleanupTimerKeeps(p: Peer, writing: set<StreamId>, backlog: set<StreamId>, now: int)
    requires Inv(p)
    ensures Inv(OnCleanupTimer(p, writing, backlog, now))
  {
    if p.streams == map[] {
      CloseKeeps(p, RS_TIMEOUT);
    } else {
      ExtendStarvedKeeps(p, writing, backlog, now);
      var ss := AscendingSeq(TimedOutStreams(p, writing, backlog, now));
      CloseEachKeeps(ExtendStarved(p, writing, backlog, now), ss, |ss|);
    }
  }

  lemma ConnectFailedKeeps(p: Peer)
    requires Inv(p)
    ensures Inv(ConnectFailed(p))
  {
    if IsConnecting(p) {
      CloseKeeps(p, RS_CANNOT_CONNECT);
    }
  }

  lemma RequestStepKeeps(p: Peer, i: Input)
    requires Inv(p) && (i.DoEnqueue? || i.DoCancel? || i.DoAddBlock? || i.DoSend?)
    ensures Inv(Step(p, i))
  {
    match i
    case DoEnqueue(id, fits) => EnqueueRequestKeeps(p, id, fits);
    case DoCancel(id, fits) => CancelRequestKeeps(p, id, fits);
    case DoAddBlock(id, fits) => AddBlockKeeps(p, id, fits);
    case DoSend(id, status, fits) => SendResponseKeeps(p, id, status, fits);
  }

  lemma StreamReadyKeeps(p: Peer, s: StreamId, now: int)
    requires Inv(p)
    ensures Inv(Step(p, StreamReady(s, now)))
  {
    FinishStreamConfigKeeps(p, s, now);
  }

  lemma ReadKeeps(p: Peer, s: StreamId, m: Option<Message>, now: int)
    requires Inv(p)
    ensures Inv(Step(p, Read(s, m, now)))
  {
    OnReaderEventKeeps(p, s, m, now);
  }

  lemma WroteKeeps(p: Peer, s: StreamId, ok: bool, now: int)
    requires Inv(p)
    ensures Inv(Step(p, Wrote(s, ok, now)))
  {
    OnWriterEventKeeps(p, s, ok, now);
  }

  lemma StepKeeps(p: Peer, i: Input)
    requires Inv(p)
    ensures Inv(Step(p, i))
  {
    match i
    case DoConnect => NeedToConnectKeeps(p);
    case DoKeepAlive => LoggedKeeps(p, TimerReset);
    case DoClose(status) => CloseKeeps(p, status);
    case TimerFired(writing, backlog, now) => OnCleanupTimerKeeps(p, writing, backlog, now);
    case StreamReady(s, now) => StreamReadyKeeps(p, s, now);
    case DoConnectFailed => ConnectFailedKeeps(p);
    case Read(s, m, now) => ReadKeeps(p, s, m, now);
    case Wrote(s, ok, now) => WroteKeeps(p, s, ok, now);
    case _ => RequestStepKeeps(p, i);
  }

  lemma {:induction false} EveryRunKeeps(inputs: seq<Input>)
    ensures Inv(Run(inputs))
  {
    if inputs != [] {
      EveryRunKeeps(inputs[..|inputs| - 1]);
      StepKeeps(Run(inputs[..|inputs| - 1]), inputs[|inputs| - 1]);
    }
  }

  // ------------------------------------------------------------ conservation

  datatype Kind = Entry | End | Withdrawal

  // Entry: the id enters local_request_ids_. End: its last callback. Withdrawal: it is cancelled.
  predicate IsA(e: Event, kind: Kind, id: RequestId) {
    match kind
    case Entry => e == Accepted(id)
    case End => (e.Abandoned? && e.id == id) || (e.Answered? && e.id == id && IsTerminal(e.status))
    case Withdrawal => e == Withdrawn(id)
  }

  function Count(log: seq<Event>, kind: Kind, id: RequestId): nat {
    if log == [] then 0
    else Count(log[..|log| - 1], kind, id) + if IsA(log[|log| - 1], kind, id) then 1 else 0
  }

  lemma {:induction false} DisciplineConserves(log: seq<Event>, id: RequestId)
    requires Replay(log).Some?
    ensures Count(log, Entry, id) ==
            Count(log, End, id) + Count(log, Withdrawal, id) + if id in Replay(log).value.open then 1 else 0
  {
    if log != [] {
      DisciplineConserves(log[..|log| - 1], id);
    }
  }

  // Requests are conserved; so an accepted request that was not cancelled has, once the
  // peer is closed, had exactly one last callback.
  lemma RequestsAreConserved(inputs: seq<Input>, id: RequestId)
    ensures var p := Run(inputs);
            Count(p.log, Entry, id) ==
            Count(p.log, End, id) + Count(p.log, Withdrawal, id) + if id in p.local then 1 else 0
    ensures var p := Run(inputs);
            p.closed && Count(p.log, Entry, id) == 1 && Count(p.log, Withdrawal, id) == 0 ==>
              Count(p.log, End, id) == 1
  {
    EveryRunKeeps(inputs);
    DisciplineConserves(Run(inputs).log, id);
  }

  // At any moment of any run: a callback for a request finds it accepted and not yet
  // ended, nothing is accepted after the peer was reported closed, that is reported once,
  // and a remote request is served through the stream it was last made through.
  lemma CallbacksOnlyWhileOpen(inputs: seq<Input>, k: nat)
    requires k < |Run(inputs).log|
    ensures var log := Run(inputs).log;
            Replay(log[..k]).Some? &&
            var a := Replay(log[..k]).value;
            match log[k]
            case Answered(id, _) => id in a.open
            case Abandoned(id, _) => id in a.open
            case Accepted(id) => id !in a.open && a.reported == None
            case PeerClosed(_, _) => a.open == {} && a.reported == None
            case Refused(_) => a.reported.Some?
            case Responded(s, id, _) => id in a.asked && a.asked[id] == s
            case BlockAdded(s, id) => id in a.asked && a.asked[id] == s
            case _ => true
  {
    EveryRunKeeps(inputs);
    Logs.EveryEventInPlace(Record, NOTHING, Run(inputs).log, k);
  }

  // A closed peer stays closed, and with the status it was closed with.
  lemma {:induction false} ClosedIsForever(inputs: seq<Input>, more: seq<Input>)
    requires Run(inputs).closed
    ensures Run(inputs + more).closed && Run(inputs + more).closeStatus == Run(inputs).closeStatus
    decreases |more|
  {
    if more == [] {
      assert inputs + more == inputs;
    } else {
      var init := more[..|more| - 1];
      ClosedIsForever(inputs, init);
      assert (inputs + more)[..|inputs + more| - 1] == inputs + init;
      StepStaysClosed(Run(inputs + init), more[|more| - 1]);
    }
  }

  lemma StepStaysClosed(p: Peer, i: Input)
    requires p.closed
    ensures Step(p, i).closed && Step(p, i).closeStatus == p.closeStatus
  {
    if i.TimerFired? && p.streams != map[] {
      var ss := AscendingSeq(TimedOutStreams(p, i.writing, i.backlog, i.now));
      CloseEachStaysClosed(ExtendStarved(p, i.writing, i.backlog, i.now), ss, |ss|);
    }
  }

  lemma {:induction false} CloseEachStaysClosed(p: Peer, ss: seq<StreamId>, n: nat)
    requires p.closed && n <= |ss|
    ensures CloseEach(p, ss, n).closed && CloseEach(p, ss, n).closeStatus == p.closeStatus
  {
    if n > 0 {
      CloseEachStaysClosed(p, ss, n - 1);
    }
  }

  // ------------------------------------------------------ what a step adds to the log

  ghost predicate Grows(a: seq<Event>, b: seq<Event>, ok: Event -> bool) {
    a <= b && forall k | |a| <= k < |b| :: ok(b[k])
  }

  ghost predicate AllowsClosing(ok: Event -> bool, ids: set<RequestId>, status: int) {
    (forall s :: ok(StreamClosed(s))) && (forall id | id in ids :: ok(Abandoned(id, status))) &&
    ok(PeerClosed(status, status != RS_REJECTED_LOCALLY))
  }

  lemma {:induction false} NoticesGrow(log: seq<Event>, ids: set<RequestId>, status: int, ok: Event -> bool)
    requires forall id | id in ids :: ok(Abandoned(id, status))
    ensures Grows(log, log + Notices(ids, status), ok)
    decreases ids
  {
    if ids != {} {
      var e := Abandoned(Least(ids), status);
      NoticesGrow(log + [e], ids - {Least(ids)}, status, ok);
      Associative(log, [e], Notices(ids - {Least(ids)}, status));
    }
  }

  lemma DropStreamGrows(p: Peer, s: StreamId, status: int, ok: Event -> bool)
    requires s in p.streams && AllowsClosing(ok, p.local, status)
    ensures Grows(p.log, DropStream(p, s, status).log, ok) && DropStream(p, s, status).local <= p.local
  {
    NoticesGrow(p.log, p.local, status, ok);
    assert ok(StreamClosed(s));
  }

  lemma {:induction false} DropStreamsGrows(p: Peer, status: int, ok: Event -> bool)
    requires AllowsClosing(ok, p.local, status)
    ensures Grows(p.log, DropStreams(p, status).log, ok) && DropStreams(p, status).local <= p.local
    decreases |p.streams|
  {
    if p.streams != map[] {
      DropStreamGrows(p, Least(p.streams.Keys), status, ok);
      DropStreamsGrows(DropStream(p, Least(p.streams.Keys), status), status, ok);
    }
  }

  lemma CloseGrows(p: Peer, status: int, ok: Event -> bool)
    requires AllowsClosing(ok, p.local, status)
    ensures Grows(p.log, Close(p, status).log, ok)
  {
    if !p.closed {
      var p1 := p.(closed := true, closeStatus := status, remote := map[]);
      DropStreamsGrows(p1, status, ok);
      var q := DropStreams(p1, status);
      NoticesGrow(q.log, q.local, status, ok);
    }
  }

  // ------------------------------------------------------ requests that get no callback

  predicate Concerns(e: Event, id: RequestId) {
    (e.Accepted? || e.Answered? || e.Abandoned? || e.Refused?) && e.id == id
  }

  // A new request is neither accepted nor called back exactly when the peer is open and
  // has no endpoint, or one that cannot take the message.
  lemma RequestLostIff(p: Peer, id: RequestId, fits: bool)
    requires Inv(p) && id !in p.local
    ensures var q := EnqueueRequest(p, id, fits);
            p.log <= q.log &&
            ((exists k :: |p.log| <= k < |q.log| && Concerns(q.log[k], id)) <==>
             p.closed || (p.endpoint != NoEndpoint && fits))
  {
    var q := EnqueueRequest(p, id, fits);
    if p.closed || (p.endpoint != NoEndpoint && fits) {
      assert Concerns(q.log[|p.log|], id);
    } else {
      CloseGrows(p, if p.endpoint == NoEndpoint then RS_INTERNAL_ERROR else RS_SLOW_STREAM, e => !Concerns(e, id));
    }
  }

  // Such a state is reached, and the request of the peer's very first caller may be the one.
  lemma RequestMayBeLost()
    ensures var p := Run([DoConnect] + [StreamReady(1, 0)]);
            var q := Run([DoConnect] + [StreamReady(1, 0)] + [DoEnqueue(7, false)]);
            !p.closed && p.endpoint == Connected(1) && q.closed &&
            forall k | |p.log| <= k < |q.log| :: !Concerns(q.log[k], 7)
  {
    RunSnoc([], DoConnect);
    assert [] + [DoConnect] == [DoConnect];
    assert Run([DoConnect]).endpoint == Connecting;
    RunSnoc([DoConnect], StreamReady(1, 0));
    var inputs := [DoConnect] + [StreamReady(1, 0)];
    var p := Run(inputs);
    assert p.endpoint == Connected(1) && p.local == {} && !p.closed;
    RunSnoc(inputs, DoEnqueue(7, false));
    EveryRunKeeps(inputs);
    RequestLostIff(p, 7, false);
    CloseEndsEmpty(p, RS_SLOW_STREAM);
  }

  // -------------------------------------------------- one last callback is a terminal one

  predicate EndsTerminally(e: Event) {
    e.Abandoned? ==> IsTerminal(e.status)
  }

  ghost predicate AllTerminal(log: seq<Event>) {
    forall k | 0 <= k < |log| :: EndsTerminally(log[k])
  }

  lemma CloseIsTerminal(p: Peer, status: int)
    requires AllTerminal(p.log) && IsTerminal(status)
    ensures AllTerminal(Close(p, status).log)
  {
    CloseGrows(p, status, EndsTerminally);
  }

  lemma CloseStreamIsTerminal(p: Peer, s: StreamId, status: int)
    requires AllTerminal(p.log) && IsTerminal(status)
    ensures AllTerminal(CloseStream(p, s, status).log)
  {
    if s in p.streams {
      DropStreamGrows(p, s, status, EndsTerminally);
      CloseIsTerminal(DropStream(p, s, status), status);
    }
  }

  lemma {:induction false} CloseEachIsTerminal(p: Peer, ss: seq<StreamId>, n: nat)
    requires AllTerminal(p.log) && n <= |ss|
    ensures AllTerminal(CloseEach(p, ss, n).log)
  {
    if n > 0 {
      CloseEachIsTerminal(p, ss, n - 1);
      CloseStreamIsTerminal(CloseEach(p, ss, n - 1), ss[n - 1], RS_TIMEOUT);
    }
  }

  lemma SendResponseIsTerminal(p: Peer, id: RequestId, status: int, fits: bool)
    requires AllTerminal(p.log)
    ensures AllTerminal(SendResponse(p, id, status, fits).log)
  {
    match FindResponseSink(p, id)
    case None =>
    case Some(s) => CloseIsTerminal(WithResponder(p, s), RS_SLOW_STREAM);
  }

  lemma {:induction false} OnRequestsIsTerminal(p: Peer, s: StreamId, rs: seq<Request>, n: nat)
    requires AllTerminal(p.log) && n <= |rs|
    ensures AllTerminal(OnRequests(p, s, rs, n).log)
  {
    if n > 0 {
      OnRequestsIsTerminal(p, s, rs, n - 1);
      var q := OnRequests(p, s, rs, n - 1);
      if s in q.streams {
        SendResponseIsTerminal(WithResponder(q, s), rs[n - 1].id, RS_REJECTED, rs[n - 1].fits);
      }
    }
  }

  lemma {:induction false} OnResponsesIsTerminal(p: Peer, rs: seq<Response>, n: nat)
    requires AllTerminal(p.log) && n <= |rs|
    ensures AllTerminal(OnResponses(p, rs, n).log)
  {
    if n > 0 {
      OnResponsesIsTerminal(p, rs, n - 1);
    }
  }

  lemma {:induction false} OnBlocksIsTerminal(p: Peer, blocks: seq<int>, n: nat)
    requires AllTerminal(p.log) && n <= |blocks|
    ensures AllTerminal(OnBlocks(p, blocks, n).log)
  {
    if n > 0 {
      OnBlocksIsTerminal(p, blocks, n - 1);
    }
  }

  lemma OnReaderEventIsTerminal(p: Peer, s: StreamId, m: Option<Message>, now: int)
    requires AllTerminal(p.log)
    ensures AllTerminal(OnReaderEvent(p, s, m, now).log)
  {
    if p.closed {
    } else if m == None {
      CloseStreamIsTerminal(p, s, RS_CONNECTION_ERROR);
    } else if s in p.streams {
      var p0 := ResetPeerTimeout(p);
      var p1 := if m.value.completeList then ForgetRemote(p0, s) else p0;
      OnRequestsIsTerminal(p1, s, m.value.requests, |m.value.requests|);
      var p2 := OnRequests(p1, s, m.value.requests, |m.value.requests|);
      OnResponsesIsTerminal(p2, m.value.responses, |m.value.responses|);
      var p3 := OnResponses(p2, m.value.responses, |m.value.responses|);
      OnBlocksIsTerminal(p3, m.value.blocks, |m.value.blocks|);
    }
  }

  lemma StepIsTerminal(p: Peer, i: Input)
    requires AllTerminal(p.log) && (i.DoClose? ==> IsTerminal(i.status))
    ensures AllTerminal(Step(p, i).log)
  {
    match i
    case DoConnectFailed => CloseIsTerminal(p, RS_CANNOT_CONNECT);
    case DoEnqueue(_, _) => CloseIsTerminal(p, RS_INTERNAL_ERROR); CloseIsTerminal(p, RS_SLOW_STREAM);
    case DoAddBlock(id, _) =>
      if FindResponseSink(p, id).Some? {
        CloseIsTerminal(WithResponder(p, FindResponseSink(p, id).value), RS_SLOW_STREAM);
      }
    case DoSend(id, status, fits) => SendResponseIsTerminal(p, id, status, fits);
    case DoClose(status) => CloseIsTerminal(p, status);
    case Read(s, m, now) => OnReaderEventIsTerminal(p, s, m, now);
    case Wrote(_, _, _) => CloseIsTerminal(p, RS_CONNECTION_ERROR);
    case TimerFired(writing, backlog, now) =>
      CloseIsTerminal(p, RS_TIMEOUT);
      var ss := AscendingSeq(TimedOutStreams(p, writing, backlog, now));
      CloseEachIsTerminal(ExtendStarved(p, writing, backlog, now), ss, |ss|);
    case _ =>
  }

  // If the peer is only ever closed with a terminal status, the last callback of every
  // request carries one.
  lemma {:induction false} LastCallbacksAreTerminal(inputs: seq<Input>)
    requires forall k | 0 <= k < |inputs| :: inputs[k].DoClose? ==> IsTerminal(inputs[k].status)
    ensures AllTerminal(Run(inputs).log)
  {
    if inputs != [] {
      LastCallbacksAreTerminal(inputs[..|inputs| - 1]);
      StepIsTerminal(Run(inputs[..|inputs| - 1]), inputs[|inputs| - 1]);
    }
  }

  // -------------------------------------------------------- requests of other streams

  // Beyond Linked: every id a stream lists is mapped to that stream.
  ghost predicate Exact(p: Peer) {
    forall s, id | s in p.streams && id in p.streams[s].remoteIds :: id in p.remote && p.remote[id] == s
  }

  // Only a cancel that names another stream's request breaks it: that stream keeps the id.
  lemma ExactLostIff(p: Peer, s: StreamId, r: Request)
    requires Inv(p) && Exact(p) && !p.closed && s in p.streams
    ensures Exact(OnRequest(p, s, r)) <==> !Foreign(p, s, r)
  {
    var q := OnRequest(p, s, r);
    if r.cancel {
      if r.id in p.remote && p.remote[r.id] != s {
        var t := p.remote[r.id];
        assert t in q.streams && r.id in q.streams[t].remoteIds && r.id !in q.remote;
      }
    } else {
      var w := WithResponder(p, s);
      WithResponderKeeps(p, s);
      if r.id in w.remote {
        var t := w.remote[r.id];
        WithResponderKeeps(w, t);
        CloseKeeps(WithResponder(w, t), RS_SLOW_STREAM);
      }
    }
  }

  // Closing a stream forgets exactly the requests made through it if and only if no id that
  // it lists is mapped to another stream.
  lemma ClosingForgetsItsOwnIff(p: Peer, s: StreamId, status: int)
    requires Linked(p) && s in p.streams
    ensures (forall id :: id in DropStream(p, s, status).remote <==> id in p.remote && p.remote[id] != s) <==>
            (forall id | id in p.streams[s].remoteIds && id in p.remote :: p.remote[id] == s)
  {
    var q := DropStream(p, s, status);
    forall id ensures id in q.remote <==> id in p.remote && id !in p.streams[s].remoteIds {
    }
  }

  // A cancel of a request that was made through another stream.
  predicate Foreign(p: Peer, s: StreamId, r: Request) {
    r.cancel && r.id in p.remote && p.remote[r.id] != s
  }

  // No request of the message is one, in the state in which it is handled.
  ghost predicate CleanMessage(p: Peer, s: StreamId, m: Message)
    requires s in p.streams
  {
    var p1 := if m.completeList then ForgetRemote(p, s) else p;
    forall k | 0 <= k < |m.requests| :: !Foreign(OnRequests(p1, s, m.requests, k), s, m.requests[k])
  }

  ghost predicate CleanInput(p: Peer, i: Input) {
    i.Read? && i.message.Some? && !p.closed && i.stream in p.streams ==>
      CleanMessage(ResetPeerTimeout(p), i.stream, i.message.value)
  }

  ghost predicate CleanRun(inputs: seq<Input>) {
    forall n | 0 <= n < |inputs| :: CleanInput(Run(inputs[..n]), inputs[n])
  }

  lemma DropStreamExact(p: Peer, s: StreamId, status: int)
    requires Exact(p) && s in p.streams
    ensures Exact(DropStream(p, s, status))
  {
    var q := DropStream(p, s, status);
    forall t, id | t in q.streams && id in q.streams[t].remoteIds ensures id in q.remote && q.remote[id] == t {
      assert t != s && t in p.streams && id in p.streams[t].remoteIds && p.remote[id] == t;
      assert id !in p.streams[s].remoteIds;
    }
  }

  lemma CloseExact(p: Peer, status: int)
    requires Exact(p)
    ensures Exact(Close(p, status))
  {
    if !p.closed {
      CloseEndsEmpty(p, status);
    }
  }

  lemma CloseStreamExact(p: Peer, s: StreamId, status: int)
    requires Exact(p)
    ensures Exact(CloseStream(p, s, status))
  {
    if s in p.streams {
      DropStreamExact(p, s, status);
      CloseExact(DropStream(p, s, status), status);
    }
  }

  lemma {:induction false} CloseEachExact(p: Peer, ss: seq<StreamId>, n: nat)
    requires Exact(p) && n <= |ss|
    ensures Exact(CloseEach(p, ss, n))
  {
    if n > 0 {
      CloseEachExact(p, ss, n - 1);
      CloseStreamExact(CloseEach(p, ss, n - 1), ss[n - 1], RS_TIMEOUT);
    }
  }

  lemma ServeExact(p: Peer, id: RequestId, fits: bool)
    requires Exact(p)
    ensures Exact(AddBlockToResponse(p, id, fits))
    ensures forall status :: Exact(SendResponse(p, id, status, fits))
  {
    match FindResponseSink(p, id)
    case None =>
    case Some(s) =>
      assert Exact(WithResponder(p, s));
      CloseExact(WithResponder(p, s), RS_SLOW_STREAM);
  }

  lemma OnRequestExact(p: Peer, s: StreamId, r: Request)
    requires Inv(p) && Exact(p) && (p.closed ==> s !in p.streams) && !Foreign(p, s, r)
    ensures Exact(OnRequest(p, s, r))
  {
    if s in p.streams {
      ExactLostIff(p, s, r);
    }
  }

  lemma {:induction false} OnRequestsExact(p: Peer, s: StreamId, rs: seq<Request>, n: nat)
    requires Inv(p) && Exact(p) && (p.closed ==> s !in p.streams) && n <= |rs|
    requires forall k | 0 <= k < n :: !Foreign(OnRequests(p, s, rs, k), s, rs[k])
    ensures Exact(OnRequests(p, s, rs, n))
  {
    if n > 0 {
      OnRequestsExact(p, s, rs, n - 1);
      OnRequestsKeeps(p, s, rs, n - 1);
      OnRequestExact(OnRequests(p, s, rs, n - 1), s, rs[n - 1]);
    }
  }

  lemma {:induction false} OnResponsesStreams(p: Peer, rs: seq<Response>, n: nat)
    requires n <= |rs|
    ensures OnResponses(p, rs, n).streams == p.streams && OnResponses(p, rs, n).remote == p.remote
  {
    if n > 0 {
      OnResponsesStreams(p, rs, n - 1);
    }
  }

  lemma {:induction false} OnBlocksStreams(p: Peer, blocks: seq<int>, n: nat)
    requires n <= |blocks|
    ensures OnBlocks(p, blocks, n).streams == p.streams && OnBlocks(p, blocks, n).remote == p.remote
  {
    if n > 0 {
      OnBlocksStreams(p, blocks, n - 1);
    }
  }

  lemma ShiftExpireTimeExact(p: Peer, s: StreamId, now: int)
    requires Exact(p)
    ensures Exact(ShiftExpireTime(p, s, now))
  {
  }

  lemma ForgetRemoteExact(p: Peer, s: StreamId)
    requires Inv(p) && Exact(p) && s in p.streams
    ensures Exact(ForgetRemote(p, s)) && (!p.closed ==> Inv(ForgetRemote(p, s)))
  {
    var q := ForgetRemote(p, s);
    forall t, id | t in q.streams && id in q.streams[t].remoteIds ensures id in q.remote && q.remote[id] == t {
      assert t != s && id in p.streams[t].remoteIds && p.remote[id] == t;
      assert id !in p.streams[s].remoteIds;
    }
  }

  lemma OnMessageExact(p: Peer, s: StreamId, m: Message, now: int)
    requires Inv(p) && Exact(p) && !p.closed && s in p.streams && CleanMessage(p, s, m)
    ensures Exact(OnMessage(p, s, m, now))
  {
    var p1 := if m.completeList then ForgetRemote(p, s) else p;
    ForgetRemoteExact(p, s);
    OnRequestsExact(p1, s, m.requests, |m.requests|);
    var p2 := OnRequests(p1, s, m.requests, |m.requests|);
    OnResponsesStreams(p2, m.responses, |m.responses|);
    var p3 := OnResponses(p2, m.responses, |m.responses|);
    OnBlocksStreams(p3, m.blocks, |m.blocks|);
    ShiftExpireTimeExact(OnBlocks(p3, m.blocks, |m.blocks|), s, now);
  }

  lemma OnReaderEventExact(p: Peer, s: StreamId, m: Option<Message>, now: int)
    requires Inv(p) && Exact(p) && CleanInput(p, Read(s, m, now))
    ensures Exact(OnReaderEvent(p, s, m, now))
  {
    if p.closed {
    } else if m == None {
      CloseStreamExact(p, s, RS_CONNECTION_ERROR);
    } else if s in p.streams {
      LoggedKeeps(p, TimerReset);
      assert Exact(ResetPeerTimeout(p));
      OnMessageExact(ResetPeerTimeout(p), s, m.value, now);
    }
  }

  lemma StepExact(p: Peer, i: Input)
    requires Inv(p) && Exact(p) && CleanInput(p, i)
    ensures Exact(Step(p, i))
  {
    match i
    case DoConnectFailed => CloseExact(p, RS_CANNOT_CONNECT);
    case DoEnqueue(_, _) => CloseExact(p, RS_INTERNAL_ERROR); CloseExact(p, RS_SLOW_STREAM);
    case DoAddBlock(id, fits) => ServeExact(p, id, fits);
    case DoSend(id, _, fits) => ServeExact(p, id, fits);
    case DoClose(status) => CloseExact(p, status);
    case Read(s, m, now) => OnReaderEventExact(p, s, m, now);
    case Wrote(s, _, now) => CloseExact(p, RS_CONNECTION_ERROR);
    case TimerFired(writing, backlog, now) =>
      CloseExact(p, RS_TIMEOUT);
      var ss := AscendingSeq(TimedOutStreams(p, writing, backlog, now));
      CloseEachExact(ExtendStarved(p, writing, backlog, now), ss, |ss|);
    case _ =>
  }

  // Over every run without a cancel of another stream's request, streams list exactly the
  // requests made through them.
  lemma {:induction false} CleanRunsAreExact(inputs: seq<Input>)
    requires CleanRun(inputs)
    ensures Exact(Run(inputs))
  {
    if inputs != [] {
      var n := |inputs| - 1;
      var init := inputs[..n];
      forall k | 0 <= k < |init| ensures CleanInput(Run(init[..k]), init[k]) {
        assert init[..k] == inputs[..k];
      }
      CleanRunsAreExact(init);
      EveryRunKeeps(init);
      assert CleanInput(Run(inputs[..n]), inputs[n]);
      StepExact(Run(init), inputs[n]);
    }
  }

  // So after such a run closing a stream forgets exactly the requests made through it.
  lemma CleanRunsForgetTheirOwn(inputs: seq<Input>, s: StreamId, status: int, id: RequestId)
    requires CleanRun(inputs) && s in Run(inputs).streams
    ensures var p := Run(inputs); id in DropStream(p, s, status).remote <==> id in p.remote && p.remote[id] != s
  {
    CleanRunsAreExact(inputs);
    EveryRunKeeps(inputs);
    ClosingForgetsItsOwnIff(Run(inputs), s, status);
  }

  // A message that holds one request and nothing else.
  function OneRequest(s: StreamId, id: RequestId, cancel: bool): Input {
    Read(s, Some(Message(false, [Request(id, cancel, true)], [], [])), 0)
  }

  lemma OneRequestStep(p: Peer, s: StreamId, id: RequestId, cancel: bool)
    requires !p.closed && s in p.streams
    ensures Step(p, OneRequest(s, id, cancel)) ==
            ShiftExpireTime(OnRequest(ResetPeerTimeout(p), s, Request(id, cancel, true)), s, 0)
  {
    var rs := [Request(id, cancel, true)];
    var q := ResetPeerTimeout(p);
    assert OnRequests(q, s, rs, 1) == OnRequest(OnRequests(q, s, rs, 0), s, rs[0]);
  }

  // Stream 2 has cancelled the request 7 that was made through stream 1.
  lemma CancelledByAnother() returns (inputs: seq<Input>)
    ensures var p := Run(inputs);
            p.streams.Keys == {1, 2} && p.streams[1].remoteIds == {7} && p.remote == map[] && !p.closed &&
            p.endpoint == NoEndpoint
  {
    inputs := [StreamReady(1, 0)];
    RunSnoc([], StreamReady(1, 0));
    RunSnoc(inputs, StreamReady(2, 0));
    inputs := inputs + [StreamReady(2, 0)];
    assert Run(inputs).streams.Keys == {1, 2} && Run(inputs).remote == map[];
    RunSnoc(inputs, OneRequest(1, 7, false));
    OneRequestStep(Run(inputs), 1, 7, false);
    inputs := inputs + [OneRequest(1, 7, false)];
    assert Run(inputs).streams[1].remoteIds == {7} && Run(inputs).remote == map[7 := 1];
    RunSnoc(inputs, OneRequest(2, 7, true));
    OneRequestStep(Run(inputs), 2, 7, true);
    inputs := inputs + [OneRequest(2, 7, true)];
  }

  // Otherwise it may forget a request of a stream that stays open: request 7 made anew
  // through stream 2 is no longer answered when stream 1 fails.
  lemma ClosingMayForgetAnother()
    ensures exists inputs ::
              var p := Run(inputs);
              var q := OnReaderEvent(p, 1, None, 0);
              p.remote == map[7 := 2] && !q.closed && q.streams.Keys == {2} && q.remote == map[]
  {
    var before := CancelledByAnother();
    RunSnoc(before, OneRequest(2, 7, false));
    OneRequestStep(Run(before), 2, 7, false);
    var p := Run(before + [OneRequest(2, 7, false)]);
    assert p.streams[1].remoteIds == {7} && p.remote == map[7 := 2];
    assert OnReaderEvent(p, 1, None, 0).streams.Keys == {2};
  }

  lemma RunSnoc(inputs: seq<Input>, i: Input)
    ensures Run(inputs + [i]) == Step(Run(inputs), i)
  {
    assert (inputs + [i])[..|inputs|] == inputs;
  }

  // ------------------------------------------------------------------- the timer

  lemma {:induction false} CloseEachCloses(p: Peer, ss: seq<StreamId>, n: nat)
    requires !p.closed && p.streams != map[] && n <= |ss|
    requires (forall i, j | 0 <= i < j < |ss| :: ss[i] < ss[j]) && forall x | x in ss :: x in p.streams
    ensures var q := CloseEach(p, ss, n);
            q.streams.Keys == p.streams.Keys - (set x | x in ss[..n]) && q.closed == (q.streams == map[])
  {
    if n == 0 {
    } else {
      CloseEachCloses(p, ss, n - 1);
      var q := CloseEach(p, ss, n - 1);
      var s := ss[n - 1];
      assert ss[..n] == ss[..n - 1] + [s] && s in ss;
      assert s in q.streams;
      CloseEndsEmpty(DropStream(q, s, RS_TIMEOUT), RS_TIMEOUT);
    }
  }

  lemma CloseEndsEmpty(p: Peer, status: int)
    requires !p.closed
    ensures Close(p, status).streams == map[] && Close(p, status).closed
  {
    DropStreamsEmpties(p.(closed := true, closeStatus := status, remote := map[]), status);
  }

  lemma {:induction false} DropStreamsEmpties(p: Peer, status: int)
    ensures DropStreams(p, status).streams == map[] && DropStreams(p, status).closed == p.closed
    decreases |p.streams|
  {
    if p.streams != map[] {
      DropStreamsEmpties(DropStream(p, Least(p.streams.Keys), status), status);
    }
  }

  // The timer of an open peer closes exactly the streams that are idle and out of time, and
  // the peer itself exactly when none is left.
  lemma TimerClosesTheIdle(p: Peer, writing: set<StreamId>, backlog: set<StreamId>, now: int)
    requires !p.closed
    ensures var q := OnCleanupTimer(p, writing, backlog, now);
            q.streams.Keys == p.streams.Keys - TimedOutStreams(p, writing, backlog, now) &&
            (q.closed <==> q.streams == map[])
  {
    if p.streams == map[] {
      CloseEndsEmpty(p, RS_TIMEOUT);
    } else {
      var ids := TimedOutStreams(p, writing, backlog, now);
      var ss := AscendingSeq(ids);
      AscendingSeqIs(ids);
      var e := ExtendStarved(p, writing, backlog, now);
      assert e.streams.Keys == p.streams.Keys;
      CloseEachCloses(e, ss, |ss|);
      assert ss[..|ss|] == ss && (set x | x in ss) == ids;
    }
  }
}
