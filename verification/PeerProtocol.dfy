// ipfs_lite/ipfs/graphsync/impl/network/peer_context.cpp, as a state machine: what each
// entry point does to the state of a peer, and what every run of them keeps.
//
// Every entry point holds the state mutex, so it is one atomic step. Streams are numbered
// by address, the order of std::map. Whether an endpoint takes a message (`fits`), the
// clock, the state of the write queues and the events of streams are inputs. Callbacks are
// entries of a log; calls back into the peer from inside a callback are not part of this.

module PeerProtocol {
  import opened Basics
  import opened IntSets
  import opened ResponseStatus

  type StreamId = int
  type RequestId = int

  const STREAM_CLOSE_DELAY: int := 60000
  const WINDOW_EXHAUSTION_MULTIPLIER: int := 3

  datatype StreamCtx = StreamCtx(hasQueue: bool, hasResponder: bool, remoteIds: set<RequestId>, expireTime: int)

  datatype Endpoint = NoEndpoint | Connecting | Connected(stream: StreamId)

  // Accepted and Withdrawn record the local ids that enqueueRequest adds and cancelRequest
  // removes. Answered, Abandoned and Refused are the same callback, made by onResponse, by
  // closeLocalRequests, and by enqueueRequest on a closed peer.
  datatype Event =
    | Accepted(id: RequestId)
    | Withdrawn(id: RequestId)
    | Answered(id: RequestId, status: int)
    | Abandoned(id: RequestId, status: int)
    | Refused(id: RequestId)
    | RemoteRequest(stream: StreamId, id: RequestId)
    | Responded(stream: StreamId, id: RequestId, status: int)
    | BlockAdded(stream: StreamId, id: RequestId)
    | BlockReceived(root: int, cid: int)
    | StreamClosed(stream: StreamId)
    | PeerClosed(status: int, deferred: bool)
    | CancelQueued(id: RequestId)
    | TimerScheduled
    | TimerReset

  datatype Peer = Peer(
    streams: map<StreamId, StreamCtx>,
    remote: map<RequestId, StreamId>,
    local: set<RequestId>,
    endpoint: Endpoint,
    closed: bool,
    closeStatus: int,
    log: seq<Event>)

  const INITIAL: Peer := Peer(map[], map[], {}, NoEndpoint, false, RS_INTERNAL_ERROR, [])

  datatype Request = Request(id: RequestId, cancel: bool, fits: bool)

  datatype Response = Response(id: RequestId, status: int)

  datatype Message = Message(completeList: bool, requests: seq<Request>, responses: seq<Response>, blocks: seq<int>)

  function Logged(p: Peer, e: Event): Peer {
    p.(log := p.log + [e])
  }

  // ------------------------------------------------------------------ closing

  function Notices(ids: set<RequestId>, status: int): seq<Event> {
    if ids == {} then [] else [Abandoned(Least(ids), status)] + Notices(ids - {Least(ids)}, status)
  }

  function CloseLocalRequests(p: Peer, status: int): Peer {
    p.(local := {}, endpoint := NoEndpoint, log := p.log + Notices(p.local, status))
  }

  // The part of closeStream that a closing peer takes too.
  function DropStream(p: Peer, s: StreamId, status: int): Peer
    requires s in p.streams
  {
    var q := p.(remote := p.remote - p.streams[s].remoteIds, streams := p.streams - {s});
    var r := if p.endpoint == Connected(s) then CloseLocalRequests(q, status) else q;
    r.(log := r.log + [StreamClosed(s)])
  }

  function DropStreams(p: Peer, status: int): Peer
    decreases |p.streams|
  {
    if p.streams == map[] then p else DropStreams(DropStream(p, Least(p.streams.Keys), status), status)
  }

  function Close(p: Peer, status: int): Peer {
    if p.closed then p else
      var q := DropStreams(p.(closed := true, closeStatus := status, remote := map[]), status);
      var r := if q.endpoint != NoEndpoint then CloseLocalRequests(q, status) else q;
      r.(log := r.log + [PeerClosed(status, status != RS_REJECTED_LOCALLY)])
  }

  function CloseStream(p: Peer, s: StreamId, status: int): Peer {
    if s !in p.streams then p else
      var q := DropStream(p, s, status);
      if !q.closed && q.streams == map[] && IsError(status) then Close(q, status) else q
  }

  // --------------------------------------------------------------- connecting

  predicate IsConnecting(p: Peer) {
    !p.closed && p.streams == map[] && p.endpoint == Connecting
  }

  function WithQueue(p: Peer, s: StreamId): Peer
    requires s in p.streams
  {
    p.(streams := p.streams[s := p.streams[s].(hasQueue := true)])
  }

  function NeedToConnect(p: Peer): Peer {
    if p.endpoint != NoEndpoint then p
    else if p.streams == map[] then p.(endpoint := Connecting)
    else
      var s := Least(p.streams.Keys);
      WithQueue(p, s).(endpoint := Connected(s))
  }

  // The stream joins a connecting endpoint. The first stream schedules the cleanup timer.
  function FinishStreamConfig(p: Peer, s: StreamId, now: int): Peer {
    var joins := IsConnecting(p);
    var ctx := StreamCtx(joins, false, {}, now + STREAM_CLOSE_DELAY);
    var q := if p.streams == map[] then Logged(p, TimerScheduled) else p;
    ResetPeerTimeout(q).(endpoint := if joins then Connected(s) else p.endpoint,
                         streams := if s in p.streams then p.streams else p.streams[s := ctx])
  }

  // The timer starts anew, unless the peer is closed.
  function ResetPeerTimeout(p: Peer): Peer {
    if p.closed then p else Logged(p, TimerReset)
  }

  // The window of a new stream could not be adjusted, or there is no stream.
  function ConnectFailed(p: Peer): Peer {
    if IsConnecting(p) then Close(p, RS_CANNOT_CONNECT) else p
  }

  // ----------------------------------------------------------- local requests

  function EnqueueRequest(p: Peer, id: RequestId, fits: bool): Peer {
    if p.closed then p.(log := p.log + [Refused(id)])
    else if p.endpoint == NoEndpoint then Close(p, RS_INTERNAL_ERROR)
    else if !fits then Close(p, RS_SLOW_STREAM)
    else if id in p.local then p
    else p.(local := p.local + {id}, log := p.log + [Accepted(id)])
  }

  // The cancel message is sent whether or not the request is known.
  function CancelRequest(p: Peer, id: RequestId, fits: bool): Peer {
    if p.closed then p
    else
      var q := Withdraw(p, id);
      if p.endpoint != NoEndpoint && fits then Logged(q, CancelQueued(id)) else q
  }

  function Withdraw(p: Peer, id: RequestId): Peer {
    if id !in p.local then p else p.(local := p.local - {id}, log := p.log + [Withdrawn(id)])
  }

  function OnResponse(p: Peer, r: Response): Peer {
    if r.id !in p.local then p
    else p.(local := if IsTerminal(r.status) then p.local - {r.id} else p.local,
            log := p.log + [Answered(r.id, r.status)])
  }

  // ---------------------------------------------------------- remote requests

  function WithResponder(p: Peer, s: StreamId): Peer
    requires s in p.streams
  {
    p.(streams := p.streams[s := p.streams[s].(hasQueue := true, hasResponder := true)])
  }

  // None when the request is no longer actual, or names no live stream.
  function FindResponseSink(p: Peer, id: RequestId): (s: Option<StreamId>)
    ensures s.Some? ==> s.value in p.streams
  {
    if id in p.remote && p.remote[id] in p.streams then Some(p.remote[id]) else None
  }

  function AddBlockToResponse(p: Peer, id: RequestId, fits: bool): Peer {
    match FindResponseSink(p, id)
    case None => p
    case Some(s) =>
      var q := WithResponder(p, s);
      if fits then q.(log := q.log + [BlockAdded(s, id)]) else Close(q, RS_SLOW_STREAM)
  }

  function SendResponse(p: Peer, id: RequestId, status: int, fits: bool): Peer {
    match FindResponseSink(p, id)
    case None => p
    case Some(s) =>
      var q := WithResponder(p, s);
      if fits then q.(log := q.log + [Responded(s, id, status)]) else Close(q, RS_SLOW_STREAM)
  }

  function OnCancel(p: Peer, s: StreamId, id: RequestId): Peer
    requires s in p.streams
  {
    p.(streams := p.streams[s := p.streams[s].(remoteIds := p.streams[s].remoteIds - {id})],
       remote := p.remote - {id})
  }

  function OnNewRequest(p: Peer, s: StreamId, id: RequestId): Peer
    requires s in p.streams
  {
    p.(streams := p.streams[s := p.streams[s].(remoteIds := p.streams[s].remoteIds + {id})],
       remote := p.remote[id := s],
       log := p.log + [RemoteRequest(s, id)])
  }

  function OnRequest(p: Peer, s: StreamId, r: Request): Peer {
    if s !in p.streams then p
    else if r.cancel then OnCancel(p, s, r.id)
    else
      var q := WithResponder(p, s);
      if r.id in q.remote then SendResponse(q, r.id, RS_REJECTED, r.fits) else OnNewRequest(q, s, r.id)
  }

  // ----------------------------------------------------------------- messages

  function ForgetRemote(p: Peer, s: StreamId): Peer
    requires s in p.streams
  {
    p.(remote := p.remote - p.streams[s].remoteIds, streams := p.streams[s := p.streams[s].(remoteIds := {})])
  }

  // The first n items, in order.
  function OnRequests(p: Peer, s: StreamId, rs: seq<Request>, n: nat): Peer
    requires n <= |rs|
  {
    if n == 0 then p else OnRequest(OnRequests(p, s, rs, n - 1), s, rs[n - 1])
  }

  function OnResponses(p: Peer, rs: seq<Response>, n: nat): Peer
    requires n <= |rs|
  {
    if n == 0 then p else OnResponse(OnResponses(p, rs, n - 1), rs[n - 1])
  }

  // Every block is reported with the first one as root.
  function OnBlocks(p: Peer, blocks: seq<int>, n: nat): Peer
    requires n <= |blocks|
  {
    if n == 0 then p else
      var q := OnBlocks(p, blocks, n - 1);
      q.(log := q.log + [BlockReceived(blocks[0], blocks[n - 1])])
  }

  function ShiftExpireTime(p: Peer, s: StreamId, now: int): Peer {
    if s !in p.streams then p
    else p.(streams := p.streams[s := p.streams[s].(expireTime := now + STREAM_CLOSE_DELAY)])
  }

  function OnMessage(p: Peer, s: StreamId, m: Message, now: int): Peer
    requires s in p.streams
  {
    var p1 := if m.completeList then ForgetRemote(p, s) else p;
    var p2 := OnRequests(p1, s, m.requests, |m.requests|);
    var p3 := OnResponses(p2, m.responses, |m.responses|);
    ShiftExpireTime(OnBlocks(p3, m.blocks, |m.blocks|), s, now)
  }

  function OnReaderEvent(p: Peer, s: StreamId, m: Option<Message>, now: int): Peer {
    if p.closed then p
    else if m == None then CloseStream(p, s, RS_CONNECTION_ERROR)
    else if s !in p.streams then ResetPeerTimeout(p)
    else OnMessage(ResetPeerTimeout(p), s, m.value, now)
  }

  function OnWriterEvent(p: Peer, s: StreamId, ok: bool, now: int): Peer {
    if p.closed then p
    else if !ok then Close(p, RS_CONNECTION_ERROR)
    else ShiftExpireTime(ResetPeerTimeout(p), s, now)
  }

  // -------------------------------------------------------------------- timer

  // `writing`: streams with a write in flight; `backlog`: with bytes pending.
  predicate Starved(c: StreamCtx, s: StreamId, writing: set<StreamId>, backlog: set<StreamId>) {
    c.hasQueue && s !in writing && s in backlog
  }

  predicate TimedOut(c: StreamCtx, s: StreamId, writing: set<StreamId>, backlog: set<StreamId>, now: int) {
    !(c.hasQueue && (s in writing || s in backlog)) && c.expireTime <= now
  }

  function Extended(c: StreamCtx, now: int): StreamCtx {
    var t := now + STREAM_CLOSE_DELAY * WINDOW_EXHAUSTION_MULTIPLIER;
    c.(expireTime := if c.expireTime < t then t else c.expireTime)
  }

  function ExtendStarved(p: Peer, writing: set<StreamId>, backlog: set<StreamId>, now: int): Peer {
    p.(streams := map s | s in p.streams ::
                    if Starved(p.streams[s], s, writing, backlog) then Extended(p.streams[s], now) else p.streams[s])
  }

  function TimedOutStreams(p: Peer, writing: set<StreamId>, backlog: set<StreamId>, now: int): set<StreamId> {
    set s | s in p.streams && TimedOut(p.streams[s], s, writing, backlog, now)
  }

  function CloseEach(p: Peer, ss: seq<StreamId>, n: nat): Peer
    requires n <= |ss|
  {
    if n == 0 then p else CloseStream(CloseEach(p, ss, n - 1), ss[n - 1], RS_TIMEOUT)
  }

  function OnCleanupTimer(p: Peer, writing: set<StreamId>, backlog: set<StreamId>, now: int): Peer {
    if p.streams == map[] then Close(p, RS_TIMEOUT)
    else
      var ss := AscendingSeq(TimedOutStreams(p, writing, backlog, now));
      CloseEach(ExtendStarved(p, writing, backlog, now), ss, |ss|)
  }

  // --------------------------------------------------------------------- runs

  datatype Input =
    | DoConnect
    | StreamReady(stream: StreamId, now: int)
    | DoConnectFailed
    | DoEnqueue(id: RequestId, fits: bool)
    | DoCancel(id: RequestId, fits: bool)
    | DoKeepAlive
    | DoAddBlock(id: RequestId, fits: bool)
    | DoSend(id: RequestId, status: int, fits: bool)
    | DoClose(status: int)
    | Read(stream: StreamId, message: Option<Message>, now: int)
    | Wrote(stream: StreamId, ok: bool, now: int)
    | TimerFired(writing: set<StreamId>, backlog: set<StreamId>, now: int)

  function Step(p: Peer, i: Input): Peer {
    match i
    case DoConnect => NeedToConnect(p)
    case StreamReady(s, now) => FinishStreamConfig(p, s, now)
    case DoConnectFailed => ConnectFailed(p)
    case DoEnqueue(id, fits) => EnqueueRequest(p, id, fits)
    case DoCancel(id, fits) => CancelRequest(p, id, fits)
    case DoKeepAlive => ResetPeerTimeout(p)
    case DoAddBlock(id, fits) => AddBlockToResponse(p, id, fits)
    case DoSend(id, status, fits) => SendResponse(p, id, status, fits)
    case DoClose(status) => Close(p, status)
    case Read(s, m, now) => OnReaderEvent(p, s, m, now)
    case Wrote(s, ok, now) => OnWriterEvent(p, s, ok, now)
    case TimerFired(writing, backlog, now) => OnCleanupTimer(p, writing, backlog, now)
  }

  function Run(inputs: seq<Input>): Peer {
    if inputs == [] then INITIAL else Step(Run(inputs[..|inputs| - 1]), inputs[|inputs| - 1])
  }
}
