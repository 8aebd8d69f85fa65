// ipfs_lite/ipfs/graphsync/impl/network: the peer together with its endpoints. Whether a
// message fits, an input of PeerProtocol, is what the endpoints of MessageQueue decide.

module PeerEndpoints {
  import opened Basics
  import opened PeerProtocol
  import opened ResponseStatus
  import PeerContext
  import Queues = MessageQueue

  // The bytes an outbound endpoint counts against its limit.
  function Load(endpoint: Queues.OutboundEndpoint): nat
    reads endpoint, endpoint.queue
  {
    if endpoint.queue != null then endpoint.queue.pendingBytes else endpoint.pendingBytes
  }

  predicate RequestFits(load: nat, body: Option<Queues.Buffer>) {
    body == None || body.value == [] || load + |body.value| <= 64 * 1024 * 1024
  }

  // What an endpoint has accepted: what waits in it, or what its queue has taken.
  ghost function Taken(endpoint: Queues.OutboundEndpoint): seq<Queues.Buffer>
    reads endpoint, endpoint.queue
  {
    if endpoint.queue != null then endpoint.queue.accepted else endpoint.pendingBuffers
  }

  // The endpoint is asked only when the peer is open and has one.
  predicate Asked(peer: PeerContext.PeerContext)
    reads peer
  {
    !peer.closed && peer.requestsEndpoint != NoEndpoint
  }

  // The message, if it is one and the endpoint takes it.
  ghost function Entering(peer: PeerContext.PeerContext, endpoint: Queues.OutboundEndpoint,
                          body: Option<Queues.Buffer>): seq<Queues.Buffer>
    reads peer, endpoint, endpoint.queue
  {
    if Asked(peer) && RequestFits(Load(endpoint), body) && body.Some? && body.value != [] &&
       (endpoint.queue != null ==> endpoint.queue.active)
    then [body.value] else []
  }

  method EnqueueRequest(peer: PeerContext.PeerContext, endpoint: Queues.OutboundEndpoint, id: RequestId,
                        body: Option<Queues.Buffer>, writable: bool)
    requires endpoint.Valid()
    modifies peer, endpoint, endpoint.queue
    ensures endpoint.Valid()
    ensures peer.View() ==
            PeerProtocol.EnqueueRequest(old(peer.View()), id, RequestFits(old(Load(endpoint)), body))
    ensures Taken(endpoint) == old(Taken(endpoint)) + old(Entering(peer, endpoint, body))
  {
    var fits := false;
    if Asked(peer) {
      var r := endpoint.Enqueue(body, writable);
      fits := r.Ok?;
    }
    peer.EnqueueRequest(id, fits);
    assert old(Taken(endpoint)) + [] == old(Taken(endpoint));
  }

  method CancelRequest(peer: PeerContext.PeerContext, endpoint: Queues.OutboundEndpoint, id: RequestId,
                       body: Option<Queues.Buffer>, writable: bool)
    requires endpoint.Valid()
    modifies peer, endpoint, endpoint.queue
    ensures endpoint.Valid()
    ensures peer.View() ==
            PeerProtocol.CancelRequest(old(peer.View()), id, RequestFits(old(Load(endpoint)), body))
    ensures Taken(endpoint) == old(Taken(endpoint)) + old(Entering(peer, endpoint, body))
  {
    var fits := false;
    if Asked(peer) {
      var r := endpoint.Enqueue(body, writable);
      fits := r.Ok?;
    }
    peer.CancelRequest(id, fits);
    assert old(Taken(endpoint)) + [] == old(Taken(endpoint));
  }

  // A response fits if its message can be serialized and the queue is not over its limit.
  predicate ResponseFits(endpoint: Queues.InboundEndpoint, id: RequestId, status: int)
    reads endpoint, endpoint.queue
  {
    endpoint.format.serialize(endpoint.builder.(responses := [(id, status)])).Some? &&
    endpoint.queue.pendingBytes <= 64 * 1024 * 1024
  }

  // `endpoint` is the one of the stream that FindResponseSink finds.
  method SendResponse(peer: PeerContext.PeerContext, endpoint: Queues.InboundEndpoint, id: RequestId, status: int,
                      writable: bool)
    requires endpoint.Valid()
    modifies peer, endpoint, endpoint.queue
    ensures endpoint.Valid()
    ensures peer.View() ==
            PeerProtocol.SendResponse(old(peer.View()), id, status, old(ResponseFits(endpoint, id, status)))
    ensures if FindResponseSink(old(peer.View()), id) == None then unchanged(endpoint) && unchanged(endpoint.queue)
            else endpoint.builder.blocks == [] && endpoint.added == old(endpoint.added)
    ensures endpoint.sent == old(endpoint.sent) +
              if FindResponseSink(old(peer.View()), id).Some? && old(ResponseFits(endpoint, id, status))
              then [old(endpoint.builder).(responses := [(id, status)])] else []
  {
    if id !in peer.remoteRequestsStreams || peer.remoteRequestsStreams[id] !in peer.streams {
      return;
    }
    var r := endpoint.Send(id, status, writable);
    peer.SendResponse(id, status, r.Ok?);
  }

  // A block fits if it passes the limit of the queue and, when the message is full, the
  // partial response can be serialized.
  predicate BlockFits(endpoint: Queues.InboundEndpoint, id: RequestId, data: Queues.Buffer)
    reads endpoint, endpoint.queue
  {
    var size := endpoint.format.size(endpoint.builder);
    endpoint.queue.pendingBytes + size + |data| <= 64 * 1024 * 1024 &&
    (size + |data| > 16 * 1024 * 1024 ==>
       endpoint.format.serialize(endpoint.builder.(responses := [(id, RS_PARTIAL_CONTENT)])).Some?)
  }

  method AddBlockToResponse(peer: PeerContext.PeerContext, endpoint: Queues.InboundEndpoint, id: RequestId,
                            data: Queues.Buffer, writable: bool)
    returns (added: bool)
    requires endpoint.Valid()
    modifies peer, endpoint, endpoint.queue
    ensures endpoint.Valid()
    ensures peer.View() ==
            PeerProtocol.AddBlockToResponse(old(peer.View()), id, old(BlockFits(endpoint, id, data)))
    ensures added <==> FindResponseSink(old(peer.View()), id).Some? && old(BlockFits(endpoint, id, data))
    ensures endpoint.added == old(endpoint.added) + if added then [data] else []
  {
    if id !in peer.remoteRequestsStreams || peer.remoteRequestsStreams[id] !in peer.streams {
      return false;
    }
    var r := endpoint.AddBlockToResponse(id, data, writable);
    added := peer.AddBlockToResponse(id, r.Ok?);
  }
}
