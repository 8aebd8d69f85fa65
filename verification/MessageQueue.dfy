// ipfs_lite/ipfs/graphsync/impl/network: the write queue of a stream, and the two
// endpoints that fill it.
//
// The stream is foreign: whether it still accepts writes when a write begins is the
// parameter `writable`; the completion of a write is the method `OnMessageWritten`.
// Calls to the owner's feedback are entries of a log.

module MessageQueue {
  import opened Basics
  import opened ResponseStatus

  type Buffer = seq<byte>

  const MAX_MESSAGE_SIZE: nat := 16 * 1024 * 1024
  const MAX_PENDING_BYTES: nat := 64 * 1024 * 1024

  datatype QueueError = WriteQueueOverflow | MessageSerializeError

  datatype Feedback = Written | WriteFailed

  function TotalSize(bs: seq<Buffer>): nat {
    if bs == [] then 0 else |bs[0]| + TotalSize(bs[1..])
  }

  lemma {:induction false} TotalSizeAppend(a: seq<Buffer>, b: seq<Buffer>)
    ensures TotalSize(a + b) == TotalSize(a) + TotalSize(b)
  {
    if a == [] {
      assert a + b == b;
    } else {
      assert (a + b)[1..] == a[1..] + b;
      TotalSizeAppend(a[1..], b);
    }
  }

  lemma TotalSizeSnoc(a: seq<Buffer>, x: Buffer)
    ensures TotalSize(a + [x]) == TotalSize(a) + |x|
  {
    TotalSizeAppend(a, [x]);
    assert TotalSize([x]) == |x| + TotalSize([]);
  }

  class MessageQueue {
    var hasStream: bool
    var active: bool
    var writingBytes: nat
    var pendingBytes: nat
    var totalBytesWritten: nat
    var pending: seq<Buffer>
    var feedback: seq<Feedback>
    ghost var accepted: seq<Buffer>   // non-empty messages enqueued while active
    ghost var handed: seq<Buffer>     // messages given to the stream, in order
    ghost var written: seq<Buffer>    // messages whose write has completed
    ghost var intact: bool            // no write error and no clear so far

    // Accounting always; order and progress until the first error or clear.
    ghost predicate Valid()
      reads this
    {
      pendingBytes == TotalSize(pending) && (forall b | b in pending :: b != []) &&
      totalBytesWritten == TotalSize(written) &&
      (active ==> hasStream) &&
      (writingBytes > 0 ==> handed != [] && writingBytes == |handed[|handed| - 1]|) &&
      (intact ==>
         active && accepted == handed + pending &&
         (pending != [] ==> writingBytes > 0) &&
         handed == if writingBytes > 0 then written + [handed[|handed| - 1]] else written)
    }

    constructor ()
      ensures Valid() && intact && accepted == [] && pending == [] && writingBytes == 0 && totalBytesWritten == 0
    {
      hasStream, active, writingBytes, pendingBytes, totalBytesWritten := true, true, 0, 0, 0;
      pending, feedback, accepted, handed, written := [], [], [], [], [];
      intact := true;
    }

    // Null and empty messages, and everything after close, are ignored.
    method Enqueue(data: Option<Buffer>, writable: bool)
      requires Valid()
      modifies this
      ensures Valid()
      ensures accepted == if data == None || data.value == [] || !old(active) then old(accepted)
                          else old(accepted) + [data.value]
      ensures intact == (old(intact) && (accepted == old(accepted) || old(writingBytes) > 0 || writable))
      ensures active == old(active) && hasStream == old(hasStream) && written == old(written)
      ensures handed == if accepted != old(accepted) && old(writingBytes) == 0 && writable
                        then old(handed) + [data.value] else old(handed)
      ensures pending == if accepted != old(accepted) && old(writingBytes) > 0 then old(pending) + [data.value]
                         else old(pending)
      ensures writingBytes == if handed != old(handed) then |data.value| else old(writingBytes)
      ensures feedback == if accepted != old(accepted) && old(writingBytes) == 0 && !writable
                          then old(feedback) + [WriteFailed] else old(feedback)
    {
      if data == None || data.value == [] || !active {
        return;
      }
      accepted := accepted + [data.value];
      if writingBytes > 0 {
        TotalSizeSnoc(pending, data.value);
        Associative(handed, pending, [data.value]);
        pendingBytes := pendingBytes + |data.value|;
        pending := pending + [data.value];
      } else {
        BeginWrite(data.value, writable);
      }
    }

    // Hands a message to the stream; a stream that takes no more writes loses it.
    method BeginWrite(buffer: Buffer, writable: bool)
      requires buffer != [] && writingBytes == 0 && active && hasStream
      modifies `feedback, `writingBytes, `handed, `intact
      ensures if writable
              then writingBytes == |buffer| && handed == old(handed) + [buffer] && feedback == old(feedback) &&
                   intact == old(intact)
              else writingBytes == 0 && handed == old(handed) && feedback == old(feedback) + [WriteFailed] && !intact
    {
      if !hasStream || !writable {
        feedback := feedback + [WriteFailed];
        intact := false;
        return;
      }
      writingBytes := |buffer|;
      handed := handed + [buffer];
    }

    // The first pending message is written next.
    method Dequeue(writable: bool)
      requires active && hasStream && writingBytes == 0
      requires pendingBytes == TotalSize(pending) && (forall b | b in pending :: b != [])
      modifies `pending, `pendingBytes, `feedback, `writingBytes, `handed, `intact
      ensures pendingBytes == TotalSize(pending) && forall b | b in pending :: b != []
      ensures pending == if old(pending) == [] then [] else old(pending)[1..]
      ensures if old(pending) == [] then writingBytes == 0 && handed == old(handed) && intact == old(intact)
              else if writable then
                writingBytes == |old(pending)[0]| > 0 && handed == old(handed) + [old(pending)[0]] &&
                intact == old(intact)
              else writingBytes == 0 && handed == old(handed) && !intact
      ensures feedback == if old(pending) != [] && !writable then old(feedback) + [WriteFailed] else old(feedback)
    {
      if pending != [] {
        var buffer := pending[0];
        assert buffer in pending && forall b | b in pending[1..] :: b in pending;
        pending := pending[1..];
        pendingBytes := pendingBytes - |buffer|;
        BeginWrite(buffer, writable);
      }
    }

    // Between two writes: everything handed out has been written.
    ghost predicate Idle()
      reads this
    {
      pendingBytes == TotalSize(pending) && (forall b | b in pending :: b != []) &&
      totalBytesWritten == TotalSize(written) && active && hasStream && writingBytes == 0 &&
      (intact ==> accepted == handed + pending && handed == written)
    }

    // The next write, if a message is waiting.
    method WriteNext(writable: bool)
      requires Idle()
      modifies `pending, `pendingBytes, `feedback, `writingBytes, `handed, `intact
      ensures Valid()
      ensures pending == if old(pending) == [] then [] else old(pending)[1..]
      ensures handed == if old(pending) != [] && writable then old(handed + [pending[0]]) else old(handed)
      ensures writingBytes == if old(pending) != [] && writable then old(|pending[0]|) else 0
      ensures feedback == old(feedback) + if old(pending) != [] && !writable then [WriteFailed] else []
      ensures intact == (old(intact) && (old(pending) == [] || writable))
    {
      ghost var next, before := pending, handed;
      Dequeue(writable);
      if next != [] {
        assert next == [next[0]] + next[1..];
        Associative(before, [next[0]], next[1..]);
      }
    }

    // A write has completed: with an error, or with a number of bytes.
    method OnMessageWritten(res: Option<nat>, writable: bool)
      requires Valid() && (active ==> writingBytes > 0)
      modifies this
      ensures Valid() && active == old(active) && accepted == old(accepted)
      ensures !active ==> pending == old(pending) && handed == old(handed) && written == old(written)
      ensures active ==>
                if res == Some(old(writingBytes))
                then written == old(written + [handed[|handed| - 1]]) &&
                     pending == (if old(pending) == [] then [] else old(pending)[1..]) &&
                     handed == (if old(pending) != [] && writable then old(handed + [pending[0]]) else old(handed)) &&
                     writingBytes == (if old(pending) != [] && writable then old(|pending[0]|) else 0) &&
                     feedback == old(feedback) +
                                 (if old(pending) != [] && !writable then [WriteFailed] else []) + [Written] &&
                     intact == (old(intact) && (old(pending) == [] || writable))
                else written == old(written) && pending == old(pending) && handed == old(handed) &&
                     feedback == old(feedback) + [WriteFailed] && !intact && writingBytes == 0
    {
      if !active {
        return;
      }
      var n := writingBytes;
      writingBytes := 0;
      if res == None {
        feedback := feedback + [WriteFailed];
        intact := false;
        return;
      }
      if n != res.value {
        feedback := feedback + [WriteFailed];
        intact := false;
        return;
      }
      TotalSizeSnoc(written, handed[|handed| - 1]);
      totalBytesWritten := totalBytesWritten + n;
      written := written + [handed[|handed| - 1]];
      WriteNext(writable);
      feedback := feedback + [Written];
    }

    method Clear()
      requires Valid()
      modifies `pending, `pendingBytes, `intact
      ensures Valid() && pending == [] && pendingBytes == 0 && !intact
    {
      pendingBytes := 0;
      pending := [];
      intact := false;
    }

    method Close()
      requires Valid()
      modifies `pending, `pendingBytes, `intact, `active, `writingBytes, `hasStream
      ensures Valid() && !active && !hasStream && pending == [] && writingBytes == 0
    {
      Clear();
      active := false;
      writingBytes := 0;
      hasStream := false;
    }
  }

  // ---------------------------------------------------------------- requests

  // Requests wait in the endpoint until a stream is there, then in its queue.
  class OutboundEndpoint {
    var pendingBuffers: seq<Buffer>
    var pendingBytes: nat
    var isConnecting: bool
    var queue: MessageQueue?

    ghost predicate Valid()
      reads this, queue
    {
      isConnecting == (queue == null) && (queue != null ==> queue.Valid() && pendingBuffers == []) &&
      pendingBytes == TotalSize(pendingBuffers) <= MAX_PENDING_BYTES &&
      forall b | b in pendingBuffers :: b != []
    }

    constructor ()
      ensures Valid() && isConnecting && pendingBuffers == []
    {
      pendingBuffers, pendingBytes, isConnecting, queue := [], 0, true, null;
    }

    // Everything that waited enters the queue, in order.
    method OnConnected(q: MessageQueue, writable: bool)
      requires Valid() && isConnecting && q.Valid() && q.active
      modifies this, q
      ensures Valid() && queue == q && !isConnecting && pendingBuffers == []
      ensures q.accepted == old(q.accepted + pendingBuffers)
      ensures writable ==> q.intact == old(q.intact)
    {
      queue := q;
      isConnecting := false;
      assert q.accepted == q.accepted + pendingBuffers[..0];
      for i := 0 to |pendingBuffers|
        invariant q.Valid() && q.active && queue == q && !isConnecting && pendingBuffers == old(pendingBuffers)
        invariant pendingBytes == old(pendingBytes)
        invariant q.accepted == old(q.accepted) + pendingBuffers[..i]
        invariant writable ==> q.intact == old(q.intact)
      {
        assert pendingBuffers[i] in pendingBuffers;
        assert pendingBuffers[..i + 1] == pendingBuffers[..i] + [pendingBuffers[i]];
        Associative(old(q.accepted), pendingBuffers[..i], [pendingBuffers[i]]);
        q.Enqueue(Some(pendingBuffers[i]), writable);
      }
      assert pendingBuffers[..|pendingBuffers|] == pendingBuffers;
      pendingBytes := 0;
      pendingBuffers := [];
    }

    // Accepted messages keep their order on both sides of the connection; the limit is
    // on what has not yet been handed to a stream.
    method Enqueue(data: Option<Buffer>, writable: bool) returns (r: Result<(), QueueError>)
      requires Valid()
      modifies this, queue
      ensures Valid() && queue == old(queue)
      ensures var empty := data == None || data.value == [];
              var load := if queue != null then old(queue.pendingBytes) else old(pendingBytes);
              r == if !empty && load + |data.value| > MAX_PENDING_BYTES then Err(WriteQueueOverflow) else Ok(())
      ensures var enters := r.Ok? && data.Some? && data.value != [];
              if queue == null
              then pendingBuffers == if enters then old(pendingBuffers) + [data.value] else old(pendingBuffers)
              else
                queue.active == old(queue.active) &&
                queue.accepted == if enters && queue.active then old(queue.accepted) + [data.value]
                                  else old(queue.accepted)
    {
      if data == None || data.value == [] {
        return Ok(());
      }
      var load := if queue != null then queue.pendingBytes else pendingBytes;
      if load + |data.value| > MAX_PENDING_BYTES {
        return Err(WriteQueueOverflow);
      }
      if queue != null {
        queue.Enqueue(data, writable);
      } else {
        TotalSizeSnoc(pendingBuffers, data.value);
        pendingBytes := pendingBytes + |data.value|;
        pendingBuffers := pendingBuffers + [data.value];
      }
      r := Ok(());
    }

    method ClearPendingMessages()
      requires Valid()
      modifies this, queue
      ensures Valid() && queue == old(queue) && pendingBuffers == []
      ensures queue != null ==>
              queue.pending == [] && queue.accepted == old(queue.accepted) && queue.handed == old(queue.handed)
    {
      if queue != null {
        queue.Clear();
      } else {
        pendingBuffers := [];
        pendingBytes := 0;
      }
    }
  }

  // ---------------------------------------------------------------- responses

  // A response message: data blocks, and (request id, status) pairs.
  datatype Message = Message(blocks: seq<Buffer>, responses: seq<(int, int)>)

  // Protobuf serialization: it may fail, the size is known beforehand and counts every
  // block byte, and a message with content is not empty.
  datatype Format = Format(size: Message -> nat, serialize: Message -> Option<Buffer>) {
    ghost predicate Valid() {
      (forall m :: size(m) >= TotalSize(m.blocks)) &&
      forall m :: serialize(m).Some? && m.responses != [] ==> serialize(m).value != []
    }
  }

  function AllBlocks(ms: seq<Message>): seq<Buffer> {
    if ms == [] then [] else ms[0].blocks + AllBlocks(ms[1..])
  }

  lemma {:induction false} AllBlocksSnoc(ms: seq<Message>, m: Message)
    ensures AllBlocks(ms + [m]) == AllBlocks(ms) + m.blocks
  {
    if ms == [] {
      assert [] + [m] == [m] && AllBlocks([m]) == m.blocks + [];
    } else {
      assert (ms + [m])[1..] == ms[1..] + [m];
      AllBlocksSnoc(ms[1..], m);
      Associative(ms[0].blocks, AllBlocks(ms[1..]), m.blocks);
    }
  }

  class InboundEndpoint {
    const format: Format
    const queue: MessageQueue
    var builder: Message
    ghost var added: seq<Buffer>      // blocks added so far
    ghost var sent: seq<Message>      // messages given to the queue
    ghost var intact: bool            // nothing has failed so far

    // No added block is lost or repeated; no message carries more block bytes than the
    // limit if no single block does.
    ghost predicate Valid()
      reads this, queue
    {
      format.Valid() && queue.Valid() && builder.responses == [] &&
      (intact ==> added == AllBlocks(sent) + builder.blocks) &&
      ((forall b | b in added :: |b| <= MAX_MESSAGE_SIZE) ==>
         TotalSize(builder.blocks) <= MAX_MESSAGE_SIZE &&
         forall m | m in sent :: TotalSize(m.blocks) <= MAX_MESSAGE_SIZE)
    }

    constructor (format: Format, queue: MessageQueue)
      requires format.Valid() && queue.Valid()
      ensures Valid() && intact && this.queue == queue && this.format == format && added == [] && sent == []
    {
      this.format, this.queue := format, queue;
      builder := Message([], []);
      added, sent, intact := [], [], true;
    }

    // The common end of a full and a partial response: the builder is emptied in any case.
    method Send(requestId: int, status: int, writable: bool) returns (r: Result<(), QueueError>)
      requires Valid()
      modifies this, queue
      ensures Valid() && added == old(added) && builder.blocks == []
      ensures var m := old(builder).(responses := [(requestId, status)]);
              if r.Ok? then
                sent == old(sent) + [m] && intact == old(intact) && format.serialize(m).Some? &&
                queue.accepted == if queue.active then old(queue.accepted) + [format.serialize(m).value]
                                  else old(queue.accepted)
              else
                sent == old(sent) && !intact && queue.accepted == old(queue.accepted) &&
                r.error == if format.serialize(m) == None then MessageSerializeError else WriteQueueOverflow
      ensures r.Ok? <==> format.serialize(old(builder).(responses := [(requestId, status)])).Some? &&
                         old(queue.pendingBytes) <= MAX_PENDING_BYTES
    {
      builder := builder.(responses := builder.responses + [(requestId, status)]);
      var m := builder;
      assert m.responses == [(requestId, status)];
      var res := format.serialize(builder);
      builder := Message([], []);
      if res == None {
        intact := false;
        return Err(MessageSerializeError);
      }
      if queue.pendingBytes > MAX_PENDING_BYTES {
        intact := false;
        return Err(WriteQueueOverflow);
      }
      AllBlocksSnoc(sent, m);
      assert AllBlocks(sent) + m.blocks + [] == AllBlocks(sent) + m.blocks;
      sent := sent + [m];
      queue.Enqueue(res, writable);
      r := Ok(());
    }

    method SendResponse(requestId: int, status: int, writable: bool) returns (r: Result<(), QueueError>)
      requires Valid()
      modifies this, queue
      ensures Valid() && added == old(added) && builder.blocks == []
      ensures r.Ok? ==> sent == old(sent) + [old(builder).(responses := [(requestId, status)])] && intact == old(intact)
      ensures r.Err? ==> sent == old(sent) && !intact
    {
      r := Send(requestId, status, writable);
    }

    // A block that does not fit the message sends what is there as a partial response.
    method AddBlockToResponse(requestId: int, data: Buffer, writable: bool) returns (r: Result<(), QueueError>)
      requires Valid()
      modifies this, queue
      ensures Valid()
      ensures r.Ok? ==>
                added == old(added) + [data] && intact == old(intact) &&
                if old(format.size(builder)) + |data| > MAX_MESSAGE_SIZE
                then sent == old(sent) + [old(builder).(responses := [(requestId, RS_PARTIAL_CONTENT)])] &&
                     builder.blocks == [data]
                else sent == old(sent) && builder.blocks == old(builder.blocks) + [data]
      ensures r.Err? ==>
                added == old(added) && sent == old(sent) &&
                ((r.error == WriteQueueOverflow && builder == old(builder)) || !intact)
      ensures var size := old(format.size(builder));
              if old(queue.pendingBytes) + size + |data| > MAX_PENDING_BYTES
              then r == Err(WriteQueueOverflow) && builder == old(builder) && intact == old(intact) &&
                   queue.accepted == old(queue.accepted)
              else if size + |data| <= MAX_MESSAGE_SIZE then r.Ok? && queue.accepted == old(queue.accepted)
              else r.Ok? <==> format.serialize(old(builder).(responses := [(requestId, RS_PARTIAL_CONTENT)])).Some?
    {
      var serializedSize := format.size(builder);
      if queue.pendingBytes + serializedSize + |data| > MAX_PENDING_BYTES {
        return Err(WriteQueueOverflow);
      }
      if serializedSize + |data| > MAX_MESSAGE_SIZE {
        var res := Send(requestId, RS_PARTIAL_CONTENT, writable);
        if res.Err? {
          return res;
        }
      }
      TotalSizeSnoc(builder.blocks, data);
      Associative(AllBlocks(sent), builder.blocks, [data]);
      added := added + [data];
      assert data in added && forall b | b in old(added) :: b in added;
      builder := builder.(blocks := builder.blocks + [data]);
      r := Ok(());
    }
  }
}
