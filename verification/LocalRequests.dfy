// ipfs_lite/ipfs/graphsync/impl/local_requests.cpp: requests made by this host.
//
// A request builder either serializes a request or fails; the number that the shared
// generator hands out is an input. Callbacks and calls to the core component are entries
// of a log; a callback does not call back into this object. The scheduler's notification
// is the method NotificationFires. Ids are 32-bit, a ticket is the id it was made from.

module LocalRequests {
  import opened Basics
  import opened IntSets
  import Logs
  import opened ResponseStatus

  type Callback = int
  type Cid = int
  type Body = seq<byte>

  const INT_MAX: int := 0x7FFF_FFFF

  datatype Event =
    | Registered(id: int, callback: Callback)
    | Called(id: int, callback: Callback, status: int)
    | Unsubscribed(id: int)
    | CancelSent(id: int, body: Option<Body>)
    | NotificationScheduled

  // ------------------------------------------------------ the discipline of callbacks

  // The callbacks that are registered: no registration overwrites one, only a registered
  // callback is called, and its terminal status or its unsubscription ends it.
  function Record(live: map<int, Callback>, e: Event): Option<map<int, Callback>> {
    match e
    case Registered(id, cb) => if id in live then None else Some(live[id := cb])
    case Called(id, cb, status) =>
      if id !in live || live[id] != cb then None else if IsTerminal(status) then Some(live - {id}) else Some(live)
    case Unsubscribed(id) => if id in live then Some(live - {id}) else None
    case _ => Some(live)
  }

  function Replay(log: seq<Event>): Option<map<int, Callback>> {
    Logs.Replay(Record, map[], log)
  }

  lemma ReplaySnoc(log: seq<Event>, e: Event)
    ensures Replay(log + [e]) == match Replay(log) case None => None case Some(live) => Record(live, e)
  {
    Logs.ReplaySnoc(Record, map[], log, e);
  }

  predicate Ends(e: Event, id: int) {
    (e.Called? && e.id == id && IsTerminal(e.status)) || e == Unsubscribed(id)
  }

  // After its terminal status, or its unsubscription, a registration is never called again.
  lemma {:induction false} SilentAfterEnd(log: seq<Event>, id: int, i: nat, j: nat)
    requires Replay(log).Some? && i < j < |log| && Ends(log[i], id)
    requires forall k | i < k < j :: !(log[k].Registered? && log[k].id == id)
    ensures !(log[j].Called? && log[j].id == id) && !Ends(log[j], id)
  {
    AbsentUntilRegistered(log, id, i, j);
    Logs.EveryEventInPlace(Record, map[], log, j);
  }

  lemma {:induction false} AbsentUntilRegistered(log: seq<Event>, id: int, i: nat, j: nat)
    requires Replay(log).Some? && i < j <= |log| && Ends(log[i], id)
    requires forall k | i < k < j :: !(log[k].Registered? && log[k].id == id)
    ensures Replay(log[..j]).Some? && id !in Replay(log[..j]).value
    decreases j
  {
    Logs.EveryEventInPlace(Record, map[], log, j - 1);
    if j - 1 > i {
      AbsentUntilRegistered(log, id, i, j - 1);
    }
  }

  predicate Registers(e: Event, id: int) {
    e.Registered? && e.id == id
  }

  lemma {:induction false} PresentUntilEnded(log: seq<Event>, id: int, i: nat, j: nat)
    requires Replay(log).Some? && i < j <= |log| && Registers(log[i], id)
    requires forall k | i < k < j :: !Ends(log[k], id)
    ensures Replay(log[..j]).Some? && id in Replay(log[..j]).value
    decreases j
  {
    Logs.EveryEventInPlace(Record, map[], log, j - 1);
    if j - 1 > i {
      PresentUntilEnded(log, id, i, j - 1);
    }
  }

  // A subscription is the ticket of one registration, event i of the log, but it holds only
  // the id. Dropping it while something is registered under that id ends its own
  // registration if and only if that has not ended before; otherwise it ends a later one.
  lemma TicketEndsItsOwnIff(log: seq<Event>, id: int, i: nat)
    requires Replay(log).Some? && i < |log| && Registers(log[i], id) && id in Replay(log).value
    ensures (forall k | i < k < |log| :: !Registers(log[k], id)) <==> (forall k | i < k < |log| :: !Ends(log[k], id))
  {
    assert log[..|log|] == log;
    if k :| i < k < |log| && Ends(log[k], id) && forall j | i < j < |log| :: !Registers(log[j], id) {
      AbsentUntilRegistered(log, id, k, |log|);
      assert false;
    }
    if k :| i < k < |log| && Registers(log[k], id) && forall j | i < j < |log| :: !Ends(log[j], id) {
      PresentUntilEnded(log, id, i, k);
      Logs.EveryEventInPlace(Record, map[], log, k);
      assert false;
    }
  }

  datatype Kind = Entry | End

  function Count(log: seq<Event>, kind: Kind, id: int): nat {
    if log == [] then 0
    else
      var e := log[|log| - 1];
      var counts := if kind == Entry then e.Registered? && e.id == id else Ends(e, id);
      Count(log[..|log| - 1], kind, id) + if counts then 1 else 0
  }

  // Registrations under an id = terminal calls and unsubscriptions + (1 if still registered).
  lemma {:induction false} RegistrationsAreConserved(log: seq<Event>, id: int)
    requires Replay(log).Some?
    ensures Count(log, Entry, id) == Count(log, End, id) + if id in Replay(log).value then 1 else 0
  {
    if log != [] {
      RegistrationsAreConserved(log[..|log| - 1], id);
    }
  }

  // ------------------------------------------------------------------------ cancelAll

  function Rejections(m: map<int, Callback>): seq<Event>
    decreases m.Keys
  {
    if m == map[] then [] else
      var id := Least(m.Keys);
      [Called(id, m[id], RS_REJECTED_LOCALLY)] + Rejections(m - {id})
  }

  lemma {:induction false} RejectionsEndAll(log: seq<Event>, m: map<int, Callback>, live: map<int, Callback>)
    requires Replay(log) == Some(live) && forall id | id in m :: id in live && live[id] == m[id]
    ensures Replay(log + Rejections(m)) == Some(live - m.Keys)
    decreases m.Keys
  {
    if m == map[] {
      assert log + [] == log && live - m.Keys == live;
    } else {
      var id := Least(m.Keys);
      var e := Called(id, m[id], RS_REJECTED_LOCALLY);
      ReplaySnoc(log, e);
      RejectionsEndAll(log + [e], m - {id}, live - {id});
      Associative(log, [e], Rejections(m - {id}));
      assert live - {id} - (m - {id}).Keys == live - m.Keys;
    }
  }

  // Everything registered under the ids of m is called once, with that status.
  lemma {:induction false} RejectionsAre(m: map<int, Callback>)
    ensures forall e :: e in Rejections(m) <==>
            e.Called? && e.status == RS_REJECTED_LOCALLY && e.id in m && m[e.id] == e.callback
    ensures forall i, j | 0 <= i < j < |Rejections(m)| :: Rejections(m)[i].id < Rejections(m)[j].id
    decreases m.Keys
  {
    if m != map[] {
      var id := Least(m.Keys);
      var rest := Rejections(m - {id});
      RejectionsAre(m - {id});
      assert forall e | e in rest :: id < e.id;
      forall i, j | 0 <= i < j < |Rejections(m)| ensures Rejections(m)[i].id < Rejections(m)[j].id {
        assert Rejections(m)[j] == rest[j - 1] && rest[j - 1] in rest;
        if i > 0 {
          assert Rejections(m)[i] == rest[i - 1];
        }
      }
    }
  }

  // -------------------------------------------------------------------------- fresh ids

  // If every id up to n is taken, there are that many of them.
  lemma {:induction false} TakenIdsAreMany(ids: set<int>, n: nat)
    requires forall k | 1 <= k <= n :: k in ids
    ensures n <= |ids|
  {
    if n > 0 {
      TakenIdsAreMany(ids - {n}, n - 1);
    }
  }

  lemma AddToUnion(a: map<int, Callback>, b: map<int, Callback>, id: int, cb: Callback)
    requires id !in a && id !in b
    ensures a[id := cb] + b == (a + b)[id := cb] == a + b[id := cb]
  {
  }

  lemma RejectedRegistered(a: map<int, Callback>, b: map<int, Callback>, log: seq<Event>, id: int, cb: Callback)
    requires id !in a && id !in b && Replay(log) == Some(a + b)
    ensures Replay(log + [Registered(id, cb)]) == Some(a + b[id := cb])
  {
    ReplaySnoc(log, Registered(id, cb));
    AddToUnion(a, b, id, cb);
  }

  lemma RemoveFromUnion(a: map<int, Callback>, b: map<int, Callback>, id: int)
    ensures (a - {id}) + (b - {id}) == a + b - {id}
    ensures id !in a ==> a - {id} == a
    ensures id !in b ==> b - {id} == b
  {
  }

  // ------------------------------------------------------------------------ the object

  class LocalRequests {
    var activeRequests: map<int, Callback>
    var rejectedRequests: map<int, Callback>
    var currentRejectedRequestId: int
    var requestToCid: map<int, Cid>
    var log: seq<Event>

    // Live ids are distinct: active ones positive, rejected ones within
    // [currentRejectedRequestId, -1]; and the log keeps the discipline.
    ghost predicate Valid()
      reads this
    {
      (forall id | id in activeRequests :: 0 < id <= INT_MAX && id in requestToCid) &&
      (forall id | id in rejectedRequests :: currentRejectedRequestId <= id < 0) &&
      currentRejectedRequestId <= 0 &&
      Replay(log) == Some(activeRequests + rejectedRequests)
    }

    constructor ()
      ensures Valid() && activeRequests == rejectedRequests == map[] && log == [] && currentRejectedRequestId == 0
    {
      activeRequests, rejectedRequests, currentRejectedRequestId, requestToCid, log := map[], map[], 0, map[], [];
      new;
      assert activeRequests + rejectedRequests == map[];
    }

    // The generator's number if it is usable, else the least unused id.
    method NextRequestId(generated: int) returns (id: int)
      requires Valid() && generated <= INT_MAX && |activeRequests.Keys| < INT_MAX
      ensures 0 < id <= 0x7FFF_FFFF && id !in activeRequests
      ensures id == generated || forall k | 1 <= k < id :: k in activeRequests
      ensures generated > 0 && generated !in activeRequests ==> id == generated
    {
      if generated > 0 && generated !in activeRequests {
        return generated;
      }
      id := LeastUnusedId(activeRequests.Keys);
    }

    static method LeastUnusedId(used: set<int>) returns (id: int)
      ensures 0 < id <= |used| + 1 && id !in used && forall k | 1 <= k < id :: k in used
    {
      id := 1;
      while id in used
        invariant 0 < id <= |used| + 1
        invariant forall k | 1 <= k < id :: k in used
        decreases |used| + 1 - id
      {
        TakenIdsAreMany(used, id);
        id := id + 1;
      }
    }

    method NewRequest(generated: int, serialized: Option<Body>, rootCid: Cid, callback: Callback)
        returns (id: int, body: Option<Body>)
      requires Valid() && generated <= INT_MAX && |activeRequests.Keys| < INT_MAX
      modifies this
      ensures Valid() && id !in old(activeRequests) && id !in old(rejectedRequests)
      ensures serialized.Some? ==>
                id > 0 && body == serialized && activeRequests == old(activeRequests)[id := callback] &&
                rejectedRequests == old(rejectedRequests) && requestToCid == old(requestToCid)[id := rootCid] &&
                log == old(log) + [Registered(id, callback)]
      ensures serialized == None ==>
                id < 0 && body == None && activeRequests == old(activeRequests) &&
                rejectedRequests == old(rejectedRequests)[id := callback] && requestToCid == old(requestToCid) &&
                log == old(log) + [Registered(id, callback)] + [NotificationScheduled]
    {
      id := NextRequestId(generated);
      if serialized == None {
        id := NewRejectedRequest(callback);
        id := currentRejectedRequestId;
        return id, None;
      }
      body := serialized;
      Activate(id, rootCid, callback);
    }

    method Activate(id: int, rootCid: Cid, callback: Callback)
      requires Valid() && 0 < id <= INT_MAX && id !in activeRequests
      modifies `activeRequests, `requestToCid, `log
      ensures Valid() && activeRequests == old(activeRequests)[id := callback]
      ensures requestToCid == old(requestToCid)[id := rootCid] && log == old(log) + [Registered(id, callback)]
    {
      ReplaySnoc(log, Registered(id, callback));
      AddToUnion(activeRequests, rejectedRequests, id, callback);
      log := log + [Registered(id, callback)];
      activeRequests := activeRequests[id := callback];
      requestToCid := requestToCid[id := rootCid];
    }

    // Returns the id of the subscription.
    method NewRejectedRequest(callback: Callback) returns (id: int)
      requires Valid()
      modifies `currentRejectedRequestId, `rejectedRequests, `log
      ensures Valid() && id == currentRejectedRequestId == old(currentRejectedRequestId) - 1 &&
              id !in old(activeRequests) && id !in old(rejectedRequests)
      ensures rejectedRequests == old(rejectedRequests)[id := callback]
      ensures log == old(log) + [Registered(id, callback)] + [NotificationScheduled]
    {
      id := RegisterRejected(callback);
      AsyncNotifyRejectedRequests();
    }

    method RegisterRejected(callback: Callback) returns (id: int)
      requires Valid()
      modifies `currentRejectedRequestId, `rejectedRequests, `log
      ensures Valid() && id == currentRejectedRequestId == old(currentRejectedRequestId) - 1
      ensures id !in old(activeRequests) && id !in old(rejectedRequests)
      ensures rejectedRequests == old(rejectedRequests)[id := callback]
      ensures log == old(log) + [Registered(id, callback)]
    {
      currentRejectedRequestId := currentRejectedRequestId - 1;
      id := currentRejectedRequestId;
      RejectedRegistered(activeRequests, rejectedRequests, log, id, callback);
      rejectedRequests := rejectedRequests[id := callback];
      log := log + [Registered(id, callback)];
    }

    method AsyncNotifyRejectedRequests()
      requires Valid()
      modifies `log
      ensures Valid() && log == old(log) + [NotificationScheduled]
    {
      ReplaySnoc(log, NotificationScheduled);
      log := log + [NotificationScheduled];
    }

    method OnResponse(id: int, status: int)
      requires Valid()
      modifies `activeRequests, `log
      ensures Valid()
      ensures id !in old(activeRequests) ==> activeRequests == old(activeRequests) && log == old(log)
      ensures id in old(activeRequests) ==>
                log == old(log) + [Called(id, old(activeRequests)[id], status)] &&
                activeRequests == if IsTerminal(status) then old(activeRequests) - {id} else old(activeRequests)
    {
      if id !in activeRequests {
        return;
      }
      var callback := activeRequests[id];
      ReplaySnoc(log, Called(id, callback, status));
      RemoveFromUnion(activeRequests, rejectedRequests, id);
      if IsTerminal(status) {
        activeRequests := activeRequests - {id};
      }
      log := log + [Called(id, callback, status)];
    }

    method NotifyAll(requests: map<int, Callback>)
      modifies `log
      ensures log == old(log) + Rejections(requests)
    {
      var m := requests;
      while m != map[]
        invariant log + Rejections(m) == old(log) + Rejections(requests)
        decreases m.Keys
      {
        var id := Least(m.Keys);
        Associative(log, [Called(id, m[id], RS_REJECTED_LOCALLY)], Rejections(m - {id}));
        log := log + [Called(id, m[id], RS_REJECTED_LOCALLY)];
        m := m - {id};
      }
      assert log + [] == log;
    }

    method CancelActive()
      requires Valid()
      modifies `activeRequests, `log
      ensures Valid() && activeRequests == map[] && log == old(log) + Rejections(old(activeRequests))
    {
      var m := activeRequests;
      RejectionsEndAll(log, m, activeRequests + rejectedRequests);
      assert activeRequests + rejectedRequests - m.Keys == rejectedRequests == map[] + rejectedRequests;
      activeRequests := map[];
      NotifyAll(m);
    }

    method CancelRejected()
      requires Valid()
      modifies `rejectedRequests, `log
      ensures Valid() && rejectedRequests == map[] && log == old(log) + Rejections(old(rejectedRequests))
    {
      var m := rejectedRequests;
      RejectionsEndAll(log, m, activeRequests + rejectedRequests);
      assert activeRequests + rejectedRequests - m.Keys == activeRequests == activeRequests + map[];
      rejectedRequests := map[];
      NotifyAll(m);
    }

    // Whatever is registered gets RS_REJECTED_LOCALLY, once, in the order of ids.
    method CancelAll()
      requires Valid()
      modifies `activeRequests, `rejectedRequests, `log
      ensures Valid() && activeRequests == rejectedRequests == map[] && Replay(log) == Some(map[])
      ensures log == old(log) + Rejections(old(activeRequests)) + Rejections(old(rejectedRequests))
    {
      CancelActive();
      CancelRejected();
      assert activeRequests + rejectedRequests == map[];
    }

    method NotificationFires()
      requires Valid()
      modifies `rejectedRequests, `currentRejectedRequestId, `log
      ensures Valid() && rejectedRequests == map[] && currentRejectedRequestId == 0
      ensures log == old(log) + Rejections(old(rejectedRequests))
    {
      CancelRejected();
      if rejectedRequests == map[] {
        currentRejectedRequestId := 0;
      }
    }

    // Ends what is registered under the id, whoever holds the ticket (TicketEndsItsOwnIff).
    // `cancelBody` is the serialized cancel request, if it serializes.
    method Unsubscribe(id: int, cancelBody: Option<Body>)
      requires Valid()
      modifies `activeRequests, `rejectedRequests, `log
      ensures Valid()
      ensures activeRequests == old(activeRequests) - {id} && rejectedRequests == old(rejectedRequests) - {id}
      ensures log == old(log) + if id in old(activeRequests) then [Unsubscribed(id), CancelSent(id, cancelBody)]
                                else if id in old(rejectedRequests) then [Unsubscribed(id)] else []
    {
      RemoveFromUnion(activeRequests, rejectedRequests, id);
      ReplaySnoc(log, Unsubscribed(id));
      if id < 0 {
        if id in rejectedRequests {
          log := log + [Unsubscribed(id)];
        }
        rejectedRequests := rejectedRequests - {id};
        return;
      }
      if id !in activeRequests {
        return;
      }
      activeRequests := activeRequests - {id};
      ReplaySnoc(log + [Unsubscribed(id)], CancelSent(id, cancelBody));
      assert log + [Unsubscribed(id), CancelSent(id, cancelBody)] ==
             log + [Unsubscribed(id)] + [CancelSent(id, cancelBody)];
      log := log + [Unsubscribed(id), CancelSent(id, cancelBody)];
    }

    method GetRequestRootCid(id: int) returns (cid: Option<Cid>)
      requires Valid()
      ensures cid == if id in requestToCid then Some(requestToCid[id]) else None
      ensures id in activeRequests ==> cid.Some?
    {
      cid := if id in requestToCid then Some(requestToCid[id]) else None;
    }
  }

  // The ids of rejected requests start anew after the notification, so an old subscription
  // that is dropped late ends the registration of somebody else, who is never called.
  method DropLate(first: Callback, second: Callback) returns (r: LocalRequests)
    ensures fresh(r) && r.Valid() && r.rejectedRequests == map[]
    ensures r.log == [Registered(-1, first), NotificationScheduled, Called(-1, first, RS_REJECTED_LOCALLY),
                      Registered(-1, second), NotificationScheduled, Unsubscribed(-1)]
  {
    r := new LocalRequests();
    var ticket := r.NewRejectedRequest(first);
    r.NotificationFires();
    OneRejection(ticket, first);
    var other := r.NewRejectedRequest(second);
    r.Unsubscribe(ticket, None);
  }

  lemma OneRejection(id: int, callback: Callback)
    ensures Rejections(map[id := callback]) == [Called(id, callback, RS_REJECTED_LOCALLY)]
  {
    var m := map[id := callback];
    assert Least(m.Keys) == id && m - {id} == map[];
  }
}
