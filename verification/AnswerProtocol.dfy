// How several instances that serve one remote request agree on the answer:
// RequestIdGenerator (ipfs_lite/ipfs/graphsync/impl/local_requests.hpp) and the task that
// onRemoteRequest posts (ipfs_lite/ipfs/graphsync/impl/graphsync_impl.cpp).
//
// A participant is one instance with one request under the request id in question. What
// its lookup finds, and whether it is stopped before it sends, is its outcome, fixed but
// arbitrary. Tasks run on a thread pool: a schedule names, step by step, who moves.

module AnswerProtocol {
  import opened Basics
  import opened ResponseStatus

  // std::find and erase: the first occurrence goes.
  function Without<T(==)>(s: seq<T>, x: T): seq<T> {
    if s == [] then [] else if s[0] == x then s[1..] else [s[0]] + Without(s[1..], x)
  }

  lemma {:induction false} WithoutContents<T>(s: seq<T>, x: T)
    requires forall i, j | 0 <= i < j < |s| :: s[i] != s[j]
    ensures forall y :: y in Without(s, x) <==> y in s && y != x
    ensures forall i, j | 0 <= i < j < |Without(s, x)| :: Without(s, x)[i] != Without(s, x)[j]
  {
    if s != [] {
      var t := s[1..];
      WithoutContents(t, x);
      assert s == [s[0]] + t;
      assert s[0] !in t;
      if s[0] != x {
        var r := Without(t, x);
        forall i, j | 0 <= i < j < |r| + 1 ensures ([s[0]] + r)[i] != ([s[0]] + r)[j] {
          assert r[j - 1] in r;
        }
      }
    }
  }

  // ------------------------------------------------------------------ the generator

  class StatusHolder {
    var status: int
    const holderId: nat

    constructor (id: nat)
      ensures status == RS_AWAITING_STATUS && holderId == id
    {
      status, holderId := RS_AWAITING_STATUS, id;
    }
  }

  class RequestIdGenerator {
    var counter: int
    var nextHolderId: nat
    var requestHolders: map<int, seq<StatusHolder>>

    // A request that is tracked has holders, all different.
    ghost predicate Valid()
      reads this
    {
      forall id | id in requestHolders ::
        requestHolders[id] != [] &&
        forall i, j | 0 <= i < j < |requestHolders[id]| :: requestHolders[id][i] != requestHolders[id][j]
    }

    constructor ()
      ensures Valid() && requestHolders == map[]
    {
      counter, nextHolderId, requestHolders := 0, 0, map[];
    }

    // A 32-bit atomic counter, which wraps.
    method Next() returns (id: int)
      requires -0x8000_0000 <= counter < 0x8000_0000
      modifies `counter
      ensures id == counter && -0x8000_0000 <= id < 0x8000_0000 && (id - old(counter) - 1) % 0x1_0000_0000 == 0
    {
      counter := if counter == 0x7FFF_FFFF then -0x8000_0000 else counter + 1;
      id := counter;
    }

    method RegisterStatus(id: int) returns (holder: StatusHolder)
      requires Valid()
      modifies `nextHolderId, `requestHolders
      ensures Valid() && fresh(holder) && holder.status == RS_AWAITING_STATUS
      ensures requestHolders ==
              old(requestHolders)[id := (if id in old(requestHolders) then old(requestHolders)[id] else []) + [holder]]
    {
      ghost var before := if id in requestHolders then requestHolders[id] else [];
      holder := new StatusHolder(nextHolderId);
      nextHolderId := nextHolderId + 1;
      var holders := if id in requestHolders then requestHolders[id] else [];
      assert forall i | 0 <= i < |before| :: before[i] != holder;
      requestHolders := requestHolders[id := holders + [holder]];
    }

    method RemoveStatus(id: int, holder: StatusHolder)
      requires Valid()
      modifies `requestHolders
      ensures Valid()
      ensures id !in old(requestHolders) ==> requestHolders == old(requestHolders)
      ensures id in old(requestHolders) ==>
                var rest := Without(old(requestHolders)[id], holder);
                requestHolders == if rest == [] then old(requestHolders) - {id} else old(requestHolders)[id := rest]
    {
      if id !in requestHolders {
        return;
      }
      WithoutContents(requestHolders[id], holder);
      var holders := EraseFirst(requestHolders[id], holder);
      if holders == [] {
        requestHolders := requestHolders - {id};
      } else {
        requestHolders := requestHolders[id := holders];
      }
    }

    static method EraseFirst(holders: seq<StatusHolder>, holder: StatusHolder) returns (rest: seq<StatusHolder>)
      ensures rest == Without(holders, holder)
    {
      var i := 0;
      assert holders[0..] == holders && [] + Without(holders, holder) == Without(holders, holder);
      while i < |holders| && holders[i] != holder
        invariant i <= |holders|
        invariant Without(holders, holder) == holders[..i] + Without(holders[i..], holder)
      {
        assert holders[i..][1..] == holders[i + 1..];
        assert holders[..i + 1] == holders[..i] + [holders[i]];
        Associative(holders[..i], [holders[i]], Without(holders[i + 1..], holder));
        i := i + 1;
      }
      if i < |holders| {
        assert holders[i..][1..] == holders[i + 1..];
        return holders[..i] + holders[i + 1..];
      }
      assert holders[i..] == [] && holders[..i] + [] == holders;
      rest := holders;
    }

    method AllStatusesNotFound(id: int) returns (all: bool)
      requires Valid()
      ensures all <==> id in requestHolders && forall h | h in requestHolders[id] :: h.status == RS_NOT_FOUND
    {
      if id !in requestHolders || requestHolders[id] == [] {
        return false;
      }
      var holders := requestHolders[id];
      for i := 0 to |holders|
        invariant forall h | h in holders[..i] :: h.status == RS_NOT_FOUND
      {
        if holders[i].status != RS_NOT_FOUND {
          return false;
        }
      }
      assert holders[..|holders|] == holders;
      all := true;
    }

    method RemoveRequest(id: int)
      requires Valid()
      modifies `requestHolders
      ensures Valid() && requestHolders == old(requestHolders) - {id}
    {
      requestHolders := requestHolders - {id};
    }
  }

  // -------------------------------------------------------------------- the protocol

  // Found and Missing: something was selected, or nothing; `sends`: still started when it
  // comes to sending. Failed: the lookup or a block of the response failed. Stopped: not
  // started any more. Destroyed: the instance is gone, and with it the means to clean up.
  datatype Outcome = Found(sends: bool) | Missing(sends: bool) | Failed | Stopped | Destroyed

  datatype Phase = Unregistered | Ready | Written | Passed | Answered | Done

  // Participants are the positions of `phase`. `holders`: those tracked for the request.
  // `passed`: a check has passed; `forgotten`: the tracking of the request has been removed.
  datatype State = State(phase: seq<Phase>, status: seq<int>, holders: Option<seq<nat>>, sent: seq<int>,
                         passed: bool, forgotten: bool)

  predicate WellFormed(s: State, outcomes: seq<Outcome>) {
    |s.phase| == |s.status| == |outcomes|
  }

  function Start(outcomes: seq<Outcome>): (s: State)
    ensures WellFormed(s, outcomes)
  {
    State(seq(|outcomes|, _ => Unregistered), seq(|outcomes|, _ => RS_AWAITING_STATUS), None, [], false, false)
  }

  predicate AllNotFound(s: State) {
    s.holders.Some? && forall k | k in s.holders.value :: k < |s.status| && s.status[k] == RS_NOT_FOUND
  }

  function Leave(s: State, k: nat): State {
    if s.holders == None then s
    else
      var rest := Without(s.holders.value, k);
      s.(holders := if rest == [] then None else Some(rest))
  }

  function Forget(s: State): State {
    s.(holders := None, forgotten := true)
  }

  function At(s: State, k: nat, p: Phase): State
    requires k < |s.phase|
  {
    s.(phase := s.phase[k := p])
  }

  function Write(s: State, k: nat, code: int): State
    requires k < |s.phase| == |s.status|
  {
    At(s, k, Written).(status := s.status[k := code])
  }

  function Send(s: State, k: nat, code: int, sends: bool): State
    requires k < |s.phase|
  {
    At(s, k, Answered).(sent := if sends then s.sent + [code] else s.sent)
  }

  // The next step of participant k: registration, then its task.
  function Step(s: State, outcomes: seq<Outcome>, k: nat): (r: State)
    requires WellFormed(s, outcomes)
    ensures WellFormed(r, outcomes)
  {
    if k >= |outcomes| then s else
      match (s.phase[k], outcomes[k])
      case (Unregistered, _) =>
        At(s, k, Ready).(holders := Some((if s.holders.Some? then s.holders.value else []) + [k]))
      case (Ready, Found(_)) => Write(s, k, RS_FULL_CONTENT)
      case (Ready, Missing(_)) => Write(s, k, RS_NOT_FOUND)
      case (Ready, Failed) => Write(s, k, RS_REQUEST_FAILED)
      case (Ready, Stopped) => Leave(At(s, k, Done), k)
      case (Ready, Destroyed) => At(s, k, Done)
      case (Written, Found(sends)) => Send(s, k, RS_FULL_CONTENT, sends)
      case (Written, Missing(_)) => if AllNotFound(s) then At(s, k, Passed).(passed := true) else At(s, k, Done)
      case (Written, _) => Leave(At(s, k, Done), k)
      case (Passed, Missing(sends)) => Send(s, k, RS_NOT_FOUND, sends)
      case (Passed, _) => s
      case (Answered, _) => Forget(At(s, k, Done))
      case (Done, _) => s
  }

  function Run(outcomes: seq<Outcome>, schedule: seq<nat>): (s: State)
    ensures WellFormed(s, outcomes)
  {
    if schedule == [] then Start(outcomes)
    else
      var last := |schedule| - 1;
      Step(Run(outcomes, schedule[..last]), outcomes, schedule[last])
  }

  lemma RunSnoc(outcomes: seq<Outcome>, schedule: seq<nat>, k: nat)
    ensures Run(outcomes, schedule + [k]) == Step(Run(outcomes, schedule), outcomes, k)
  {
    assert (schedule + [k])[..|schedule|] == schedule;
  }

  // -------------------------------------------------------------- answers exclude each other

  // The two late registrations that do harm: of a participant that finds content after a
  // check has passed, and of one that finds nothing after the request was forgotten.
  predicate RegistersLate(s: State, outcomes: seq<Outcome>, k: nat) {
    k < |s.phase| == |outcomes| && s.phase[k] == Unregistered &&
    ((outcomes[k].Found? && s.passed) || (outcomes[k].Missing? && s.forgotten))
  }

  ghost predicate RegistersInTime(outcomes: seq<Outcome>, schedule: seq<nat>) {
    forall i | 0 <= i < |schedule| :: !RegistersLate(Run(outcomes, schedule[..i]), outcomes, schedule[i])
  }

  predicate Registered(s: State, k: nat) {
    k < |s.phase| && s.phase[k] != Unregistered
  }

  ghost predicate NothingFound(s: State, outcomes: seq<Outcome>)
    requires WellFormed(s, outcomes)
  {
    forall k: nat :: Registered(s, k) ==> !outcomes[k].Found?
  }

  predicate HasPassed(s: State, k: nat) {
    k < |s.phase| && (s.phase[k] == Passed || s.phase[k] == Answered)
  }

  ghost predicate NobodyPassed(s: State, outcomes: seq<Outcome>)
    requires WellFormed(s, outcomes)
  {
    RS_NOT_FOUND !in s.sent && forall k: nat :: HasPassed(s, k) ==> outcomes[k].Found?
  }

  // Whoever finds content is tracked.
  ghost predicate FindersTracked(s: State, outcomes: seq<Outcome>)
    requires WellFormed(s, outcomes)
  {
    forall k: nat :: Registered(s, k) && outcomes[k].Found? ==> s.holders.Some? && k in s.holders.value
  }

  ghost predicate HoldersSound(s: State) {
    s.holders.Some? ==>
      s.holders.value != [] && (forall k | k in s.holders.value :: Registered(s, k)) &&
      forall i, j | 0 <= i < j < |s.holders.value| :: s.holders.value[i] != s.holders.value[j]
  }

  // Who finds nothing is not tracked.
  ghost predicate MissersUntracked(s: State, outcomes: seq<Outcome>)
    requires WellFormed(s, outcomes)
  {
    s.holders.Some? ==> forall k | k in s.holders.value :: k < |outcomes| && !outcomes[k].Missing?
  }

  ghost predicate StatusSound(s: State, outcomes: seq<Outcome>)
    requires WellFormed(s, outcomes)
  {
    (forall k: nat | k < |outcomes| && s.status[k] == RS_NOT_FOUND :: outcomes[k].Missing?) &&
    forall k: nat | k < |outcomes| && outcomes[k].Found? :: s.phase[k] != Passed
  }

  // As long as no check has passed, finders are tracked until the request is forgotten, and
  // afterwards no misser is; so then no check can pass.
  ghost predicate Sound(s: State, outcomes: seq<Outcome>) {
    WellFormed(s, outcomes) && HoldersSound(s) && StatusSound(s, outcomes) &&
    (NothingFound(s, outcomes) ==> RS_FULL_CONTENT !in s.sent) &&
    (if s.passed then NothingFound(s, outcomes) else NobodyPassed(s, outcomes)) &&
    (!s.passed && !s.forgotten ==> FindersTracked(s, outcomes)) &&
    (!s.passed && s.forgotten ==> MissersUntracked(s, outcomes))
  }

  lemma RegisterIsSound(s: State, outcomes: seq<Outcome>, k: nat)
    requires Sound(s, outcomes) && k < |outcomes| && s.phase[k] == Unregistered && !RegistersLate(s, outcomes, k)
    ensures Sound(Step(s, outcomes, k), outcomes)
  {
    if s.holders.Some? {
      var hs := s.holders.value;
      assert k !in hs && forall i | 0 <= i < |hs| :: hs[i] in hs;
    }
  }

  // A check that passes has found nobody who finds content.
  lemma PassIsSound(s: State, outcomes: seq<Outcome>, k: nat)
    requires Sound(s, outcomes) && k < |outcomes| && outcomes[k].Missing? && s.phase[k] == Written && AllNotFound(s)
    ensures Sound(Step(s, outcomes, k), outcomes)
  {
    assert s.holders.value[0] in s.holders.value;
  }

  lemma LeaveIsSound(s: State, outcomes: seq<Outcome>, k: nat)
    requires Sound(s, outcomes) && k < |outcomes| && s.phase[k] != Unregistered && !outcomes[k].Found?
    ensures Sound(Leave(At(s, k, Done), k), outcomes)
  {
    if s.holders.Some? {
      WithoutContents(s.holders.value, k);
    }
  }

  lemma WriteIsSound(s: State, outcomes: seq<Outcome>, k: nat, code: int)
    requires Sound(s, outcomes) && k < |outcomes| && s.phase[k] == Ready &&
             (code == RS_NOT_FOUND ==> outcomes[k].Missing?)
    ensures Sound(Write(s, k, code), outcomes)
  {
  }

  lemma StepIsSound(s: State, outcomes: seq<Outcome>, k: nat)
    requires Sound(s, outcomes) && !RegistersLate(s, outcomes, k)
    ensures Sound(Step(s, outcomes, k), outcomes)
  {
    if k < |outcomes| {
      match (s.phase[k], outcomes[k])
      case (Unregistered, _) => RegisterIsSound(s, outcomes, k);
      case (Ready, Found(_)) => WriteIsSound(s, outcomes, k, RS_FULL_CONTENT);
      case (Ready, Missing(_)) => WriteIsSound(s, outcomes, k, RS_NOT_FOUND);
      case (Ready, Failed) => WriteIsSound(s, outcomes, k, RS_REQUEST_FAILED);
      case (Ready, Stopped) => LeaveIsSound(s, outcomes, k);
      case (Written, Missing(_)) => if AllNotFound(s) { PassIsSound(s, outcomes, k); }
      case (Written, Failed) => LeaveIsSound(s, outcomes, k);
      case (Written, Stopped) => LeaveIsSound(s, outcomes, k);
      case (Written, Destroyed) => LeaveIsSound(s, outcomes, k);
      case (_, _) =>
    }
  }

  lemma {:induction false} RunIsSound(outcomes: seq<Outcome>, schedule: seq<nat>)
    requires RegistersInTime(outcomes, schedule)
    ensures Sound(Run(outcomes, schedule), outcomes)
  {
    if schedule != [] {
      var last := |schedule| - 1;
      var init := schedule[..last];
      forall i | 0 <= i < |init| ensures !RegistersLate(Run(outcomes, init[..i]), outcomes, init[i]) {
        assert init[..i] == schedule[..i];
      }
      RunIsSound(outcomes, init);
      assert !RegistersLate(Run(outcomes, schedule[..last]), outcomes, schedule[last]);
      StepIsSound(Run(outcomes, init), outcomes, schedule[last]);
    }
  }

  // Under every interleaving, content found and content not found are never both answered,
  // unless one of the two late registrations happens.
  lemma AnswersExcludeEachOther(outcomes: seq<Outcome>, schedule: seq<nat>)
    requires RegistersInTime(outcomes, schedule)
    ensures var sent := Run(outcomes, schedule).sent; !(RS_FULL_CONTENT in sent && RS_NOT_FOUND in sent)
  {
    RunIsSound(outcomes, schedule);
  }

  // Registration of the first n participants, one after the other.
  function Everyone(n: nat): seq<nat> {
    if n == 0 then [] else Everyone(n - 1) + [n - 1]
  }

  // The state in which the first n have registered, and no task has run.
  function FirstReady(outcomes: seq<Outcome>, n: nat): (s: State)
    ensures WellFormed(s, outcomes)
  {
    State(seq(|outcomes|, i => if i < n then Ready else Unregistered), seq(|outcomes|, _ => RS_AWAITING_STATUS),
          if n == 0 then None else Some(Everyone(n)), [], false, false)
  }

  lemma {:induction false} EveryoneIs(n: nat)
    ensures |Everyone(n)| == n && forall i | 0 <= i < n :: Everyone(n)[i] == i
  {
    if n > 0 {
      EveryoneIs(n - 1);
    }
  }

  lemma NextRegisters(outcomes: seq<Outcome>, n: nat)
    requires n < |outcomes|
    ensures Step(FirstReady(outcomes, n), outcomes, n) == FirstReady(outcomes, n + 1)
  {
    var s, t := FirstReady(outcomes, n), FirstReady(outcomes, n + 1);
    assert s.phase[n := Ready] == t.phase;
    assert n == 0 ==> Everyone(1) == [] + [0];
  }

  lemma {:induction false} EveryoneRegisters(outcomes: seq<Outcome>, n: nat)
    requires n <= |outcomes|
    ensures Run(outcomes, Everyone(n)) == FirstReady(outcomes, n)
  {
    if n == 0 {
      assert Start(outcomes).phase == FirstReady(outcomes, 0).phase;
    } else {
      EveryoneRegisters(outcomes, n - 1);
      RunSnoc(outcomes, Everyone(n - 1), n - 1);
      NextRegisters(outcomes, n - 1);
    }
  }

  lemma StepStaysRegistered(s: State, outcomes: seq<Outcome>, i: nat)
    requires WellFormed(s, outcomes)
    ensures forall k: nat | Registered(s, k) :: Registered(Step(s, outcomes, i), k)
  {
  }

  // A participant that has registered never registers again.
  lemma {:induction false} AllStayRegistered(outcomes: seq<Outcome>, first: seq<nat>, rest: seq<nat>)
    requires forall k: nat | k < |outcomes| :: Registered(Run(outcomes, first), k)
    ensures forall k: nat | k < |outcomes| :: Registered(Run(outcomes, first + rest), k)
    decreases |rest|
  {
    if rest == [] {
      assert first + rest == first;
    } else {
      var init := rest[..|rest| - 1];
      var last := rest[|rest| - 1];
      AllStayRegistered(outcomes, first, init);
      assert first + rest == (first + init) + [last];
      RunSnoc(outcomes, first + init, last);
      StepStaysRegistered(Run(outcomes, first + init), outcomes, last);
    }
  }

  // In particular: if all register before any task runs.
  lemma AnswersExcludeEachOtherWhenAllRegisterFirst(outcomes: seq<Outcome>, tasks: seq<nat>)
    ensures var sent := Run(outcomes, Everyone(|outcomes|) + tasks).sent;
            !(RS_FULL_CONTENT in sent && RS_NOT_FOUND in sent)
  {
    var first := Everyone(|outcomes|);
    var all := first + tasks;
    EveryoneIs(|outcomes|);
    forall i | 0 <= i < |all| ensures !RegistersLate(Run(outcomes, all[..i]), outcomes, all[i]) {
      if i < |first| {
        EveryoneRegisters(outcomes, i);
        EveryonePrefix(|outcomes|, i);
        assert all[..i] == Everyone(i);
      } else {
        EveryoneRegisters(outcomes, |outcomes|);
        assert all[..i] == first + tasks[..i - |first|];
        AllStayRegistered(outcomes, first, tasks[..i - |first|]);
        if all[i] < |outcomes| {
          assert Registered(Run(outcomes, all[..i]), all[i]);
        }
      }
    }
    AnswersExcludeEachOther(outcomes, all);
  }

  lemma EveryonePrefix(n: nat, i: nat)
    requires i <= n
    ensures |Everyone(n)| == n && Everyone(n)[..i] == Everyone(i)
  {
    EveryoneIs(n);
    EveryoneIs(i);
  }

  predicate CanAnswer(o: Outcome) {
    o == Found(true) || o == Missing(true)
  }

  // While nobody is tracked, participant k registers and does its whole task: it answers.
  lemma AloneAnswers(outcomes: seq<Outcome>, schedule: seq<nat>, k: nat) returns (longer: seq<nat>)
    requires k < |outcomes| && CanAnswer(outcomes[k])
    requires Run(outcomes, schedule).phase[k] == Unregistered && Run(outcomes, schedule).holders == None
    ensures var s, t := Run(outcomes, schedule), Run(outcomes, longer);
            t.phase == s.phase[k := Done] && t.holders == None &&
            t.sent == s.sent + [if outcomes[k].Found? then RS_FULL_CONTENT else RS_NOT_FOUND]
  {
    var s := Run(outcomes, schedule);
    RunSnoc(outcomes, schedule, k);
    assert [] + [k] == [k];
    var ready := s.(phase := s.phase[k := Ready], holders := Some([k]));
    assert Run(outcomes, schedule + [k]) == ready;
    longer := FourTimes(schedule + [k], k);
    FourMore(outcomes, schedule + [k], longer, ready, k);
    AloneIsLast(ready, outcomes, k);
  }

  lemma AloneIsLast(s: State, outcomes: seq<Outcome>, k: nat)
    requires WellFormed(s, outcomes) && k < |outcomes| && CanAnswer(outcomes[k]) && s.holders == Some([k])
    ensures var t := Task(s, outcomes, k);
            t.phase == s.phase[k := Done] && t.holders == None &&
            t.sent == s.sent + [if outcomes[k].Found? then RS_FULL_CONTENT else RS_NOT_FOUND]
  {
    if outcomes[k].Missing? {
      assert AllNotFound(At(s, k, Done).(status := s.status[k := RS_NOT_FOUND]));
    }
  }

  // In whichever order: one answers before the other registers.
  lemma BothAnswer(outcomes: seq<Outcome>, first: nat, second: nat) returns (schedule: seq<nat>)
    requires first < |outcomes| && second < |outcomes| && outcomes[first] != outcomes[second]
    requires CanAnswer(outcomes[first]) && CanAnswer(outcomes[second])
    ensures var sent := Run(outcomes, schedule).sent; RS_FULL_CONTENT in sent && RS_NOT_FOUND in sent
  {
    schedule := AloneAnswers(outcomes, [], first);
    schedule := AloneAnswers(outcomes, schedule, second);
    var sent := Run(outcomes, schedule).sent;
    assert sent[0] in sent && sent[1] in sent;
  }

  // Answers come from participants that are in a position to give them.
  lemma {:induction false} AnswersComeFrom(outcomes: seq<Outcome>, schedule: seq<nat>)
    ensures RS_FULL_CONTENT in Run(outcomes, schedule).sent ==> Found(true) in outcomes
    ensures RS_NOT_FOUND in Run(outcomes, schedule).sent ==> Missing(true) in outcomes
  {
    if schedule != [] {
      var last := |schedule| - 1;
      AnswersComeFrom(outcomes, schedule[..last]);
      var s, k := Run(outcomes, schedule[..last]), schedule[last];
      if k < |outcomes| {
        assert outcomes[k] in outcomes;
        StepSends(s, outcomes, k);
      }
    }
  }

  lemma StepSends(s: State, outcomes: seq<Outcome>, k: nat)
    requires WellFormed(s, outcomes) && k < |outcomes|
    ensures var sent := Step(s, outcomes, k).sent;
            sent == s.sent || (sent == s.sent + [RS_FULL_CONTENT] && outcomes[k] == Found(true)) ||
            (sent == s.sent + [RS_NOT_FOUND] && outcomes[k] == Missing(true))
  {
  }

  // Without a condition on registrations both can be answered if and only if one participant
  // finds content, one finds nothing, and both are still started when they come to say so.
  lemma BothPossibleIff(outcomes: seq<Outcome>)
    ensures (exists schedule ::
               var sent := Run(outcomes, schedule).sent; RS_FULL_CONTENT in sent && RS_NOT_FOUND in sent) <==>
            Found(true) in outcomes && Missing(true) in outcomes
  {
    if schedule :| RS_FULL_CONTENT in Run(outcomes, schedule).sent && RS_NOT_FOUND in Run(outcomes, schedule).sent {
      AnswersComeFrom(outcomes, schedule);
    }
    if Found(true) in outcomes && Missing(true) in outcomes {
      var j :| 0 <= j < |outcomes| && outcomes[j] == Found(true);
      var k :| 0 <= k < |outcomes| && outcomes[k] == Missing(true);
      var schedule := BothAnswer(outcomes, k, j);
    }
  }

  // --------------------------------------------------------------------- atomic tasks

  // A whole task at once: at most four steps of the machine (TaskIsSteps).
  function Task(s: State, outcomes: seq<Outcome>, k: nat): (r: State)
    requires WellFormed(s, outcomes)
    ensures WellFormed(r, outcomes)
  {
    if k >= |outcomes| then s else
      var d := At(s, k, Done);
      match outcomes[k]
      case Found(sends) =>
        Forget(d.(status := s.status[k := RS_FULL_CONTENT],
                  sent := if sends then s.sent + [RS_FULL_CONTENT] else s.sent))
      case Missing(sends) =>
        var w := d.(status := s.status[k := RS_NOT_FOUND]);
        if AllNotFound(w)
        then Forget(w.(passed := true, sent := if sends then s.sent + [RS_NOT_FOUND] else s.sent))
        else w
      case Failed => Leave(d.(status := s.status[k := RS_REQUEST_FAILED]), k)
      case Stopped => Leave(d, k)
      case Destroyed => d
  }

  // Every participant once.
  ghost predicate IsOrder(order: seq<nat>, outcomes: seq<Outcome>) {
    |order| == |outcomes| && (forall i | 0 <= i < |order| :: order[i] < |outcomes|) &&
    forall i, j | 0 <= i < j < |order| :: order[i] != order[j]
  }

  lemma {:induction false} AtMostBelow(a: set<nat>, n: nat)
    requires forall x | x in a :: x < n
    ensures |a| <= n
  {
    if n > 0 {
      AtMostBelow(a - {n - 1}, n - 1);
    } else {
      assert a == {};
    }
  }

  // n different numbers below n are all of them.
  lemma AllBelow(a: set<nat>, n: nat, k: nat)
    requires (forall x | x in a :: x < n) && |a| == n && k < n
    ensures k in a
  {
    if k !in a {
      AtMostBelow(set x | x in a :: if x == n - 1 then k else x, n - 1);
      Renamed(a, n - 1, k);
    }
  }

  // Renaming one number to an unused one keeps the size.
  lemma Renamed(a: set<nat>, x: nat, y: nat)
    requires y !in a
    ensures |set z | z in a :: if z == x then y else z| == |a|
  {
    var b := set z | z in a :: if z == x then y else z;
    if x in a {
      assert b == a - {x} + {y};
    } else {
      assert b == a;
    }
  }

  // Whose tasks have run.
  function RanBy(order: seq<nat>, m: nat): set<nat>
    requires m <= |order|
  {
    if m == 0 then {} else RanBy(order, m - 1) + {order[m - 1]}
  }

  lemma {:induction false} RanByIs(order: seq<nat>, m: nat, k: nat)
    requires m <= |order|
    ensures k in RanBy(order, m) <==> exists i :: 0 <= i < m && order[i] == k
  {
    if m > 0 {
      RanByIs(order, m - 1, k);
      if k in RanBy(order, m) && k != order[m - 1] {
        var i :| 0 <= i < m - 1 && order[i] == k;
      }
    }
  }

  lemma {:induction false} RanBySize(order: seq<nat>, outcomes: seq<Outcome>, m: nat)
    requires IsOrder(order, outcomes) && m <= |order|
    ensures |RanBy(order, m)| == m && forall k | k in RanBy(order, m) :: k < |outcomes|
  {
    if m > 0 {
      RanBySize(order, outcomes, m - 1);
      RanByIs(order, m - 1, order[m - 1]);
    }
  }

  lemma AllRanAtTheEnd(order: seq<nat>, outcomes: seq<Outcome>, k: nat)
    requires IsOrder(order, outcomes) && k < |outcomes|
    ensures k in RanBy(order, |order|)
  {
    RanBySize(order, outcomes, |order|);
    AllBelow(RanBy(order, |order|), |outcomes|, k);
  }

  // Between the tasks of an order: the next has not run, and all have run only at the end.
  lemma OrderRuns(order: seq<nat>, outcomes: seq<Outcome>, m: nat)
    requires IsOrder(order, outcomes) && m < |order|
    ensures order[m] !in RanBy(order, m)
    ensures (forall k: nat | k < |outcomes| :: k in RanBy(order, m) || k == order[m]) <==> m == |order| - 1
  {
    RanByIs(order, m, order[m]);
    if m + 1 < |order| {
      RanByIs(order, m, order[m + 1]);
    } else {
      forall k: nat | k < |outcomes| ensures k in RanBy(order, m) || k == order[m] {
        AllRanAtTheEnd(order, outcomes, k);
      }
    }
  }

  predicate Untracked(o: Outcome) {
    o == Failed || o == Stopped
  }

  ghost predicate SomeoneFound(outcomes: seq<Outcome>, ran: set<nat>) {
    exists k :: k in ran && k < |outcomes| && outcomes[k].Found?
  }

  predicate Tracked(s: State, k: nat) {
    s.holders.Some? && k in s.holders.value
  }

  // What is true between tasks: as long as nobody found content, exactly those are tracked
  // whose tasks have not run, or have not removed them.
  ghost predicate Between(s: State, outcomes: seq<Outcome>, ran: set<nat>)
    requires WellFormed(s, outcomes)
  {
    (forall k: nat | k < |outcomes| :: s.phase[k] == if k in ran then Done else Ready) &&
    (forall k: nat | k < |outcomes| :: s.status[k] == RS_NOT_FOUND <==> k in ran && outcomes[k].Missing?) &&
    (s.holders.Some? ==>
       (forall i, j | 0 <= i < j < |s.holders.value| :: s.holders.value[i] != s.holders.value[j]) &&
       forall k | k in s.holders.value :: k < |outcomes|) &&
    (if SomeoneFound(outcomes, ran) then s.holders == None
     else forall k: nat | k < |outcomes| :: Tracked(s, k) <==> !(k in ran && Untracked(outcomes[k])))
  }

  lemma MissingIsSteps(s: State, outcomes: seq<Outcome>, k: nat)
    requires WellFormed(s, outcomes) && k < |outcomes| && s.phase[k] == Ready && outcomes[k].Missing?
    ensures Task(s, outcomes, k) == Step(Step(Step(Step(s, outcomes, k), outcomes, k), outcomes, k), outcomes, k)
  {
    var s1 := Step(s, outcomes, k);
    var s2 := Step(s1, outcomes, k);
    var s3 := Step(s2, outcomes, k);
    assert AllNotFound(s1) == AllNotFound(At(s, k, Done).(status := s.status[k := RS_NOT_FOUND]));
    if AllNotFound(s1) {
      assert s2.phase[k] == Passed && s3.phase[k] == Answered;
    } else {
      assert s2.phase[k] == Done && s3.phase[k] == Done;
    }
  }

  lemma TaskIsSteps(s: State, outcomes: seq<Outcome>, k: nat)
    requires WellFormed(s, outcomes) && k < |outcomes| && s.phase[k] == Ready
    ensures Task(s, outcomes, k) == Step(Step(Step(Step(s, outcomes, k), outcomes, k), outcomes, k), outcomes, k)
  {
    var s1 := Step(s, outcomes, k);
    var s2 := Step(s1, outcomes, k);
    match outcomes[k]
    case Found(_) => assert s1.phase[k] == Written && s2.phase[k] == Answered;
    case Missing(_) => MissingIsSteps(s, outcomes, k);
    case Failed => assert s1.phase[k] == Written && s2.phase[k] == Done;
    case Stopped => assert s1.phase[k] == Done;
    case Destroyed => assert s1.phase[k] == Done;
  }

  function Answer(s: State, outcomes: seq<Outcome>, k: nat): seq<int>
    requires WellFormed(s, outcomes) && k < |outcomes|
  {
    match outcomes[k]
    case Found(true) => [RS_FULL_CONTENT]
    case Missing(true) => if AllNotFound(s.(status := s.status[k := RS_NOT_FOUND])) then [RS_NOT_FOUND] else []
    case _ => []
  }

  lemma TaskSends(s: State, outcomes: seq<Outcome>, k: nat)
    requires WellFormed(s, outcomes) && k < |outcomes|
    ensures Task(s, outcomes, k).sent == s.sent + Answer(s, outcomes, k)
  {
    assert s.sent + [] == s.sent;
    assert outcomes[k].Missing? ==>
        AllNotFound(At(s, k, Done).(status := s.status[k := RS_NOT_FOUND])) ==
        AllNotFound(s.(status := s.status[k := RS_NOT_FOUND]));
  }

  ghost predicate CanAgreeOnNotFound(outcomes: seq<Outcome>) {
    forall k | 0 <= k < |outcomes| :: !outcomes[k].Found? && !outcomes[k].Destroyed?
  }

  // A check passes exactly when everybody else is done, and nobody found content or is gone.
  lemma PassesIff(s: State, outcomes: seq<Outcome>, ran: set<nat>, k: nat)
    requires WellFormed(s, outcomes) && Between(s, outcomes, ran)
    requires k < |outcomes| && k !in ran && outcomes[k].Missing?
    ensures AllNotFound(s.(status := s.status[k := RS_NOT_FOUND])) <==>
            (forall j: nat | j < |outcomes| :: j in ran || j == k) && CanAgreeOnNotFound(outcomes)
  {
    var w := s.(status := s.status[k := RS_NOT_FOUND]);
    if AllNotFound(w) {
      forall j: nat | j < |outcomes| ensures (j in ran || j == k) && !outcomes[j].Found? && !outcomes[j].Destroyed? {
        assert Tracked(s, j) ==> w.status[j] == RS_NOT_FOUND;
      }
    } else if (forall j: nat | j < |outcomes| :: j in ran || j == k) && CanAgreeOnNotFound(outcomes) {
      assert Tracked(s, k);
    }
  }

  lemma FoundKeepsBetween(s: State, outcomes: seq<Outcome>, ran: set<nat>, k: nat)
    requires WellFormed(s, outcomes) && Between(s, outcomes, ran) && k < |outcomes| && outcomes[k].Found?
    ensures Between(Task(s, outcomes, k), outcomes, ran + {k})
  {
    assert k in ran + {k};
  }

  lemma SomeoneFoundSame(outcomes: seq<Outcome>, ran: set<nat>, k: nat)
    requires k < |outcomes| && !outcomes[k].Found?
    ensures SomeoneFound(outcomes, ran + {k}) <==> SomeoneFound(outcomes, ran)
  {
    if SomeoneFound(outcomes, ran) {
      var j :| j in ran && j < |outcomes| && outcomes[j].Found?;
      assert j in ran + {k};
    }
  }

  lemma StayingKeepsBetween(s: State, outcomes: seq<Outcome>, ran: set<nat>, k: nat, code: int)
    requires WellFormed(s, outcomes) && Between(s, outcomes, ran) && k < |outcomes| && k !in ran
    requires outcomes[k].Missing? || outcomes[k].Destroyed?
    requires code == RS_NOT_FOUND <==> outcomes[k].Missing?
    ensures Between(At(s, k, Done).(status := s.status[k := code]), outcomes, ran + {k})
  {
    SomeoneFoundSame(outcomes, ran, k);
  }

  lemma LeavingKeepsBetween(s: State, outcomes: seq<Outcome>, ran: set<nat>, k: nat, code: int)
    requires WellFormed(s, outcomes) && Between(s, outcomes, ran) && k < |outcomes| && k !in ran
    requires Untracked(outcomes[k]) && code != RS_NOT_FOUND
    ensures Between(Leave(At(s, k, Done).(status := s.status[k := code]), k), outcomes, ran + {k})
  {
    SomeoneFoundSame(outcomes, ran, k);
    if s.holders.Some? {
      WithoutContents(s.holders.value, k);
    }
  }

  lemma TaskKeepsBetween(s: State, outcomes: seq<Outcome>, ran: set<nat>, k: nat)
    requires WellFormed(s, outcomes) && Between(s, outcomes, ran) && k < |outcomes| && k !in ran
    requires outcomes[k].Missing? ==> !AllNotFound(s.(status := s.status[k := RS_NOT_FOUND]))
    ensures Between(Task(s, outcomes, k), outcomes, ran + {k})
  {
    match outcomes[k]
    case Found(_) => FoundKeepsBetween(s, outcomes, ran, k);
    case Missing(_) => StayingKeepsBetween(s, outcomes, ran, k, RS_NOT_FOUND);
    case Failed => LeavingKeepsBetween(s, outcomes, ran, k, RS_REQUEST_FAILED);
    case Stopped =>
      assert s.status[k := s.status[k]] == s.status;
      LeavingKeepsBetween(s, outcomes, ran, k, s.status[k]);
    case Destroyed =>
      assert s.status[k := s.status[k]] == s.status;
      StayingKeepsBetween(s, outcomes, ran, k, s.status[k]);
  }

  // RS_FULL_CONTENT, once for each task among the first m that found content and could say so.
  function Positive(outcomes: seq<Outcome>, order: seq<nat>, m: nat): seq<int>
    requires m <= |order|
  {
    if m == 0 then []
    else Positive(outcomes, order, m - 1) + if IsAt(outcomes, order[m - 1], Found(true)) then [RS_FULL_CONTENT] else []
  }

  predicate IsAt(outcomes: seq<Outcome>, k: nat, o: Outcome) {
    k < |outcomes| && outcomes[k] == o
  }

  lemma AllReadyIsBetween(outcomes: seq<Outcome>)
    ensures Between(FirstReady(outcomes, |outcomes|), outcomes, {})
  {
    EveryoneIs(|outcomes|);
    forall k: nat | k < |outcomes| ensures Tracked(FirstReady(outcomes, |outcomes|), k) {
      assert Everyone(|outcomes|)[k] == k;
    }
  }

  // What task m of an order comes to send.
  ghost function Reply(outcomes: seq<Outcome>, order: seq<nat>, m: nat): seq<int>
    requires m < |order|
  {
    if IsAt(outcomes, order[m], Found(true)) then [RS_FULL_CONTENT]
    else if m == |order| - 1 && IsAt(outcomes, order[m], Missing(true)) && CanAgreeOnNotFound(outcomes) then
      [RS_NOT_FOUND]
    else []
  }

  lemma AnswerIsReply(s: State, outcomes: seq<Outcome>, order: seq<nat>, m: nat)
    requires IsOrder(order, outcomes) && m < |order| && WellFormed(s, outcomes) && Between(s, outcomes, RanBy(order, m))
    ensures Answer(s, outcomes, order[m]) == Reply(outcomes, order, m)
  {
    OrderRuns(order, outcomes, m);
    if outcomes[order[m]].Missing? {
      PassesIff(s, outcomes, RanBy(order, m), order[m]);
    }
  }

  lemma BetweenNext(s: State, outcomes: seq<Outcome>, order: seq<nat>, m: nat)
    requires IsOrder(order, outcomes) && m < |order| - 1 && WellFormed(s, outcomes) &&
             Between(s, outcomes, RanBy(order, m))
    ensures Between(Task(s, outcomes, order[m]), outcomes, RanBy(order, m + 1))
  {
    OrderRuns(order, outcomes, m);
    if outcomes[order[m]].Missing? {
      PassesIff(s, outcomes, RanBy(order, m), order[m]);
    }
    TaskKeepsBetween(s, outcomes, RanBy(order, m), order[m]);
  }

  lemma PositiveNext(outcomes: seq<Outcome>, order: seq<nat>, m: nat)
    requires m < |order|
    requires m < |order| - 1 || !IsAt(outcomes, order[m], Missing(true)) || !CanAgreeOnNotFound(outcomes)
    ensures Positive(outcomes, order, m + 1) == Positive(outcomes, order, m) + Reply(outcomes, order, m)
  {
  }

  lemma {:induction false} NobodyIsPositive(outcomes: seq<Outcome>, order: seq<nat>, m: nat)
    requires m <= |order| && CanAgreeOnNotFound(outcomes)
    ensures Positive(outcomes, order, m) == []
  {
    if m > 0 {
      NobodyIsPositive(outcomes, order, m - 1);
    }
  }

  // What has been answered after m tasks: content found, once for each who could say so; or,
  // after the last, content not found, once, exactly if nobody found content, nobody is gone,
  // and the task that happens to run last is one that found nothing.
  ghost function Answers(outcomes: seq<Outcome>, order: seq<nat>, m: nat): seq<int>
    requires m <= |order|
  {
    if 0 < m == |order| && IsAt(outcomes, order[m - 1], Missing(true)) && CanAgreeOnNotFound(outcomes)
    then [RS_NOT_FOUND] else Positive(outcomes, order, m)
  }

  lemma NextAnswer(outcomes: seq<Outcome>, order: seq<nat>, m: nat)
    requires 0 < m <= |order|
    ensures Answers(outcomes, order, m - 1) + Reply(outcomes, order, m - 1) == Answers(outcomes, order, m)
  {
    if m == |order| && IsAt(outcomes, order[m - 1], Missing(true)) && CanAgreeOnNotFound(outcomes) {
      NobodyIsPositive(outcomes, order, m - 1);
    } else {
      PositiveNext(outcomes, order, m - 1);
    }
  }

  function FourTimes(schedule: seq<nat>, k: nat): seq<nat> {
    schedule + [k] + [k] + [k] + [k]
  }

  lemma FourMore(outcomes: seq<Outcome>, schedule: seq<nat>, longer: seq<nat>, s: State, k: nat)
    requires longer == FourTimes(schedule, k)
    requires s == Run(outcomes, schedule) && k < |outcomes| && s.phase[k] == Ready
    ensures Run(outcomes, longer) == Task(s, outcomes, k)
  {
    RunSnoc(outcomes, schedule, k);
    RunSnoc(outcomes, schedule + [k], k);
    RunSnoc(outcomes, schedule + [k] + [k], k);
    RunSnoc(outcomes, schedule + [k] + [k] + [k], k);
    TaskIsSteps(s, outcomes, k);
  }

  // Everyone registers; then the first m tasks run, each with all its steps in a row.
  function Atomically(outcomes: seq<Outcome>, order: seq<nat>, m: nat): seq<nat>
    requires m <= |order|
  {
    if m == 0 then Everyone(|outcomes|) else FourTimes(Atomically(outcomes, order, m - 1), order[m - 1])
  }

  // The state that leads to.
  function AfterTasks(outcomes: seq<Outcome>, order: seq<nat>, m: nat): (s: State)
    requires m <= |order|
    ensures WellFormed(s, outcomes)
  {
    if m == 0 then FirstReady(outcomes, |outcomes|)
    else Task(AfterTasks(outcomes, order, m - 1), outcomes, order[m - 1])
  }

  lemma {:induction false} TasksKeepBetween(outcomes: seq<Outcome>, order: seq<nat>, m: nat)
    requires IsOrder(order, outcomes) && m < |order|
    ensures Between(AfterTasks(outcomes, order, m), outcomes, RanBy(order, m))
  {
    if m == 0 {
      AllReadyIsBetween(outcomes);
    } else {
      TasksKeepBetween(outcomes, order, m - 1);
      BetweenNext(AfterTasks(outcomes, order, m - 1), outcomes, order, m - 1);
    }
  }

  lemma NextIsReady(outcomes: seq<Outcome>, order: seq<nat>, m: nat)
    requires IsOrder(order, outcomes) && m < |order|
    ensures AfterTasks(outcomes, order, m).phase[order[m]] == Ready
  {
    TasksKeepBetween(outcomes, order, m);
    OrderRuns(order, outcomes, m);
  }

  lemma TaskAnswers(outcomes: seq<Outcome>, order: seq<nat>, m: nat)
    requires IsOrder(order, outcomes) && 0 < m <= |order|
    ensures AfterTasks(outcomes, order, m).sent ==
            AfterTasks(outcomes, order, m - 1).sent + Reply(outcomes, order, m - 1)
  {
    var s := AfterTasks(outcomes, order, m - 1);
    TasksKeepBetween(outcomes, order, m - 1);
    TaskSends(s, outcomes, order[m - 1]);
    AnswerIsReply(s, outcomes, order, m - 1);
  }

  lemma {:induction false} TasksAnswer(outcomes: seq<Outcome>, order: seq<nat>, m: nat)
    requires IsOrder(order, outcomes) && m <= |order|
    ensures AfterTasks(outcomes, order, m).sent == Answers(outcomes, order, m)
  {
    if m > 0 {
      TasksAnswer(outcomes, order, m - 1);
      TaskAnswers(outcomes, order, m);
      NextAnswer(outcomes, order, m);
    }
  }

  lemma AtomicNext(outcomes: seq<Outcome>, order: seq<nat>, m: nat)
    requires IsOrder(order, outcomes) && 0 < m <= |order|
    requires Run(outcomes, Atomically(outcomes, order, m - 1)) == AfterTasks(outcomes, order, m - 1)
    ensures Run(outcomes, Atomically(outcomes, order, m)) == AfterTasks(outcomes, order, m)
  {
    var k, s := order[m - 1], AfterTasks(outcomes, order, m - 1);
    NextIsReady(outcomes, order, m - 1);
    FourMore(outcomes, Atomically(outcomes, order, m - 1), Atomically(outcomes, order, m), s, k);
  }

  lemma {:induction false} AtomicRun(outcomes: seq<Outcome>, order: seq<nat>, m: nat)
    requires IsOrder(order, outcomes) && m <= |order|
    ensures Run(outcomes, Atomically(outcomes, order, m)) == AfterTasks(outcomes, order, m)
  {
    if m == 0 {
      EveryoneRegisters(outcomes, |outcomes|);
    } else {
      AtomicRun(outcomes, order, m - 1);
      AtomicNext(outcomes, order, m);
    }
  }

  // With atomic tasks, after everyone has registered.
  lemma AtomicAnswers(outcomes: seq<Outcome>, order: seq<nat>, m: nat)
    requires IsOrder(order, outcomes) && m <= |order|
    ensures Run(outcomes, Atomically(outcomes, order, m)).sent == Answers(outcomes, order, m)
  {
    AtomicRun(outcomes, order, m);
    TasksAnswer(outcomes, order, m);
  }

  // So the peer may get no answer at all although every lookup that ended found nothing:
  // it is enough that the task of an instance whose lookup failed runs last.
  lemma SilentAfterFailure(outcomes: seq<Outcome>, order: seq<nat>)
    requires IsOrder(order, outcomes) && |order| > 0
    requires outcomes[order[|order| - 1]].Failed? && CanAgreeOnNotFound(outcomes)
    ensures Run(outcomes, Atomically(outcomes, order, |order|)).sent == []
  {
    AtomicAnswers(outcomes, order, |order|);
    NobodyIsPositive(outcomes, order, |order|);
  }

  // ------------------------------------------------- the generator behind the machine

  // These holders are those of these participants.
  ghost predicate Name(parts: map<nat, StatusHolder>, ks: seq<nat>, hs: seq<StatusHolder>) {
    |ks| == |hs| && forall i | 0 <= i < |ks| :: ks[i] in parts && hs[i] == parts[ks[i]]
  }

  ghost predicate Distinct(parts: map<nat, StatusHolder>) {
    forall j, k | j in parts && k in parts && j != k :: parts[j] != parts[k]
  }

  // The generator tracks for request `id` what the state of the machine says, where
  // `parts` are the holders of the participants that have registered.
  ghost predicate Represents(g: RequestIdGenerator, id: int, parts: map<nat, StatusHolder>, s: State)
    reads g, parts.Values
  {
    |s.status| == |s.phase| && Distinct(parts) &&
    (forall k: nat :: k in parts <==> Registered(s, k)) &&
    (forall k | k in parts :: k < |s.status| && parts[k].status == s.status[k]) &&
    (id in g.requestHolders <==> s.holders.Some?) &&
    (s.holders.Some? ==> Name(parts, s.holders.value, g.requestHolders[id]))
  }

  lemma {:induction false} WithoutNames(parts: map<nat, StatusHolder>, ks: seq<nat>, hs: seq<StatusHolder>, k: nat)
    requires Distinct(parts) && Name(parts, ks, hs) && k in parts
    ensures Name(parts, Without(ks, k), Without(hs, parts[k]))
    decreases |ks|
  {
    if ks != [] {
      assert ks[0] in parts;
      assert Name(parts, ks[1..], hs[1..]);
      WithoutNames(parts, ks[1..], hs[1..], k);
    }
  }

  // registerStatus is the first step of a participant.
  method Register(g: RequestIdGenerator, id: int, ghost parts: map<nat, StatusHolder>,
                  ghost s: State, ghost outcomes: seq<Outcome>, ghost k: nat)
    returns (holder: StatusHolder, ghost more: map<nat, StatusHolder>)
    requires g.Valid() && Represents(g, id, parts, s) && WellFormed(s, outcomes)
    requires k < |outcomes| && s.phase[k] == Unregistered && s.status[k] == RS_AWAITING_STATUS
    modifies g
    ensures g.Valid() && fresh(holder) && more == parts[k := holder]
    ensures Represents(g, id, more, Step(s, outcomes, k))
  {
    holder := g.RegisterStatus(id);
    more := parts[k := holder];
  }

  // removeStatus is what a participant does that leaves.
  method RemoveOwn(g: RequestIdGenerator, id: int, holder: StatusHolder, ghost parts: map<nat, StatusHolder>,
                   ghost s: State, ghost k: nat)
    requires g.Valid() && Represents(g, id, parts, s) && k in parts && parts[k] == holder
    modifies g`requestHolders
    ensures g.Valid() && Represents(g, id, parts, Leave(s, k))
  {
    if s.holders.Some? {
      WithoutNames(parts, s.holders.value, g.requestHolders[id], k);
    }
    g.RemoveStatus(id, holder);
  }

  // allStatusesNotFound is the check of the machine.
  method Check(g: RequestIdGenerator, id: int, ghost parts: map<nat, StatusHolder>, ghost s: State) returns (all: bool)
    requires g.Valid() && Represents(g, id, parts, s)
    ensures all <==> AllNotFound(s)
  {
    all := g.AllStatusesNotFound(id);
    if s.holders.Some? {
      var hs, ks := g.requestHolders[id], s.holders.value;
      if all {
        forall k | k in ks ensures k < |s.status| && s.status[k] == RS_NOT_FOUND {
          var i :| 0 <= i < |ks| && ks[i] == k;
          assert hs[i] in hs;
        }
      } else {
        var h :| h in hs && h.status != RS_NOT_FOUND;
        var i :| 0 <= i < |hs| && hs[i] == h;
        assert ks[i] in ks;
      }
    }
  }

  method WriteStatus(g: RequestIdGenerator, id: int, holder: StatusHolder, code: int,
                     ghost parts: map<nat, StatusHolder>, ghost s: State, ghost k: nat)
    requires Represents(g, id, parts, s) && k in parts && parts[k] == holder
    modifies holder`status
    ensures Represents(g, id, parts, At(s, k, Done).(status := s.status[k := code]))
  {
    holder.status := code;
  }

  // The task that onRemoteRequest posts, run in one go, given what its lookup comes to. It
  // returns what it sends.
  method RunTask(g: RequestIdGenerator, id: int, holder: StatusHolder, outcome: Outcome,
                 ghost parts: map<nat, StatusHolder>, ghost s: State, ghost outcomes: seq<Outcome>, ghost k: nat)
    returns (sent: seq<int>)
    requires g.Valid() && WellFormed(s, outcomes) && Represents(g, id, parts, s)
    requires k in parts && parts[k] == holder && outcomes[k] == outcome
    modifies g`requestHolders, holder`status
    ensures g.Valid() && Represents(g, id, parts, Task(s, outcomes, k))
    ensures Task(s, outcomes, k).sent == s.sent + sent
  {
    sent := [];
    ghost var d := At(s, k, Done);
    match outcome {
      case Stopped =>
        RemoveOwn(g, id, holder, parts, d, k);
      case Destroyed =>
      case Failed =>
        WriteStatus(g, id, holder, RS_REQUEST_FAILED, parts, s, k);
        RemoveOwn(g, id, holder, parts, d.(status := s.status[k := RS_REQUEST_FAILED]), k);
      case Found(sends) =>
        WriteStatus(g, id, holder, RS_FULL_CONTENT, parts, s, k);
        if sends {
          sent := [RS_FULL_CONTENT];
        }
        g.RemoveRequest(id);
      case Missing(sends) =>
        WriteStatus(g, id, holder, RS_NOT_FOUND, parts, s, k);
        var all := Check(g, id, parts, d.(status := s.status[k := RS_NOT_FOUND]));
        if all {
          if sends {
            sent := [RS_NOT_FOUND];
          }
          g.RemoveRequest(id);
        }
    }
    assert s.sent + [] == s.sent;
  }
}
