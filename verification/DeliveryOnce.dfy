/** How often a message is written when its calls run beside each other: exactly as often as a
    duplicate check found its key unmarked. */
module DeliveryOnce {
  import opened Bytes
  import opened Delivery

  // ------------------------------------------------------------------------
  // The calls for one key
  // ------------------------------------------------------------------------

  const NothingYet: System := System(EmptyStore, map[])

  predicate IsFor(h: Hash, calls: map<nat, Call>, id: nat, key: Digest) {
    id in calls && DedupKey(h, calls[id].e) == key
  }

  /** The calls by dedup key. */
  function Keyed(h: Hash, calls: map<nat, Call>): map<nat, (Digest, Phase)> {
    map id | id in calls :: (DedupKey(h, calls[id].e), calls[id].phase)
  }

  function PhasesOf(keyed: map<nat, (Digest, Phase)>, key: Digest): map<nat, Phase> {
    map id | id in keyed && keyed[id].0 == key :: keyed[id].1
  }

  /** How far each call for `key` has come. */
  function Phases(h: Hash, calls: map<nat, Call>, key: Digest): map<nat, Phase> {
    PhasesOf(Keyed(h, calls), key)
  }

  /** The call is past its duplicate check and not yet answered. */
  predicate InFlight(phases: map<nat, Phase>, id: nat) {
    id in phases && phases[id] != Fresh && !phases[id].Done?
  }

  ghost predicate NoneInFlight(phases: map<nat, Phase>) {
    forall id :: !InFlight(phases, id)
  }

  /** No call for `key` meets a fault: each is a user message, its duplicate check and its mark
      take effect, no reply of its writes is lost, and the mark does not expire. */
  ghost predicate FaultFree(h: Hash, sys: System, a: Action, key: Digest) {
    match a
    case Begin(_, e) => DedupKey(h, e) == key ==> IsUserMessage(e)
    case Duplicate(id, readOk) => IsFor(h, sys.calls, id, key) ==> readOk
    case Block(_, _) => true
    case Write(id, _, _, faults) => IsFor(h, sys.calls, id, key) ==> NoReplyLost(faults)
    case Mark(id, markOk) => IsFor(h, sys.calls, id, key) ==> markOk
    case Expire(k) => k != key
  }

  /** A duplicate check for `key` meets no other call for it that is in flight and unmarked. */
  ghost predicate Apart(h: Hash, sys: System, a: Action, key: Digest) {
    a.Duplicate? && IsFor(h, sys.calls, a.id, key) && sys.calls[a.id].phase == Fresh ==>
      key in sys.store.marks || NoneInFlight(Phases(h, sys.calls, key))
  }

  /** The sender is not blocked and the write of the call lands. */
  ghost predicate Lands(h: Hash, sys: System, a: Action, key: Digest) {
    match a
    case Block(id, lookup) => IsFor(h, sys.calls, id, key) ==> lookup != Answered(true)
    case Write(id, writeUser, active, faults) =>
      IsFor(h, sys.calls, id, key) ==>
        WriteResult(writeUser, sys.calls[id].e.recipient, SelectTargets(active, sys.calls[id].e.device).0, faults).1
    case _ => true
  }

  ghost predicate FaultFreeRun(h: Hash, actions: seq<Action>, key: Digest) {
    forall i | 0 <= i < |actions| :: FaultFree(h, Run(h, NothingYet, actions[..i]), actions[i], key)
  }

  ghost predicate ApartRun(h: Hash, actions: seq<Action>, key: Digest) {
    forall i | 0 <= i < |actions| :: Apart(h, Run(h, NothingYet, actions[..i]), actions[i], key)
  }

  ghost predicate LandingRun(h: Hash, actions: seq<Action>, key: Digest) {
    forall i | 0 <= i < |actions| :: Lands(h, Run(h, NothingYet, actions[..i]), actions[i], key)
  }

  lemma FaultFreePrefix(h: Hash, actions: seq<Action>, key: Digest)
    requires FaultFreeRun(h, actions, key) && actions != []
    ensures FaultFreeRun(h, actions[..|actions| - 1], key)
  {
    var init := actions[..|actions| - 1];
    assert forall i | 0 <= i < |init| :: init[..i] == actions[..i];
  }

  lemma ApartPrefix(h: Hash, actions: seq<Action>, key: Digest)
    requires ApartRun(h, actions, key) && actions != []
    ensures ApartRun(h, actions[..|actions| - 1], key)
  {
    var init := actions[..|actions| - 1];
    assert forall i | 0 <= i < |init| :: init[..i] == actions[..i];
  }

  lemma LandingPrefix(h: Hash, actions: seq<Action>, key: Digest)
    requires LandingRun(h, actions, key) && actions != []
    ensures LandingRun(h, actions[..|actions| - 1], key)
  {
    var init := actions[..|actions| - 1];
    assert forall i | 0 <= i < |init| :: init[..i] == actions[..i];
  }

  // ------------------------------------------------------------------------
  // Calls that stay apart
  // ------------------------------------------------------------------------

  /** At most one call is in flight. While one is, the key is unmarked, and written once the
      call has stored; while none is, the key is written just when it is marked. */
  ghost predicate WritesOnce(phases: map<nat, Phase>, marked: bool, count: nat) {
    && (forall id, other | InFlight(phases, id) && InFlight(phases, other) :: id == other)
    && (forall id | InFlight(phases, id) :: !marked && count == if phases[id] == Stored then 1 else 0)
    && (NoneInFlight(phases) ==> count == if marked then 1 else 0)
    && (forall id | id in phases && phases[id] == Done(Accepted) :: marked)
  }

  /** The steps a call takes, with what they do to the key's mark and its count of writes. */
  predicate Moves(phase: Phase, marked: bool, count: nat, phase': Phase, marked': bool, count': nat) {
    match phase
    case Fresh => marked' == marked && count' == count && phase' == if marked then Done(Accepted) else Deduped
    case Deduped => marked' == marked && count' == count && (phase' == Cleared || phase' == Done(Dropped))
    case Cleared =>
      && marked' == marked
      && ((phase' == Stored && count' == count + 1) || (phase' == Done(Failed) && count' == count))
    case Stored => marked' && count' == count && phase' == Done(Accepted)
    case Done(_) => false
  }

  lemma MoveWritesOnce(
      phases: map<nat, Phase>, marked: bool, count: nat, id: nat, phase': Phase, marked': bool, count': nat)
    requires WritesOnce(phases, marked, count) && id in phases
    requires Moves(phases[id], marked, count, phase', marked', count')
    requires phases[id] == Fresh ==> marked || NoneInFlight(phases)
    ensures WritesOnce(phases[id := phase'], marked', count')
  {
    var phases' := phases[id := phase'];
    assert forall other | other != id :: InFlight(phases', other) <==> InFlight(phases, other);
    assert phases[id] != Fresh ==> InFlight(phases, id);
    assert InFlight(phases', id) <==> phase' != Fresh && !phase'.Done?;
  }

  ghost predicate UserMessages(h: Hash, sys: System, key: Digest) {
    forall id | IsFor(h, sys.calls, id, key) :: IsUserMessage(sys.calls[id].e)
  }

  ghost predicate KeyWritesOnce(h: Hash, sys: System, key: Digest) {
    && UserMessages(h, sys, key)
    && WritesOnce(Phases(h, sys.calls, key), key in sys.store.marks, CountBatches(sys.store.batches, key))
  }

  lemma PhasesOfMove(keyed: map<nat, (Digest, Phase)>, id: nat, k: Digest, phase: Phase, key: Digest)
    requires id in keyed ==> keyed[id].0 == k
    ensures PhasesOf(keyed[id := (k, phase)], key)
         == if k == key then PhasesOf(keyed, key)[id := phase] else PhasesOf(keyed, key)
  {
  }

  /** One call's phase in the view of a key. */
  lemma PhasesMove(h: Hash, calls: map<nat, Call>, id: nat, c: Call, key: Digest)
    requires id in calls ==> calls[id].e == c.e
    ensures Phases(h, calls[id := c], key)
         == if DedupKey(h, c.e) == key then Phases(h, calls, key)[id := c.phase] else Phases(h, calls, key)
  {
    assert Keyed(h, calls[id := c]) == Keyed(h, calls)[id := (DedupKey(h, c.e), c.phase)];
    PhasesOfMove(Keyed(h, calls), id, DedupKey(h, c.e), c.phase, key);
  }

  /** A step of one call, and what it does to a key. */
  lemma CallStepMoves(h: Hash, sys: System, a: Action, key: Digest)
    requires UserMessages(h, sys, key) && FaultFree(h, sys, a, key)
    requires !a.Expire? && !a.Begin? && Step(h, sys, a) != sys
    ensures var sys' := Step(h, sys, a);
            var marked, marked' := key in sys.store.marks, key in sys'.store.marks;
            var count, count' := CountBatches(sys.store.batches, key), CountBatches(sys'.store.batches, key);
            && a.id in sys.calls && a.id in sys'.calls && sys'.calls == sys.calls[a.id := sys'.calls[a.id]]
            && sys'.calls[a.id].e == sys.calls[a.id].e
            && (if IsFor(h, sys.calls, a.id, key)
                then Moves(sys.calls[a.id].phase, marked, count, sys'.calls[a.id].phase, marked', count')
                else marked' == marked && count' == count)
            && (sys.calls[a.id].phase == Fresh <==> a.Duplicate?)
  {
    var c := sys.calls[a.id];
    if a.Write? {
      WriteCounts(sys.store, a.id, DedupKey(h, c.e), c.e, a.writeUser, a.active, a.faults, key);
    }
  }

  lemma CallStepWritesOnce(h: Hash, sys: System, a: Action, key: Digest)
    requires KeyWritesOnce(h, sys, key) && FaultFree(h, sys, a, key) && Apart(h, sys, a, key)
    requires !a.Expire? && !a.Begin? && Step(h, sys, a) != sys
    ensures KeyWritesOnce(h, Step(h, sys, a), key)
  {
    CallStepMoves(h, sys, a, key);
    var sys' := Step(h, sys, a);
    PhasesMove(h, sys.calls, a.id, sys'.calls[a.id], key);
    if IsFor(h, sys.calls, a.id, key) {
      MoveWritesOnce(Phases(h, sys.calls, key), key in sys.store.marks, CountBatches(sys.store.batches, key), a.id,
                     sys'.calls[a.id].phase, key in sys'.store.marks, CountBatches(sys'.store.batches, key));
    }
  }

  lemma FreshWritesOnce(phases: map<nat, Phase>, marked: bool, count: nat, id: nat)
    requires WritesOnce(phases, marked, count) && id !in phases
    ensures WritesOnce(phases[id := Fresh], marked, count)
  {
    var phases' := phases[id := Fresh];
    forall other
      ensures InFlight(phases', other) <==> InFlight(phases, other)
    {
      assert other != id && other in phases ==> phases'[other] == phases[other];
    }
    assert NoneInFlight(phases') <==> NoneInFlight(phases);
  }

  lemma BeginWritesOnce(h: Hash, sys: System, id: nat, e: Envelope, key: Digest)
    requires KeyWritesOnce(h, sys, key) && id !in sys.calls && (DedupKey(h, e) == key ==> IsUserMessage(e))
    ensures KeyWritesOnce(h, sys.(calls := sys.calls[id := Call(e, Fresh)]), key)
  {
    PhasesMove(h, sys.calls, id, Call(e, Fresh), key);
    FreshWritesOnce(Phases(h, sys.calls, key), key in sys.store.marks, CountBatches(sys.store.batches, key), id);
  }

  lemma StepWritesOnce(h: Hash, sys: System, a: Action, key: Digest)
    requires KeyWritesOnce(h, sys, key) && FaultFree(h, sys, a, key) && Apart(h, sys, a, key)
    ensures KeyWritesOnce(h, Step(h, sys, a), key)
  {
    if Step(h, sys, a) != sys {
      if a.Begin? {
        BeginWritesOnce(h, sys, a.id, a.e, key);
      } else if !a.Expire? {
        CallStepWritesOnce(h, sys, a, key);
      }
    }
  }

  lemma {:induction false} RunWritesOnce(h: Hash, actions: seq<Action>, key: Digest)
    requires FaultFreeRun(h, actions, key) && ApartRun(h, actions, key)
    ensures KeyWritesOnce(h, Run(h, NothingYet, actions), key)
  {
    if actions != [] {
      FaultFreePrefix(h, actions, key);
      ApartPrefix(h, actions, key);
      RunWritesOnce(h, actions[..|actions| - 1], key);
      StepWritesOnce(h, Run(h, NothingYet, actions[..|actions| - 1]), actions[|actions| - 1], key);
    }
  }

  lemma CountAtMostOne(phases: map<nat, Phase>, marked: bool, count: nat)
    requires WritesOnce(phases, marked, count)
    ensures count <= 1 && ((exists id :: id in phases && phases[id] == Done(Accepted)) ==> count == 1)
  {
    if id :| InFlight(phases, id) {
    } else {
      assert NoneInFlight(phases);
    }
  }

  lemma PhaseOf(h: Hash, calls: map<nat, Call>, id: nat, key: Digest)
    requires IsFor(h, calls, id, key)
    ensures id in Phases(h, calls, key) && Phases(h, calls, key)[id] == calls[id].phase
  {
  }

  /** Among any calls for other keys, with any faults of theirs, and with senders blocked and
      writes failing: a key whose calls meet no dedup fault, expiry or lost reply, and each of
      which is checked while no other is in flight unmarked, is written at most once, and just
      once when a call for it has been accepted. */
  lemma ApartCallsWriteOnce(h: Hash, actions: seq<Action>, key: Digest)
    requires FaultFreeRun(h, actions, key) && ApartRun(h, actions, key)
    ensures var sys := Run(h, NothingYet, actions);
            && CountBatches(sys.store.batches, key) <= 1
            && (forall id | IsFor(h, sys.calls, id, key) && sys.calls[id].phase == Done(Accepted) ::
                  CountBatches(sys.store.batches, key) == 1)
  {
    RunWritesOnce(h, actions, key);
    var sys := Run(h, NothingYet, actions);
    CountAtMostOne(Phases(h, sys.calls, key), key in sys.store.marks, CountBatches(sys.store.batches, key));
    forall id | IsFor(h, sys.calls, id, key) && sys.calls[id].phase == Done(Accepted)
      ensures CountBatches(sys.store.batches, key) == 1
    {
      PhaseOf(h, sys.calls, id, key);
    }
  }

  // ------------------------------------------------------------------------
  // How often, exactly
  // ------------------------------------------------------------------------

  /** The action is a duplicate check for `key` that finds it unmarked. */
  predicate Passes(h: Hash, sys: System, a: Action, key: Digest) {
    && a.Duplicate? && IsFor(h, sys.calls, a.id, key) && sys.calls[a.id].phase == Fresh
    && key !in sys.store.marks
  }

  /** How many checks found the key unmarked. */
  function Passed(h: Hash, actions: seq<Action>, key: Digest): nat {
    if actions == [] then 0
    else
      var init := actions[..|actions| - 1];
      Passed(h, init, key) + if Passes(h, Run(h, NothingYet, init), actions[|actions| - 1], key) then 1 else 0
  }

  /** The calls that are past their check and have not written yet. */
  function Waiting(phases: map<nat, Phase>): set<nat> {
    set id | id in phases && (phases[id] == Deduped || phases[id] == Cleared)
  }

  lemma WaitingMove(phases: map<nat, Phase>, id: nat, phase': Phase)
    ensures var waits := phase' == Deduped || phase' == Cleared;
            Waiting(phases[id := phase']) == if waits then Waiting(phases) + {id} else Waiting(phases) - {id}
  {
  }

  /** Written and still to be written, together, are the checks passed. */
  ghost predicate Accounted(h: Hash, sys: System, passed: nat, key: Digest) {
    && UserMessages(h, sys, key)
    && CountBatches(sys.store.batches, key) + |Waiting(Phases(h, sys.calls, key))| == passed
  }

  lemma MoveAccounted(
      phases: map<nat, Phase>, marked: bool, count: nat, id: nat, phase': Phase, marked': bool, count': nat)
    requires id in phases && Moves(phases[id], marked, count, phase', marked', count')
    requires phase' != Done(Dropped) && phase' != Done(Failed)
    ensures count' + |Waiting(phases[id := phase'])|
         == count + |Waiting(phases)| + if phases[id] == Fresh && !marked then 1 else 0
  {
    WaitingMove(phases, id, phase');
  }

  lemma LandingMoves(h: Hash, sys: System, a: Action, key: Digest)
    requires Lands(h, sys, a, key) && !a.Expire? && !a.Begin? && Step(h, sys, a) != sys
    requires IsFor(h, sys.calls, a.id, key)
    ensures a.id in Step(h, sys, a).calls
    ensures var phase := Step(h, sys, a).calls[a.id].phase; phase != Done(Dropped) && phase != Done(Failed)
  {
  }

  lemma CallStepAccounted(h: Hash, sys: System, a: Action, passed: nat, key: Digest)
    requires Accounted(h, sys, passed, key) && FaultFree(h, sys, a, key) && Lands(h, sys, a, key)
    requires !a.Expire? && !a.Begin? && Step(h, sys, a) != sys
    ensures Accounted(h, Step(h, sys, a), passed + (if Passes(h, sys, a, key) then 1 else 0), key)
  {
    CallStepMoves(h, sys, a, key);
    var sys' := Step(h, sys, a);
    PhasesMove(h, sys.calls, a.id, sys'.calls[a.id], key);
    if IsFor(h, sys.calls, a.id, key) {
      PhaseOf(h, sys.calls, a.id, key);
      LandingMoves(h, sys, a, key);
      MoveAccounted(Phases(h, sys.calls, key), key in sys.store.marks, CountBatches(sys.store.batches, key), a.id,
                    sys'.calls[a.id].phase, key in sys'.store.marks, CountBatches(sys'.store.batches, key));
    }
  }

  lemma BeginAccounted(h: Hash, sys: System, id: nat, e: Envelope, passed: nat, key: Digest)
    requires Accounted(h, sys, passed, key) && id !in sys.calls && (DedupKey(h, e) == key ==> IsUserMessage(e))
    ensures Accounted(h, sys.(calls := sys.calls[id := Call(e, Fresh)]), passed, key)
  {
    PhasesMove(h, sys.calls, id, Call(e, Fresh), key);
    WaitingMove(Phases(h, sys.calls, key), id, Fresh);
    assert id !in Phases(h, sys.calls, key);
  }

  lemma PassingMoves(h: Hash, sys: System, a: Action, key: Digest)
    ensures Passes(h, sys, a, key) ==> Step(h, sys, a) != sys
  {
    if Passes(h, sys, a, key) {
      assert Step(h, sys, a).calls[a.id].phase == Deduped;
    }
  }

  lemma StepAccounted(h: Hash, sys: System, a: Action, passed: nat, key: Digest)
    requires Accounted(h, sys, passed, key) && FaultFree(h, sys, a, key) && Lands(h, sys, a, key)
    ensures Accounted(h, Step(h, sys, a), passed + (if Passes(h, sys, a, key) then 1 else 0), key)
  {
    PassingMoves(h, sys, a, key);
    if Step(h, sys, a) != sys {
      if a.Begin? {
        BeginAccounted(h, sys, a.id, a.e, passed, key);
      } else if !a.Expire? {
        CallStepAccounted(h, sys, a, passed, key);
      }
    }
  }

  lemma {:induction false} RunAccounted(h: Hash, actions: seq<Action>, key: Digest)
    requires FaultFreeRun(h, actions, key) && LandingRun(h, actions, key)
    ensures Accounted(h, Run(h, NothingYet, actions), Passed(h, actions, key), key)
  {
    if actions == [] {
      assert Waiting(Phases(h, NothingYet.calls, key)) == {};
    } else {
      FaultFreePrefix(h, actions, key);
      LandingPrefix(h, actions, key);
      RunAccounted(h, actions[..|actions| - 1], key);
      StepAccounted(h, Run(h, NothingYet, actions[..|actions| - 1]), actions[|actions| - 1],
                    Passed(h, actions[..|actions| - 1], key), key);
    }
  }

  lemma {:induction false} PassedGrows(h: Hash, actions: seq<Action>, i: nat, key: Digest)
    requires i <= |actions|
    ensures Passed(h, actions[..i], key) <= Passed(h, actions, key)
  {
    if i == |actions| {
      assert actions[..i] == actions;
    } else {
      assert actions[..|actions| - 1][..i] == actions[..i];
      PassedGrows(h, actions[..|actions| - 1], i, key);
    }
  }

  lemma {:induction false} RunPrefix(h: Hash, actions: seq<Action>, i: nat, key: Digest)
    requires i <= |actions| && FaultFreeRun(h, actions, key) && LandingRun(h, actions, key)
    ensures FaultFreeRun(h, actions[..i], key) && LandingRun(h, actions[..i], key)
  {
    assert forall j | 0 <= j < i :: actions[..i][..j] == actions[..j];
  }

  lemma {:induction false} WrittenIsCounted(batches: seq<Batch>, key: Digest)
    requires WrittenUnder(batches, key)
    ensures CountBatches(batches, key) > 0
  {
    var i :| 0 <= i < |batches| && batches[i].key == key && batches[i].entries != [];
    if i < |batches| - 1 {
      assert batches[..|batches| - 1][i] == batches[i];
      WrittenIsCounted(batches[..|batches| - 1], key);
    }
  }

  /** A call in flight passed its check. */
  lemma InFlightPassed(h: Hash, actions: seq<Action>, key: Digest)
    requires FaultFreeRun(h, actions, key) && LandingRun(h, actions, key)
    requires !NoneInFlight(Phases(h, Run(h, NothingYet, actions).calls, key))
    ensures Passed(h, actions, key) > 0
  {
    RunAccounted(h, actions, key);
    RunIsSafe(h, actions);
    var sys := Run(h, NothingYet, actions);
    var phases := Phases(h, sys.calls, key);
    var id :| InFlight(phases, id);
    assert IsFor(h, sys.calls, id, key) && sys.calls[id].phase == phases[id];
    if phases[id] == Stored {
      WrittenIsCounted(sys.store.batches, key);
    } else {
      assert id in Waiting(phases);
    }
  }

  /** A check that meets an unmarked call in flight is the second to pass. */
  lemma OverlapPassesTwice(h: Hash, actions: seq<Action>, i: nat, key: Digest)
    requires i < |actions| && FaultFreeRun(h, actions, key) && LandingRun(h, actions, key)
    requires !Apart(h, Run(h, NothingYet, actions[..i]), actions[i], key)
    ensures Passed(h, actions, key) >= 2
  {
    RunPrefix(h, actions, i, key);
    InFlightPassed(h, actions[..i], key);
    assert actions[..i + 1][..i] == actions[..i];
    PassedGrows(h, actions, i + 1, key);
  }

  /** Among any calls for other keys: if no call for the key meets a fault or a blocked sender,
      and all that passed their check are answered, the key is written exactly as often as a
      check found it unmarked. That is at most once if and only if each check met no other call
      for the key in flight and unmarked. */
  lemma WrittenOnceExactly(h: Hash, actions: seq<Action>, key: Digest)
    requires FaultFreeRun(h, actions, key) && LandingRun(h, actions, key)
    requires NoneInFlight(Phases(h, Run(h, NothingYet, actions).calls, key))
    ensures var count := CountBatches(Run(h, NothingYet, actions).store.batches, key);
            count == Passed(h, actions, key) && (count <= 1 <==> ApartRun(h, actions, key))
  {
    RunAccounted(h, actions, key);
    var phases := Phases(h, Run(h, NothingYet, actions).calls, key);
    assert Waiting(phases) == {} by {
      assert forall id | id in Waiting(phases) :: InFlight(phases, id);
    }
    if ApartRun(h, actions, key) {
      ApartCallsWriteOnce(h, actions, key);
    } else {
      var i :| 0 <= i < |actions| && !Apart(h, Run(h, NothingYet, actions[..i]), actions[i], key);
      OverlapPassesTwice(h, actions, i, key);
    }
  }

  // ------------------------------------------------------------------------
  // Two ways to write twice
  // ------------------------------------------------------------------------

  lemma RunLast(h: Hash, sys: System, actions: seq<Action>, a: Action)
    ensures Run(h, sys, actions + [a]) == Step(h, Run(h, sys, actions), a)
  {
    assert (actions + [a])[..|actions|] == actions;
  }

  /** A call that is past its checks writes to the recipient's stream. */
  lemma OneWrite(h: Hash, sys: System, id: nat)
    requires id in sys.calls && sys.calls[id].phase == Cleared
    ensures var sys', key := Step(h, sys, Write(id, true, [], map[])), DedupKey(h, sys.calls[id].e);
            && sys'.calls == sys.calls[id := sys.calls[id].(phase := Stored)]
            && CountBatches(sys'.store.batches, key) == CountBatches(sys.store.batches, key) + 1
  {
    var e := sys.calls[id].e;
    assert [UserStream(e.recipient)] + [] == [UserStream(e.recipient)];
    CountLast(sys.store.batches, Batch(id, DedupKey(h, e), [UserStream(e.recipient)]), DedupKey(h, e));
  }

  /** Overlap is what has to be ruled out: two calls for one message that are both checked
      before either writes, with nothing failing, write it twice. */
  lemma OverlappingCallsWriteTwice(h: Hash, e: Envelope)
    ensures var sys := Run(h, NothingYet,
                           [Begin(1, e)] + [Begin(2, e)] + [Duplicate(1, true)] + [Duplicate(2, true)] + [Block(1, Skipped)]
                           + [Block(2, Skipped)] + [Write(1, true, [], map[])] + [Write(2, true, [], map[])]);
            CountBatches(sys.store.batches, DedupKey(h, e)) == 2
  {
    var start := NothingYet;
    var t1 := [Begin(1, e)];
    RunLast(h, start, [], Begin(1, e));
    assert [] + [Begin(1, e)] == t1;
    var t2 := t1 + [Begin(2, e)];
    RunLast(h, start, t1, Begin(2, e));
    var t3 := t2 + [Duplicate(1, true)];
    RunLast(h, start, t2, Duplicate(1, true));
    var t4 := t3 + [Duplicate(2, true)];
    RunLast(h, start, t3, Duplicate(2, true));
    var t5 := t4 + [Block(1, Skipped)];
    RunLast(h, start, t4, Block(1, Skipped));
    var t6 := t5 + [Block(2, Skipped)];
    RunLast(h, start, t5, Block(2, Skipped));
    var t7 := t6 + [Write(1, true, [], map[])];
    RunLast(h, start, t6, Write(1, true, [], map[]));
    OneWrite(h, Run(h, start, t6), 1);
    RunLast(h, start, t7, Write(2, true, [], map[]));
    OneWrite(h, Run(h, start, t7), 2);
  }

  lemma RunCallsLast(h: Hash, calls: seq<(Envelope, Weather)>, e: Envelope, w: Weather)
    ensures RunCalls(h, calls + [(e, w)]).0 == Dispatch(h, RunCalls(h, calls).0, |calls|, e, w).0
  {
    assert (calls + [(e, w)])[..|calls|] == calls;
  }

  /** A call whose key is unmarked and whose mark is lost writes, and leaves the key unmarked. */
  lemma UnmarkedDispatch(h: Hash, st: Store, call: nat, e: Envelope, w: Weather)
    requires w == Weather(true, Skipped, true, [], map[], false) && DedupKey(h, e) !in st.marks
    ensures var st' := Dispatch(h, st, call, e, w).0;
            && st'.marks == st.marks
            && CountBatches(st'.batches, DedupKey(h, e)) == CountBatches(st.batches, DedupKey(h, e)) + 1
  {
    var entries := [UserStream(e.recipient)];
    assert entries + [] == entries;
    CountLast(st.batches, Batch(call, DedupKey(h, e), entries), DedupKey(h, e));
  }

  /** And so does a mark that is lost: the same message sent twice, one after the other. */
  lemma LostMarkWritesTwice(h: Hash, e: Envelope, w: Weather)
    requires w == Weather(true, Skipped, true, [], map[], false)
    ensures CountBatches(RunCalls(h, [] + [(e, w)] + [(e, w)]).0.batches, DedupKey(h, e)) == 2
  {
    RunCallsLast(h, [], e, w);
    UnmarkedDispatch(h, EmptyStore, 0, e, w);
    RunCallsLast(h, [] + [(e, w)], e, w);
    UnmarkedDispatch(h, RunCalls(h, [] + [(e, w)]).0, 1, e, w);
  }
}
