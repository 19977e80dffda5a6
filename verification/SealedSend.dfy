/** A sealed send: the delivery tag is marked before the dispatch and unmarked when the
    dispatch fails. Sends overlap, and every call to the tag cache can fail. A tag stands for
    its cache key. */
module SealedSend {
  import opened Bytes

  type Tag = Bytes

  /** What became of a call to the tag cache: answered, or the connection was lost before or
      after the script ran. */
  datatype CacheCall = Answered | LostBefore | LostAfter

  datatype Outcome =
    | Delivered // this call's dispatch answered Ok
    | Replayed  // the tag was already marked; answered as a success
    | Errored

  datatype Phase = Fresh | Dispatching | Unmarking | Done(outcome: Outcome)

  datatype Send = Send(tag: Tag, phase: Phase)

  /** Marked tags; tags whose envelope a dispatch accepted; tags an unmark failed to clear. */
  datatype State = State(marks: set<Tag>, delivered: set<Tag>, stranded: set<Tag>, sends: map<nat, Send>)

  const Start: State := State({}, {}, {}, map[])

  datatype Action =
    | Begin(id: nat, tag: Tag)
    | CheckTag(id: nat, cache: CacheCall)
    | Dispatch(id: nat, ok: bool)
    | Unmark(id: nat, cache: CacheCall)
    | Expire(tag: Tag)

  predicate In(st: State, id: nat, phase: Phase) {
    id in st.sends && st.sends[id].phase == phase
  }

  function Move(st: State, id: nat, phase: Phase): State
    requires id in st.sends
  {
    st.(sends := st.sends[id := st.sends[id].(phase := phase)])
  }

  /** The atomic check-and-mark, and what the send does with its answer. An empty tag is not
      checked; an unreachable cache lets the send go on. */
  function DoCheck(st: State, id: nat, cache: CacheCall): State
    requires id in st.sends
  {
    var tag := st.sends[id].tag;
    if tag == [] then Move(st, id, Dispatching)
    else
      match cache
      case LostBefore => Move(st, id, Dispatching)
      case LostAfter => Move(st, id, Dispatching).(marks := st.marks + {tag})
      case Answered =>
        if tag in st.marks then Move(st, id, Done(Replayed))
        else Move(st, id, Dispatching).(marks := st.marks + {tag})
  }

  function DoUnmark(st: State, id: nat, cache: CacheCall): State
    requires id in st.sends
  {
    var tag := st.sends[id].tag;
    var moved := Move(st, id, Done(Errored));
    if tag == [] then moved
    else if cache == LostBefore then moved.(stranded := st.stranded + {tag})
    else moved.(marks := st.marks - {tag})
  }

  function Step(st: State, a: Action): State {
    match a
    case Begin(id, tag) => if id in st.sends then st else st.(sends := st.sends[id := Send(tag, Fresh)])
    case CheckTag(id, cache) => if In(st, id, Fresh) then DoCheck(st, id, cache) else st
    case Dispatch(id, ok) =>
      if !In(st, id, Dispatching) then st
      else if ok then Move(st, id, Done(Delivered)).(delivered := st.delivered + {st.sends[id].tag})
      else Move(st, id, Unmarking)
    case Unmark(id, cache) => if In(st, id, Unmarking) then DoUnmark(st, id, cache) else st
    case Expire(tag) => st.(marks := st.marks - {tag})
  }

  function Run(actions: seq<Action>): State {
    if actions == [] then Start else Step(Run(actions[..|actions| - 1]), actions[|actions| - 1])
  }

  /** Send `id`, of `tag`, is between its check and its answer. */
  predicate Holds(st: State, id: nat, tag: Tag) {
    id in st.sends && (st.sends[id] == Send(tag, Dispatching) || st.sends[id] == Send(tag, Unmarking))
  }

  ghost predicate UnderWay(st: State, tag: Tag) {
    exists id :: Holds(st, id, tag)
  }

  /** Why a tag may be marked. */
  ghost predicate Explained(st: State, tag: Tag) {
    tag in st.delivered || tag in st.stranded || UnderWay(st, tag)
  }

  ghost predicate Valid(st: State) {
    && [] !in st.marks
    && (forall tag | tag in st.marks :: Explained(st, tag))
    && (forall id | In(st, id, Done(Delivered)) :: st.sends[id].tag in st.delivered)
  }

  lemma StillUnderWay(st: State, st': State, tag: Tag)
    requires UnderWay(st, tag)
    requires forall id | id in st.sends && st.sends[id].tag == tag :: id in st'.sends && st'.sends[id] == st.sends[id]
    ensures UnderWay(st', tag)
  {
    var id :| Holds(st, id, tag);
    assert Holds(st', id, tag);
  }

  lemma CheckKeeps(st: State, id: nat, cache: CacheCall)
    requires Valid(st) && In(st, id, Fresh)
    ensures Valid(DoCheck(st, id, cache))
  {
    var st' := DoCheck(st, id, cache);
    var own := st.sends[id].tag;
    forall tag | tag in st'.marks
      ensures Explained(st', tag)
    {
      if tag in st.marks && UnderWay(st, tag) {
        var other :| Holds(st, other, tag);
        assert Holds(st', other, tag);
      } else if tag !in st.marks {
        assert Holds(st', id, tag);
      }
    }
  }

  lemma DispatchKeeps(st: State, id: nat, ok: bool)
    requires Valid(st) && In(st, id, Dispatching)
    ensures Valid(Step(st, Dispatch(id, ok)))
  {
    var st' := Step(st, Dispatch(id, ok));
    var own := st.sends[id].tag;
    forall tag | tag in st'.marks
      ensures Explained(st', tag)
    {
      if tag == own {
        assert ok || Holds(st', id, tag);
      } else if UnderWay(st, tag) {
        StillUnderWay(st, st', tag);
      }
    }
  }

  lemma UnmarkKeeps(st: State, id: nat, cache: CacheCall)
    requires Valid(st) && In(st, id, Unmarking)
    ensures Valid(DoUnmark(st, id, cache))
  {
    var st' := DoUnmark(st, id, cache);
    var own := st.sends[id].tag;
    forall tag | tag in st'.marks
      ensures Explained(st', tag)
    {
      if tag != own && UnderWay(st, tag) {
        StillUnderWay(st, st', tag);
      }
    }
  }

  lemma StepKeeps(st: State, a: Action)
    requires Valid(st)
    ensures Valid(Step(st, a))
  {
    var st' := Step(st, a);
    match a
    case Begin(id, tag) =>
      if id !in st.sends {
        forall t | t in st.marks && UnderWay(st, t)
          ensures UnderWay(st', t)
        {
          StillUnderWay(st, st', t);
        }
      }
    case CheckTag(id, cache) =>
      if In(st, id, Fresh) {
        CheckKeeps(st, id, cache);
      }
    case Dispatch(id, ok) =>
      if In(st, id, Dispatching) {
        DispatchKeeps(st, id, ok);
      }
    case Unmark(id, cache) =>
      if In(st, id, Unmarking) {
        UnmarkKeeps(st, id, cache);
      }
    case Expire(tag) =>
      forall t | t in st'.marks && UnderWay(st, t)
        ensures UnderWay(st', t)
      {
        StillUnderWay(st, st', t);
      }
  }

  lemma {:induction false} RunIsValid(actions: seq<Action>)
    ensures Valid(Run(actions))
  {
    if actions != [] {
      RunIsValid(actions[..|actions| - 1]);
      StepKeeps(Run(actions[..|actions| - 1]), actions[|actions| - 1]);
    }
  }

  /** In every run, whatever overlaps and whatever fails: a send answered as a success either
      had its own dispatch accepted, or met a tag that was dispatched before, is being
      dispatched by another send at that moment, or was left behind by a failed unmark. */
  lemma SuccessIsExplained(actions: seq<Action>, id: nat, a: Action)
    requires (a.CheckTag? || a.Dispatch?) && a.id == id
    requires !In(Run(actions), id, Done(Delivered)) && !In(Run(actions), id, Done(Replayed))
    ensures In(Step(Run(actions), a), id, Done(Delivered)) ==>
              Run(actions).sends[id].tag in Step(Run(actions), a).delivered
    ensures In(Step(Run(actions), a), id, Done(Replayed)) ==> Explained(Run(actions), Run(actions).sends[id].tag)
  {
    RunIsValid(actions);
  }

  lemma RunLast(actions: seq<Action>, a: Action)
    ensures Run(actions + [a]) == Step(Run(actions), a)
  {
    assert (actions + [a])[..|actions|] == actions;
  }

  /** The overlap is real: the second of two sends of one tag is answered as a success, and
      then the first one's dispatch fails. */
  lemma OverlappingSendsCanLoseTheEnvelope(tag: Tag)
    requires tag != []
    ensures var st := Run([Begin(1, tag)] + [CheckTag(1, Answered)] + [Begin(2, tag)] + [CheckTag(2, Answered)]
                          + [Dispatch(1, false)] + [Unmark(1, Answered)]);
            In(st, 2, Done(Replayed)) && In(st, 1, Done(Errored)) && st.delivered == {}
  {
    var t1 := [Begin(1, tag)];
    RunLast([], Begin(1, tag));
    var t2 := t1 + [CheckTag(1, Answered)];
    RunLast(t1, CheckTag(1, Answered));
    var t3 := t2 + [Begin(2, tag)];
    RunLast(t2, Begin(2, tag));
    var t4 := t3 + [CheckTag(2, Answered)];
    RunLast(t3, CheckTag(2, Answered));
    var t5 := t4 + [Dispatch(1, false)];
    RunLast(t4, Dispatch(1, false));
    RunLast(t5, Unmark(1, Answered));
    assert [] + [Begin(1, tag)] == t1;
  }

  // ------------------------------------------------------------------------
  // Overlap, with a reachable cache
  // ------------------------------------------------------------------------

  /** The cache answers every check and no mark expires; an unmark may fail. */
  ghost predicate Reachable(actions: seq<Action>) {
    forall i | 0 <= i < |actions| :: (actions[i].CheckTag? ==> actions[i].cache == Answered) && !actions[i].Expire?
  }

  /** One send at a time holds a tag. A tag is held, dispatched or left by a failed unmark, and
      no two of these; in each case it is marked. */
  ghost predicate Exclusive(st: State, tag: Tag) {
    && (forall id | Holds(st, id, tag) :: tag in st.marks && tag !in st.delivered && tag !in st.stranded)
    && (forall id, other | Holds(st, id, tag) && Holds(st, other, tag) :: id == other)
    && (tag in st.delivered ==> tag in st.marks && tag !in st.stranded)
    && (tag in st.stranded ==> tag in st.marks)
  }

  /** A send that is about to be checked, or answered, holds nothing. */
  lemma CheckKeepsExclusive(st: State, id: nat, tag: Tag)
    requires Exclusive(st, tag) && tag != [] && In(st, id, Fresh)
    ensures Exclusive(DoCheck(st, id, Answered), tag)
  {
    var st' := DoCheck(st, id, Answered);
    assert forall other | other != id :: Holds(st', other, tag) <==> Holds(st, other, tag);
  }

  lemma DispatchKeepsExclusive(st: State, id: nat, ok: bool, tag: Tag)
    requires Exclusive(st, tag) && tag != [] && In(st, id, Dispatching)
    ensures Exclusive(Step(st, Dispatch(id, ok)), tag)
  {
    var st' := Step(st, Dispatch(id, ok));
    assert forall other | other != id :: Holds(st', other, tag) <==> Holds(st, other, tag);
    assert st.sends[id].tag == tag ==> Holds(st, id, tag);
  }

  lemma UnmarkKeepsExclusive(st: State, id: nat, cache: CacheCall, tag: Tag)
    requires Exclusive(st, tag) && tag != [] && In(st, id, Unmarking)
    ensures Exclusive(DoUnmark(st, id, cache), tag)
  {
    var st' := DoUnmark(st, id, cache);
    assert forall other | other != id :: Holds(st', other, tag) <==> Holds(st, other, tag);
    assert st.sends[id].tag == tag ==> Holds(st, id, tag);
  }

  lemma StepKeepsExclusive(st: State, a: Action, tag: Tag)
    requires Exclusive(st, tag) && tag != []
    requires (a.CheckTag? ==> a.cache == Answered) && !a.Expire?
    ensures Exclusive(Step(st, a), tag)
  {
    match a
    case Begin(id, t) =>
      assert forall other :: Holds(Step(st, a), other, tag) <==> Holds(st, other, tag);
    case CheckTag(id, cache) =>
      if In(st, id, Fresh) {
        CheckKeepsExclusive(st, id, tag);
      }
    case Dispatch(id, ok) =>
      if In(st, id, Dispatching) {
        DispatchKeepsExclusive(st, id, ok, tag);
      }
    case Unmark(id, cache) =>
      if In(st, id, Unmarking) {
        UnmarkKeepsExclusive(st, id, cache, tag);
      }
  }

  lemma {:induction false} RunIsExclusive(actions: seq<Action>, tag: Tag)
    requires Reachable(actions) && tag != []
    ensures Exclusive(Run(actions), tag)
  {
    if actions != [] {
      RunIsExclusive(actions[..|actions| - 1], tag);
      StepKeepsExclusive(Run(actions[..|actions| - 1]), actions[|actions| - 1], tag);
    }
  }

  /** With a cache that answers and any interleaving of sends, a tag is answered as a replay
      exactly when it is dispatched, held by another send or left by a failed unmark, and the
      answer is right (the tag's envelope was dispatched) exactly when neither of the last two. */
  lemma ReplayIsRightUnlessUnderWay(actions: seq<Action>, id: nat)
    requires Reachable(actions) && In(Run(actions), id, Fresh) && Run(actions).sends[id].tag != []
    ensures var st, tag := Run(actions), Run(actions).sends[id].tag;
            var replayed := In(Step(st, CheckTag(id, Answered)), id, Done(Replayed));
            && (replayed <==> tag in st.delivered || UnderWay(st, tag) || tag in st.stranded)
            && (replayed ==> (tag in st.delivered <==> !UnderWay(st, tag) && tag !in st.stranded))
  {
    RunIsValid(actions);
    RunIsExclusive(actions, Run(actions).sends[id].tag);
  }

  // ------------------------------------------------------------------------
  // Sends one after the other
  // ------------------------------------------------------------------------

  /** What one send meets: its two cache calls, and whether its dispatch succeeds. */
  datatype Weather = Weather(check: CacheCall, dispatchOk: bool, unmark: CacheCall)

  /** All steps of one send, with nothing in between; a step the send does not take is none. */
  function SendAll(st: State, id: nat, tag: Tag, w: Weather): State {
    var begun := Step(st, Begin(id, tag));
    var checked := Step(begun, CheckTag(id, w.check));
    var dispatched := Step(checked, Dispatch(id, w.dispatchOk));
    Step(dispatched, Unmark(id, w.unmark))
  }

  class SealedDoor {
    var st: State

    constructor ()
      ensures st == Start && Valid(st)
    {
      st := Start;
    }

    /** The source's order: check and mark, answer a replay, dispatch, unmark on failure. */
    method DispatchSealed(id: nat, tag: Tag, w: Weather) returns (outcome: Outcome)
      requires id !in st.sends
      modifies this
      ensures st == SendAll(old(st), id, tag, w)
      ensures In(st, id, Done(outcome)) && st.sends[id].tag == tag
    {
      st := st.(sends := st.sends[id := Send(tag, Fresh)]);
      ghost var begun := st;
      if tag != [] {
        match w.check {
          case Answered =>
            if tag in st.marks {
              st := Move(st, id, Done(Replayed));
              return Replayed;
            }
            st := st.(marks := st.marks + {tag});
          case LostAfter =>
            st := st.(marks := st.marks + {tag});
          case LostBefore =>
        }
      }
      st := Move(st, id, Dispatching);
      assert st == Step(begun, CheckTag(id, w.check));
      if w.dispatchOk {
        st := Move(st, id, Done(Delivered)).(delivered := st.delivered + {tag});
        return Delivered;
      }
      st := Move(st, id, Unmarking);
      ghost var failed := st;
      if tag != [] {
        if w.unmark == LostBefore {
          st := st.(stranded := st.stranded + {tag});
        } else {
          st := st.(marks := st.marks - {tag});
        }
      }
      st := Move(st, id, Done(Errored));
      assert st == Step(failed, Unmark(id, w.unmark));
      return Errored;
    }
  }

  /** The state after sends made one after the other, numbered in order. */
  function RunSends(sends: seq<(Tag, Weather)>): State {
    if sends == [] then Start
    else
      var n := |sends| - 1;
      SendAll(RunSends(sends[..n]), n, sends[n].0, sends[n].1)
  }

  /** The cache answers every check, and every unmark takes effect. */
  ghost predicate Calm(sends: seq<(Tag, Weather)>) {
    forall i | 0 <= i < |sends| :: sends[i].1.check == Answered && sends[i].1.unmark != LostBefore
  }

  /** Every send so far has been answered, every success is a dispatched tag, and so is every
      marked tag. */
  ghost predicate Settled(st: State, n: nat) {
    && (forall id | id in st.sends :: id < n && st.sends[id].phase.Done?)
    && (forall id | id in st.sends && st.sends[id].phase != Done(Errored) && st.sends[id].tag != [] ::
          st.sends[id].tag in st.delivered)
    && st.marks <= st.delivered && [] !in st.marks
  }

  /** What one send without interference comes to. */
  lemma SendAllComesTo(st: State, id: nat, tag: Tag, w: Weather)
    requires id !in st.sends
    ensures var st' := SendAll(st, id, tag, w);
            var replayed := tag != [] && w.check == Answered && tag in st.marks;
            var outcome := if replayed then Replayed else if w.dispatchOk then Delivered else Errored;
            && st'.sends == st.sends[id := Send(tag, Done(outcome))]
            && st'.delivered == (if outcome == Delivered then st.delivered + {tag} else st.delivered)
            && st'.marks == (if tag == [] || replayed then st.marks
                             else if outcome == Errored && w.unmark != LostBefore then st.marks - {tag}
                             else if w.check == LostBefore then st.marks
                             else st.marks + {tag})
            && st'.stranded == (if outcome == Errored && tag != [] && w.unmark == LostBefore
                                then st.stranded + {tag} else st.stranded)
  {
    var begun := Step(st, Begin(id, tag));
    var checked := Step(begun, CheckTag(id, w.check));
    var dispatched := Step(checked, Dispatch(id, w.dispatchOk));
    assert begun.sends == st.sends[id := Send(tag, Fresh)];
    assert checked.sends[id].phase == Done(Replayed) || checked.sends == st.sends[id := Send(tag, Dispatching)];
  }

  lemma SettledStep(st: State, n: nat, tag: Tag, w: Weather)
    requires Settled(st, n) && w.check == Answered && w.unmark != LostBefore
    ensures Settled(SendAll(st, n, tag, w), n + 1)
  {
    SendAllComesTo(st, n, tag, w);
  }

  lemma {:induction false} RunSendsSettles(sends: seq<(Tag, Weather)>)
    requires Calm(sends)
    ensures Settled(RunSends(sends), |sends|)
  {
    if sends != [] {
      var n := |sends| - 1;
      RunSendsSettles(sends[..n]);
      SettledStep(RunSends(sends[..n]), n, sends[n].0, sends[n].1);
    }
  }

  /** Sends one after the other with a reachable cache: a success answered for a non-empty tag
      means that tag's envelope was dispatched Ok, in this send or an earlier one; and a tag
      that was never dispatched Ok is dispatched again on every retry, not answered from the
      cache. */
  lemma SealedSendsInOrder(sends: seq<(Tag, Weather)>)
    requires Calm(sends) && sends != []
    ensures var n := |sends| - 1;
            var (tag, w) := sends[n];
            var st, st' := RunSends(sends[..n]), RunSends(sends);
            && n in st'.sends && st'.sends[n].tag == tag
            && (st'.sends[n].phase != Done(Errored) && tag != [] ==> tag in st'.delivered)
            && (tag !in st.delivered ==> st'.sends[n].phase == Done(if w.dispatchOk then Delivered else Errored))
  {
    var n := |sends| - 1;
    RunSendsSettles(sends[..n]);
    RunSendsSettles(sends);
    SendAllComesTo(RunSends(sends[..n]), n, sends[n].0, sends[n].1);
  }

  lemma RunSendsLast(sends: seq<(Tag, Weather)>, tag: Tag, w: Weather)
    ensures RunSends(sends + [(tag, w)]) == SendAll(RunSends(sends), |sends|, tag, w)
  {
    assert (sends + [(tag, w)])[..|sends|] == sends;
  }

  /** A failed unmark is the other way to a wrong answer: the dispatch of a tag fails, its unmark
      is lost, and the retry is answered as a success though nothing was ever dispatched. */
  lemma FailedUnmarkLosesTheRetry(tag: Tag, lost: Weather, retry: Weather)
    requires tag != [] && lost == Weather(Answered, false, LostBefore) && retry.check == Answered
    ensures var st := RunSends([] + [(tag, lost)] + [(tag, retry)]);
            1 in st.sends && st.sends[1].phase == Done(Replayed) && st.delivered == {} && !UnderWay(st, tag)
  {
    RunSendsLast([], tag, lost);
    SendAllComesTo(Start, 0, tag, lost);
    RunSendsLast([] + [(tag, lost)], tag, retry);
    SendAllComesTo(RunSends([] + [(tag, lost)]), 1, tag, retry);
  }
}
