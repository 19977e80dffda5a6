/** Limits that are read before the work and charged after it: the hourly drain counter of
    one-time keys and the ceiling on stored one-time keys. Requests overlap, so each limit
    can be passed by exactly what the overlapping requests carry. */
module Admission {
  import opened Bytes

  // ------------------------------------------------------------------------
  // Sums
  // ------------------------------------------------------------------------

  function Without<T>(s: seq<T>, i: nat): seq<T>
    requires i < |s|
  {
    s[..i] + s[i + 1..]
  }

  ghost function Sum(s: seq<nat>): nat {
    if s == [] then 0 else s[0] + Sum(s[1..])
  }

  lemma {:induction false} SumConcat(a: seq<nat>, b: seq<nat>)
    ensures Sum(a + b) == Sum(a) + Sum(b)
  {
    if a == [] {
      assert a + b == b;
    } else {
      assert (a + b)[1..] == a[1..] + b;
      SumConcat(a[1..], b);
    }
  }

  lemma SumAt(s: seq<nat>, i: nat)
    requires i < |s|
    ensures Sum(s) == Sum(s[..i]) + s[i] + Sum(s[i + 1..])
  {
    assert s == s[..i] + s[i..] && s[i..][1..] == s[i + 1..];
    SumConcat(s[..i], s[i..]);
  }

  lemma SumWithout(s: seq<nat>, i: nat)
    requires i < |s|
    ensures Sum(s) == s[i] + Sum(Without(s, i))
  {
    SumAt(s, i);
    SumConcat(s[..i], s[i + 1..]);
  }

  lemma SumUpdate(s: seq<nat>, i: nat, x: nat)
    requires i < |s|
    ensures Sum(s[i := x]) + s[i] == Sum(s) + x
  {
    SumAt(s, i);
    SumAt(s[i := x], i);
    assert s[i := x][..i] == s[..i] && s[i := x][i + 1..] == s[i + 1..];
  }

  /** `n` times `weight`. */
  ghost function Times(weight: nat, n: nat): nat {
    if n == 0 then 0 else weight + Times(weight, n - 1)
  }

  lemma {:induction false} TimesIsProduct(weight: nat, n: nat)
    ensures Times(weight, n) == weight * n
  {
    if n > 0 {
      TimesIsProduct(weight, n - 1);
    }
  }

  lemma {:induction false} TimesSum(weight: nat, m: nat, n: nat)
    ensures Times(weight, m + n) == Times(weight, m) + Times(weight, n)
  {
    if m > 0 {
      TimesSum(weight, m - 1, n);
    }
  }

  lemma {:induction false} SumBound(s: seq<nat>, weight: nat, n: nat)
    requires |s| <= n
    requires forall i | 0 <= i < |s| :: s[i] <= weight
    ensures Sum(s) <= Times(weight, n)
  {
    if s != [] {
      SumBound(s[1..], weight, n - 1);
    }
  }

  function Repeat<T>(x: T, n: nat): (s: seq<T>)
    ensures |s| == n && forall i | 0 <= i < n :: s[i] == x
  {
    if n == 0 then [] else Repeat(x, n - 1) + [x]
  }

  lemma RepeatLast<T>(x: T, n: nat)
    ensures Without(Repeat(x, n + 1), n) == Repeat(x, n)
  {
  }

  // ------------------------------------------------------------------------
  // The drain window
  // ------------------------------------------------------------------------

  /** Above this many counted fetches in an hour, a fetch gets no one-time key. */
  const DRAIN_THRESHOLD: nat := 50

  predicate DrainReached(consumed: nat) {
    consumed >= DRAIN_THRESHOLD
  }

  /** A running fetch: the one-time keys it has taken, and whether they are handed out. */
  datatype Fetch = Fetch(keys: nat, answered: bool)

  /** The counter of one user's window, the running fetches, and all the keys handed out since
      the window opened. */
  datatype Drain = Drain(count: nat, running: seq<Fetch>, handed: nat)

  datatype FetchStep =
    | Check                         // a fetch that may take keys passes the guard
    | Take(fetch: nat, keys: nat)   // it takes keys of the user's devices
    | Answer(fetch: nat)            // it hands them out
    | Fail(fetch: nat)              // or ends in an error, and its keys are lost
    | Record(fetch: nat)            // an answered fetch is counted, once, if it took any
    | Expire                        // the hour is over

  const NoFetches: Drain := Drain(0, [], 0)

  /** One step. One fetch takes at most `most` keys; no more than `overlap` fetches are between
      their check and their record. */
  function DrainStep(most: nat, overlap: nat, st: Drain, a: FetchStep): Drain {
    match a
    case Check =>
      if !DrainReached(st.count) && |st.running| < overlap then st.(running := st.running + [Fetch(0, false)]) else st
    case Take(f, keys) =>
      if f < |st.running| && !st.running[f].answered && st.running[f].keys + keys <= most
      then st.(running := st.running[f := Fetch(st.running[f].keys + keys, false)]) else st
    case Answer(f) =>
      if f < |st.running| && !st.running[f].answered
      then st.(running := st.running[f := Fetch(st.running[f].keys, true)], handed := st.handed + st.running[f].keys) else st
    case Fail(f) =>
      if f < |st.running| && !st.running[f].answered then st.(running := Without(st.running, f)) else st
    case Record(f) =>
      if f < |st.running| && st.running[f].answered
      then st.(count := st.count + (if st.running[f].keys > 0 then 1 else 0), running := Without(st.running, f)) else st
    case Expire => st.(count := 0, handed := 0)
  }

  function DrainRun(most: nat, overlap: nat, steps: seq<FetchStep>): Drain {
    if steps == [] then NoFetches
    else DrainStep(most, overlap, DrainRun(most, overlap, steps[..|steps| - 1]), steps[|steps| - 1])
  }

  /** A fetch over `devices` devices takes at most a classic and a Kyber key of each. */
  function MostKeys(devices: nat): nat {
    2 * devices
  }

  /** What a running fetch has handed out. */
  function Out(f: Fetch): nat {
    if f.answered then f.keys else 0
  }

  function Outs(running: seq<Fetch>): (outs: seq<nat>)
    ensures |outs| == |running| && forall i | 0 <= i < |outs| :: outs[i] == Out(running[i])
  {
    seq(|running|, i requires 0 <= i < |running| => Out(running[i]))
  }

  /** The counter and the running fetches stay within the threshold and the overlap, and every
      key handed out is a counted fetch's or a running one's. */
  ghost predicate DrainBounded(most: nat, overlap: nat, st: Drain) {
    && 0 < overlap && |st.running| <= overlap
    && (forall i | 0 <= i < |st.running| :: st.running[i].keys <= most)
    && st.count + |st.running| <= DRAIN_THRESHOLD - 1 + overlap
    && st.handed <= Times(most, st.count) + Sum(Outs(st.running))
  }

  lemma CheckKeeps(most: nat, overlap: nat, st: Drain)
    requires DrainBounded(most, overlap, st)
    ensures DrainBounded(most, overlap, DrainStep(most, overlap, st, Check))
  {
    assert Outs(st.running + [Fetch(0, false)]) == Outs(st.running) + [0];
    SumConcat(Outs(st.running), [0]);
  }

  lemma TakeKeeps(most: nat, overlap: nat, st: Drain, f: nat, keys: nat)
    requires DrainBounded(most, overlap, st) && f < |st.running|
    ensures DrainBounded(most, overlap, DrainStep(most, overlap, st, Take(f, keys)))
    ensures DrainBounded(most, overlap, DrainStep(most, overlap, st, Answer(f)))
  {
    var taken, answered := Fetch(st.running[f].keys + keys, false), Fetch(st.running[f].keys, true);
    assert Outs(st.running[f := taken]) == Outs(st.running)[f := 0];
    assert Outs(st.running[f := answered]) == Outs(st.running)[f := st.running[f].keys];
    SumUpdate(Outs(st.running), f, 0);
    SumUpdate(Outs(st.running), f, st.running[f].keys);
  }

  lemma RecordKeeps(most: nat, overlap: nat, st: Drain, f: nat)
    requires DrainBounded(most, overlap, st) && f < |st.running|
    ensures DrainBounded(most, overlap, DrainStep(most, overlap, st, Record(f)))
    ensures DrainBounded(most, overlap, DrainStep(most, overlap, st, Fail(f)))
  {
    assert Outs(Without(st.running, f)) == Without(Outs(st.running), f);
    SumWithout(Outs(st.running), f);
  }

  lemma DrainStepKeeps(most: nat, overlap: nat, st: Drain, a: FetchStep)
    requires DrainBounded(most, overlap, st)
    ensures DrainBounded(most, overlap, DrainStep(most, overlap, st, a))
  {
    if a.Check? {
      CheckKeeps(most, overlap, st);
    } else if !a.Expire? && a.fetch < |st.running| {
      TakeKeeps(most, overlap, st, a.fetch, if a.Take? then a.keys else 0);
      RecordKeeps(most, overlap, st, a.fetch);
    }
  }

  lemma {:induction false} DrainRunKeeps(most: nat, overlap: nat, steps: seq<FetchStep>)
    requires overlap > 0
    ensures DrainBounded(most, overlap, DrainRun(most, overlap, steps))
  {
    if steps != [] {
      DrainRunKeeps(most, overlap, steps[..|steps| - 1]);
      DrainStepKeeps(most, overlap, DrainRun(most, overlap, steps[..|steps| - 1]), steps[|steps| - 1]);
    }
  }

  /** A fetch that takes no key is not counted: while none is taken, nothing is counted or handed
      out, however many fetches there are. */
  lemma {:induction false} NothingTakenNothingCounted(most: nat, overlap: nat, steps: seq<FetchStep>)
    requires forall i | 0 <= i < |steps| && steps[i].Take? :: steps[i].keys == 0
    ensures var st := DrainRun(most, overlap, steps);
            st.count == 0 && st.handed == 0 && forall i | 0 <= i < |st.running| :: st.running[i].keys == 0
  {
    if steps != [] {
      NothingTakenNothingCounted(most, overlap, steps[..|steps| - 1]);
    }
  }

  /** With at most `k` fetches between check and record, over at most `devices` devices each, a
      window never counts more than 49 + k fetches nor hands out more than 2·devices keys for
      each of those. */
  lemma DrainUnderOverlap(devices: nat, k: nat, steps: seq<FetchStep>)
    requires k > 0
    ensures var st := DrainRun(MostKeys(devices), k, steps);
            st.count <= 49 + k && st.handed <= 2 * devices * (49 + k)
  {
    var most := MostKeys(devices);
    var st := DrainRun(most, k, steps);
    DrainRunKeeps(most, k, steps);
    SumBound(Outs(st.running), most, 49 + k - st.count);
    TimesSum(most, st.count, 49 + k - st.count);
    TimesIsProduct(most, 49 + k);
  }

  // The bound is reached: fetches one after the other up to the threshold, each taking all it
  // may, then `k` that pass their check before any of them is recorded.

  function FetchesInOrder(most: nat, n: nat): seq<FetchStep> {
    if n == 0 then []
    else FetchesInOrder(most, n - 1) + [Check] + [Take(0, most)] + [Answer(0)] + [Record(0)]
  }

  function FetchesTogether(most: nat, n: nat, k: nat): seq<FetchStep> {
    if k == 0 then FetchesInOrder(most, n)
    else FetchesTogether(most, n, k - 1) + [Check] + [Take(k - 1, most)] + [Answer(k - 1)]
  }

  /** ... and then recorded, the last one first, until `j` are left. */
  function FetchesRecorded(most: nat, n: nat, k: nat, j: nat): seq<FetchStep>
    decreases k - j
  {
    if j >= k then FetchesTogether(most, n, k) else FetchesRecorded(most, n, k, j + 1) + [Record(j)]
  }

  lemma DrainRunLast(most: nat, overlap: nat, steps: seq<FetchStep>, a: FetchStep)
    ensures DrainRun(most, overlap, steps + [a]) == DrainStep(most, overlap, DrainRun(most, overlap, steps), a)
  {
    assert (steps + [a])[..|steps|] == steps;
  }

  /** `j` fetches that have handed out all they may. */
  function Answered(most: nat, j: nat): seq<Fetch> {
    Repeat(Fetch(most, true), j)
  }

  /** One more such fetch, with `j` running. */
  lemma CheckAndAnswer(most: nat, k: nat, n: nat, j: nat, handed: nat, t: seq<FetchStep>)
    requires n < DRAIN_THRESHOLD && j < k
    requires DrainRun(most, k, t) == Drain(n, Answered(most, j), handed)
    ensures DrainRun(most, k, t + [Check] + [Take(j, most)] + [Answer(j)]) == Drain(n, Answered(most, j + 1), handed + most)
  {
    var before := Answered(most, j);
    DrainRunLast(most, k, t, Check);
    DrainRunLast(most, k, t + [Check], Take(j, most));
    assert (before + [Fetch(0, false)])[j := Fetch(most, false)] == before + [Fetch(most, false)];
    DrainRunLast(most, k, t + [Check] + [Take(j, most)], Answer(j));
    assert (before + [Fetch(most, false)])[j := Fetch(most, true)] == before + [Fetch(most, true)];
  }

  lemma RecordLast(most: nat, k: nat, n: nat, j: nat, handed: nat, t: seq<FetchStep>)
    requires most > 0 && DrainRun(most, k, t) == Drain(n, Answered(most, j + 1), handed)
    ensures DrainRun(most, k, t + [Record(j)]) == Drain(n + 1, Answered(most, j), handed)
  {
    DrainRunLast(most, k, t, Record(j));
    RepeatLast(Fetch(most, true), j);
  }

  lemma {:induction false} InOrderCounts(most: nat, k: nat, n: nat)
    requires most > 0 && k > 0 && n <= DRAIN_THRESHOLD
    ensures DrainRun(most, k, FetchesInOrder(most, n)) == Drain(n, Answered(most, 0), Times(most, n))
  {
    if n > 0 {
      var t := FetchesInOrder(most, n - 1);
      InOrderCounts(most, k, n - 1);
      CheckAndAnswer(most, k, n - 1, 0, Times(most, n - 1), t);
      RecordLast(most, k, n - 1, 0, Times(most, n), t + [Check] + [Take(0, most)] + [Answer(0)]);
    }
  }

  lemma {:induction false} TogetherHand(most: nat, k: nat, n: nat, j: nat)
    requires most > 0 && 0 < k && j <= k && n < DRAIN_THRESHOLD
    ensures DrainRun(most, k, FetchesTogether(most, n, j)) == Drain(n, Answered(most, j), Times(most, n + j))
  {
    if j == 0 {
      InOrderCounts(most, k, n);
    } else {
      TogetherHand(most, k, n, j - 1);
      CheckAndAnswer(most, k, n, j - 1, Times(most, n + j - 1), FetchesTogether(most, n, j - 1));
    }
  }

  lemma {:induction false} RecordedCount(most: nat, k: nat, n: nat, j: nat)
    requires most > 0 && 0 < k && j <= k && n < DRAIN_THRESHOLD
    ensures DrainRun(most, k, FetchesRecorded(most, n, k, j)) == Drain(n + k - j, Answered(most, j), Times(most, n + k))
    decreases k - j
  {
    if j == k {
      TogetherHand(most, k, n, k);
    } else {
      RecordedCount(most, k, n, j + 1);
      RecordLast(most, k, n + k - (j + 1), j, Times(most, n + k), FetchesRecorded(most, n, k, j + 1));
    }
  }

  /** For every `devices` and `k` some run counts 49 + k fetches and hands out 2·devices keys for
      each; already with no overlap, 50 fetches in a row hand out 100 keys of a user with one
      device. */
  lemma DrainBoundIsReached(devices: nat, k: nat, n: nat)
    requires devices > 0 && k > 0 && n == DRAIN_THRESHOLD - 1
    ensures var most := MostKeys(devices);
            var st := DrainRun(most, k, FetchesRecorded(most, n, k, 0));
            st.count == 49 + k && st.handed == 2 * devices * (49 + k)
  {
    RecordedCount(MostKeys(devices), k, n, 0);
    TimesIsProduct(MostKeys(devices), n + k);
  }

  // ------------------------------------------------------------------------
  // The ceiling on stored one-time keys
  // ------------------------------------------------------------------------

  const MAX_PREKEYS_PER_UPLOAD: nat := 200
  const MAX_STORED_PREKEYS: nat := 1000

  datatype UploadRefusal = TooManyInRequest | TooManyStored

  /** The refusal of an upload given what the device holds, if any. A replacing upload
      retires what it holds first. */
  function UploadAllowed(heldClassic: nat, heldKyber: nat, newClassic: nat, newKyber: nat, replace: bool)
    : Option<UploadRefusal>
  {
    if newClassic > MAX_PREKEYS_PER_UPLOAD || newKyber > MAX_PREKEYS_PER_UPLOAD then Some(TooManyInRequest)
    else
      var (hc, hk) := if replace then (0, 0) else (heldClassic, heldKyber);
      if hc + newClassic > MAX_STORED_PREKEYS || hk + newKyber > MAX_STORED_PREKEYS then Some(TooManyStored)
      else None
  }

  /** What the guard asks of one kind of key. */
  predicate KindAllowed(held: nat, added: nat, replace: bool) {
    added <= MAX_PREKEYS_PER_UPLOAD && (if replace then 0 else held) + added <= MAX_STORED_PREKEYS
  }

  /** The guard asks the same of each kind, apart from the other: at most 200 new keys, and with
      what is held, unless that is replaced, at most 1000. More than 200 is the first complaint. */
  lemma GuardIsPerKind(heldClassic: nat, heldKyber: nat, newClassic: nat, newKyber: nat, replace: bool)
    ensures var r := UploadAllowed(heldClassic, heldKyber, newClassic, newKyber, replace);
            && (r.None? <==> KindAllowed(heldClassic, newClassic, replace) && KindAllowed(heldKyber, newKyber, replace))
            && (r == Some(TooManyInRequest) <==> newClassic > 200 || newKyber > 200)
    ensures KindAllowed(heldClassic, newClassic, replace) <==>
            newClassic <= 200 && (replace || heldClassic + newClassic <= 1000)
  {
  }

  /** A running upload: how many keys it has still to insert, and whether it has still to retire
      what the device holds. */
  datatype Upload = Upload(left: nat, retiring: bool)

  /** The device's active keys of one kind, and its running uploads. */
  datatype Shelf = Shelf(active: nat, running: seq<Upload>)

  datatype UploadStep =
    | Admit(amount: nat, replace: bool)              // the guard lets an upload through
    | Retire(upload: nat)                            // a replacing one retires what is held
    | Insert(upload: nat, keys: nat, stored: nat)    // inserts keys; an id that is held stores none
    | Finish(upload: nat)
    | Consume(left: nat)                             // fetches take keys

  function UploadStepOf(overlap: nat, st: Shelf, a: UploadStep): Shelf {
    match a
    case Admit(amount, replace) =>
      if KindAllowed(st.active, amount, replace) && |st.running| < overlap
      then st.(running := st.running + [Upload(amount, replace)]) else st
    case Retire(u) =>
      if u < |st.running| && st.running[u].retiring
      then Shelf(0, st.running[u := st.running[u].(retiring := false)]) else st
    case Insert(u, keys, stored) =>
      if u < |st.running| && !st.running[u].retiring && stored <= keys <= st.running[u].left
      then Shelf(st.active + stored, st.running[u := Upload(st.running[u].left - keys, false)]) else st
    case Finish(u) => if u < |st.running| then st.(running := Without(st.running, u)) else st
    case Consume(left) => if left <= st.active then st.(active := left) else st
  }

  /** A run for a device that starts with `held` active keys. */
  function UploadRun(overlap: nat, held: nat, steps: seq<UploadStep>): Shelf {
    if steps == [] then Shelf(held, [])
    else UploadStepOf(overlap, UploadRun(overlap, held, steps[..|steps| - 1]), steps[|steps| - 1])
  }

  /** What each running upload can still add to what is active: one that has yet to retire adds
      nothing to it. */
  function Due(u: Upload): nat {
    if u.retiring then 0 else u.left
  }

  function Dues(running: seq<Upload>): (dues: seq<nat>)
    ensures |dues| == |running| && forall i | 0 <= i < |dues| :: dues[i] == Due(running[i])
  {
    seq(|running|, i requires 0 <= i < |running| => Due(running[i]))
  }

  /** `bound` is at least what overlapping uploads can reach. */
  ghost predicate ShelfBounded(overlap: nat, bound: nat, st: Shelf) {
    && 0 < overlap && |st.running| <= overlap
    && MAX_STORED_PREKEYS + Times(MAX_PREKEYS_PER_UPLOAD, overlap - 1) <= bound
    && (forall i | 0 <= i < |st.running| :: st.running[i].left <= MAX_PREKEYS_PER_UPLOAD)
    && st.active + Sum(Dues(st.running)) <= bound
  }

  lemma AdmitKeeps(overlap: nat, bound: nat, st: Shelf, amount: nat, replace: bool)
    requires ShelfBounded(overlap, bound, st)
    ensures ShelfBounded(overlap, bound, UploadStepOf(overlap, st, Admit(amount, replace)))
  {
    if KindAllowed(st.active, amount, replace) && |st.running| < overlap {
      var u := Upload(amount, replace);
      assert Dues(st.running + [u]) == Dues(st.running) + [Due(u)];
      SumConcat(Dues(st.running), [Due(u)]);
      SumBound(Dues(st.running), MAX_PREKEYS_PER_UPLOAD, overlap - 1);
    }
  }

  lemma RetireKeeps(overlap: nat, bound: nat, st: Shelf, u: nat)
    requires ShelfBounded(overlap, bound, st)
    ensures ShelfBounded(overlap, bound, UploadStepOf(overlap, st, Retire(u)))
  {
    if u < |st.running| && st.running[u].retiring {
      SumBound(Dues(st.running[u := st.running[u].(retiring := false)]), MAX_PREKEYS_PER_UPLOAD, overlap);
    }
  }

  lemma InsertKeeps(overlap: nat, bound: nat, st: Shelf, u: nat, keys: nat, stored: nat)
    requires ShelfBounded(overlap, bound, st)
    ensures ShelfBounded(overlap, bound, UploadStepOf(overlap, st, Insert(u, keys, stored)))
  {
    if u < |st.running| && !st.running[u].retiring && stored <= keys <= st.running[u].left {
      var left := st.running[u].left - keys;
      assert Dues(st.running[u := Upload(left, false)]) == Dues(st.running)[u := left];
      SumUpdate(Dues(st.running), u, left);
    }
  }

  lemma FinishKeeps(overlap: nat, bound: nat, st: Shelf, u: nat)
    requires ShelfBounded(overlap, bound, st)
    ensures ShelfBounded(overlap, bound, UploadStepOf(overlap, st, Finish(u)))
  {
    if u < |st.running| {
      assert Dues(Without(st.running, u)) == Without(Dues(st.running), u);
      SumWithout(Dues(st.running), u);
    }
  }

  lemma UploadStepKeeps(overlap: nat, bound: nat, st: Shelf, a: UploadStep)
    requires ShelfBounded(overlap, bound, st)
    ensures ShelfBounded(overlap, bound, UploadStepOf(overlap, st, a))
  {
    match a
    case Admit(amount, replace) => AdmitKeeps(overlap, bound, st, amount, replace);
    case Retire(u) => RetireKeeps(overlap, bound, st, u);
    case Insert(u, keys, stored) =>
      InsertKeeps(overlap, bound, st, u, keys, stored);
    case Finish(u) => FinishKeeps(overlap, bound, st, u);
    case Consume(left) =>
  }

  lemma {:induction false} UploadRunKeeps(overlap: nat, bound: nat, held: nat, steps: seq<UploadStep>)
    requires overlap > 0 && held <= bound
    requires MAX_STORED_PREKEYS + Times(MAX_PREKEYS_PER_UPLOAD, overlap - 1) <= bound
    ensures ShelfBounded(overlap, bound, UploadRun(overlap, held, steps))
  {
    if steps != [] {
      UploadRunKeeps(overlap, bound, held, steps[..|steps| - 1]);
      UploadStepKeeps(overlap, bound, UploadRun(overlap, held, steps[..|steps| - 1]), steps[|steps| - 1]);
    }
  }

  /** With at most `k` uploads under way, replacing ones among them, a device never holds more
      active keys of a kind than it started with or, if that is more, 1000 and 200 for each
      further upload. */
  lemma UploadsUnderOverlap(k: nat, held: nat, steps: seq<UploadStep>)
    requires k > 0
    ensures var most := 1000 + 200 * (k - 1);
            UploadRun(k, held, steps).active <= if held > most then held else most
  {
    var most := 1000 + 200 * (k - 1);
    TimesIsProduct(200, k - 1);
    UploadRunKeeps(k, if held > most then held else most, held, steps);
  }

  /** A replacing upload that meets no other leaves exactly the keys it stored, whatever was held. */
  lemma ReplaceLeavesItsKeys(k: nat, held: nat, amount: nat, stored: nat)
    requires k > 0 && stored <= amount <= 200
    ensures UploadRun(k, held, [] + [Admit(amount, true)] + [Retire(0)] + [Insert(0, amount, stored)] + [Finish(0)])
         == Shelf(stored, [])
  {
    var t1 := [] + [Admit(amount, true)];
    var t2 := t1 + [Retire(0)];
    var t3 := t2 + [Insert(0, amount, stored)];
    UploadRunLast(k, held, [], Admit(amount, true));
    UploadRunLast(k, held, t1, Retire(0));
    UploadRunLast(k, held, t2, Insert(0, amount, stored));
    UploadRunLast(k, held, t3, Finish(0));
  }

  // The bound is reached: full uploads one after the other, then `k` that are all let through
  // before any of them inserts.

  function UploadsInOrder(n: nat): seq<UploadStep> {
    if n == 0 then [] else UploadsInOrder(n - 1) + [Admit(200, false)] + [Insert(0, 200, 200)] + [Finish(0)]
  }

  function UploadsTogether(n: nat, k: nat): seq<UploadStep> {
    if k == 0 then UploadsInOrder(n) else UploadsTogether(n, k - 1) + [Admit(200, false)]
  }

  function UploadsInserted(n: nat, k: nat, j: nat): seq<UploadStep>
    decreases k - j
  {
    if j >= k then UploadsTogether(n, k) else UploadsInserted(n, k, j + 1) + [Insert(j, 200, 200)] + [Finish(j)]
  }

  lemma UploadRunLast(overlap: nat, held: nat, steps: seq<UploadStep>, a: UploadStep)
    ensures UploadRun(overlap, held, steps + [a]) == UploadStepOf(overlap, UploadRun(overlap, held, steps), a)
  {
    assert (steps + [a])[..|steps|] == steps;
  }

  const FullUpload: Upload := Upload(200, false)

  lemma AdmitFull(k: nat, active: nat, j: nat, t: seq<UploadStep>)
    requires active <= 800 && j < k
    requires UploadRun(k, 0, t) == Shelf(active, Repeat(FullUpload, j))
    ensures UploadRun(k, 0, t + [Admit(200, false)]) == Shelf(active, Repeat(FullUpload, j + 1))
  {
    UploadRunLast(k, 0, t, Admit(200, false));
  }

  lemma InsertFull(k: nat, active: nat, j: nat, t: seq<UploadStep>)
    requires UploadRun(k, 0, t) == Shelf(active, Repeat(FullUpload, j + 1))
    ensures UploadRun(k, 0, t + [Insert(j, 200, 200)] + [Finish(j)]) == Shelf(active + 200, Repeat(FullUpload, j))
  {
    UploadRunLast(k, 0, t, Insert(j, 200, 200));
    UploadRunLast(k, 0, t + [Insert(j, 200, 200)], Finish(j));
    assert Without(Repeat(FullUpload, j + 1)[j := Upload(0, false)], j) == Repeat(FullUpload, j);
  }

  lemma {:induction false} UploadsInOrderFill(k: nat, n: nat)
    requires k > 0 && n <= 5
    ensures UploadRun(k, 0, UploadsInOrder(n)) == Shelf(200 * n, Repeat(FullUpload, 0))
  {
    if n > 0 {
      var t := UploadsInOrder(n - 1);
      UploadsInOrderFill(k, n - 1);
      AdmitFull(k, 200 * (n - 1), 0, t);
      InsertFull(k, 200 * (n - 1), 0, t + [Admit(200, false)]);
    }
  }

  lemma {:induction false} UploadsTogetherWait(k: nat, n: nat, j: nat)
    requires 0 < k && j <= k && n <= 4
    ensures UploadRun(k, 0, UploadsTogether(n, j)) == Shelf(200 * n, Repeat(FullUpload, j))
  {
    if j == 0 {
      UploadsInOrderFill(k, n);
    } else {
      UploadsTogetherWait(k, n, j - 1);
      AdmitFull(k, 200 * n, j - 1, UploadsTogether(n, j - 1));
    }
  }

  lemma {:induction false} UploadsInsertedFill(k: nat, n: nat, j: nat)
    requires 0 < k && j <= k && n <= 4
    ensures UploadRun(k, 0, UploadsInserted(n, k, j)) == Shelf(200 * (n + k - j), Repeat(FullUpload, j))
    decreases k - j
  {
    if j == k {
      UploadsTogetherWait(k, n, k);
    } else {
      UploadsInsertedFill(k, n, j + 1);
      InsertFull(k, 200 * (n + k - (j + 1)), j, UploadsInserted(n, k, j + 1));
    }
  }

  /** For every `k` some run that starts with no keys and has `k` overlapping uploads stores 1000 + 200(k - 1) active keys. */
  lemma UploadBoundIsReached(k: nat, n: nat)
    requires k > 0 && n == 4
    ensures UploadRun(k, 0, UploadsInserted(n, k, 0)).active == 1000 + 200 * (k - 1)
  {
    UploadsInsertedFill(k, n, 0);
  }
}
