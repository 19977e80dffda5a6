/** The two pools of one-time pre-keys (classic and Kyber): upload, replacing upload, fetch
    under row locks, and the sweep, over every interleaving of their statements. */
module OneTimeKeys {
  import opened Bytes

  type DeviceId = string

  /** One inserted one-time key. `signed` is what the device signed alongside a Kyber key. */
  datatype OneTimeKey = OneTimeKey(keyId: nat, publicKey: Bytes, signed: Bytes)

  /** A row of the table. A row is expired when it has an expiry time. */
  datatype Row = Row(device: DeviceId, key: OneTimeKey, uploadedAt: nat, expiredAt: Option<nat>)

  /** A consumed classic row is deleted; a consumed Kyber row is marked expired. */
  datatype Kind = Classic | Kyber

  datatype Handout = Handout(fetch: nat, serial: nat, device: DeviceId, key: OneTimeKey)

  /** A table with the history of its rows. A row is named by its serial number, the order of
      its insertion, because a key id may come back after its row is gone. `locks` holds the
      row each running fetch has selected. */
  datatype Pool = Pool(
    kind: Kind,
    rows: map<nat, Row>,
    locks: map<nat, nat>,
    clock: nat,
    inserted: seq<(DeviceId, OneTimeKey)>,
    handed: seq<Handout>,
    deleted: set<nat>,
    retired: set<nat>,
    swept: set<nat>)

  /** One statement (or half of a fetching statement, which locks its row before it takes it). */
  datatype Action =
    | Insert(device: DeviceId, key: OneTimeKey)
    | Retire(device: DeviceId)
    | BeginFetch(fetch: nat, device: DeviceId, serial: nat)
    | FinishFetch(fetch: nat)
    | AbortFetch(fetch: nat)
    | Sweep
    | Advance(now: nat)

  const RETENTION_SECS: nat := 48 * 3600

  function EmptyPool(kind: Kind): Pool {
    Pool(kind, map[], map[], 0, [], [], {}, {}, {})
  }

  predicate Active(p: Pool, device: DeviceId, s: nat) {
    s in p.rows && p.rows[s].device == device && p.rows[s].expiredAt.None?
  }

  /** A row the SKIP LOCKED subquery may return. */
  predicate Eligible(p: Pool, device: DeviceId, s: nat) {
    Active(p, device, s) && s !in p.locks.Values
  }

  /** ... ORDER BY uploaded_at ASC LIMIT 1 */
  predicate Selectable(p: Pool, device: DeviceId, s: nat) {
    && Eligible(p, device, s)
    && forall s' | s' in p.rows && Eligible(p, device, s') :: p.rows[s].uploadedAt <= p.rows[s'].uploadedAt
  }

  predicate Conflicts(p: Pool, device: DeviceId, keyId: nat) {
    exists s | s in p.rows :: p.rows[s].device == device && p.rows[s].key.keyId == keyId
  }

  predicate Sweepable(p: Pool, s: nat) {
    s in p.rows && p.rows[s].expiredAt.Some? && p.rows[s].expiredAt.value + RETENTION_SECS < p.clock
  }

  function DoInsert(p: Pool, device: DeviceId, key: OneTimeKey): Pool {
    if Conflicts(p, device, key.keyId) then p
    else p.(rows := p.rows[|p.inserted| := Row(device, key, p.clock, None)],
            inserted := p.inserted + [(device, key)])
  }

  /** Expires every active row of the device. */
  function DoRetire(p: Pool, device: DeviceId): Pool {
    p.(rows := map s | s in p.rows ::
                 if Active(p, device, s) then p.rows[s].(expiredAt := Some(p.clock)) else p.rows[s],
       retired := p.retired + set s | s in p.rows && Active(p, device, s))
  }

  function DoFinish(p: Pool, fetch: nat): Pool
    requires fetch in p.locks && p.locks[fetch] in p.rows
  {
    var s := p.locks[fetch];
    var row := p.rows[s];
    var taken := p.(locks := p.locks - {fetch}, handed := p.handed + [Handout(fetch, s, row.device, row.key)]);
    match p.kind
    case Classic => taken.(rows := p.rows - {s}, deleted := p.deleted + {s})
    case Kyber => taken.(rows := p.rows[s := row.(expiredAt := Some(p.clock))])
  }

  function DoSweep(p: Pool): Pool {
    var gone := set s | s in p.rows && Sweepable(p, s);
    p.(rows := p.rows - gone, swept := p.swept + gone)
  }

  /** One step of a run; a step that is not enabled waits, so it changes nothing. A retiring
      update waits for a locked row of its device. */
  function Step(p: Pool, a: Action): Pool {
    match a
    case Insert(device, key) => DoInsert(p, device, key)
    case Retire(device) =>
      if exists s | s in p.rows :: Active(p, device, s) && s in p.locks.Values then p else DoRetire(p, device)
    case BeginFetch(fetch, device, s) =>
      if fetch !in p.locks && Selectable(p, device, s) then p.(locks := p.locks[fetch := s]) else p
    case FinishFetch(fetch) => if fetch in p.locks && p.locks[fetch] in p.rows then DoFinish(p, fetch) else p
    case AbortFetch(fetch) => p.(locks := p.locks - {fetch})
    case Sweep => DoSweep(p)
    case Advance(now) => if now >= p.clock then p.(clock := now) else p
  }

  function Run(p: Pool, actions: seq<Action>): Pool {
    if actions == [] then p else Step(Run(p, actions[..|actions| - 1]), actions[|actions| - 1])
  }

  // ------------------------------------------------------------------------
  // The invariant
  // ------------------------------------------------------------------------

  /** Every inserted row is in exactly one place. */
  ghost predicate Partitioned(p: Pool) {
    && (forall s | s in p.rows :: s < |p.inserted| && s !in p.deleted && s !in p.swept)
    && (forall s | s in p.deleted :: s < |p.inserted| && s !in p.swept)
    && (forall s | s in p.swept :: s < |p.inserted|)
    && (forall s: nat | s < |p.inserted| :: s in p.rows || s in p.deleted || s in p.swept)
  }

  /** A stored or handed-out key is the one inserted under its serial number. */
  ghost predicate Genuine(p: Pool) {
    && (forall s | s in p.rows :: s < |p.inserted| && (p.rows[s].device, p.rows[s].key) == p.inserted[s])
    && (forall i | 0 <= i < |p.handed| ::
          p.handed[i].serial < |p.inserted| && (p.handed[i].device, p.handed[i].key) == p.inserted[p.handed[i].serial])
  }

  /** Running fetches hold different rows, all of them active. */
  ghost predicate LocksHeld(p: Pool) {
    && (forall f | f in p.locks :: p.locks[f] in p.rows && p.rows[p.locks[f]].expiredAt.None?)
    && (forall f, f' | f in p.locks && f' in p.locks && f != f' :: p.locks[f] != p.locks[f'])
  }

  ghost predicate HandedOut(handed: seq<Handout>, s: nat) {
    exists i :: 0 <= i < |handed| && handed[i].serial == s
  }

  /** No row is handed out twice, and none that is still active was handed out. */
  ghost predicate HandedOnce(p: Pool) {
    && (forall i, j | 0 <= i < j < |p.handed| :: p.handed[i].serial != p.handed[j].serial)
    && (forall i | 0 <= i < |p.handed| ::
          p.handed[i].serial in p.rows ==> p.rows[p.handed[i].serial].expiredAt.Some?)
    && (forall i | 0 <= i < |p.handed| :: p.handed[i].serial !in p.retired)
  }

  /** Where an expired, deleted or swept row came from. */
  ghost predicate Accounted(p: Pool) {
    && (forall s | s in p.rows && p.rows[s].expiredAt.Some? :: s in p.retired || HandedOut(p.handed, s))
    && (forall s | s in p.rows && s in p.retired :: p.rows[s].expiredAt.Some?)
    && (forall s | s in p.deleted :: HandedOut(p.handed, s))
    && (forall s | s in p.swept :: s in p.retired || HandedOut(p.handed, s))
    && (p.kind.Kyber? ==> p.deleted == {})
    && (forall s | s in p.retired :: s < |p.inserted|)
    && (p.kind.Classic? ==> forall i | 0 <= i < |p.handed| :: p.handed[i].serial in p.deleted)
  }

  /** (device_id, key_id) is the primary key. */
  ghost predicate KeysUnique(p: Pool) {
    forall s, s' | s in p.rows && s' in p.rows && s != s' ::
      p.rows[s].device != p.rows[s'].device || p.rows[s].key.keyId != p.rows[s'].key.keyId
  }

  ghost predicate Valid(p: Pool) {
    Partitioned(p) && Genuine(p) && LocksHeld(p) && HandedOnce(p) && Accounted(p) && KeysUnique(p)
  }

  lemma StepKeepsPartition(p: Pool, a: Action)
    requires Partitioned(p)
    ensures Partitioned(Step(p, a))
  {
  }

  lemma StepKeepsGenuine(p: Pool, a: Action)
    requires Genuine(p)
    ensures Genuine(Step(p, a))
  {
  }

  lemma StepKeepsUnique(p: Pool, a: Action)
    requires KeysUnique(p)
    ensures KeysUnique(Step(p, a))
  {
  }

  lemma StepKeepsLocks(p: Pool, a: Action)
    requires Partitioned(p) && LocksHeld(p)
    ensures LocksHeld(Step(p, a))
  {
    if a.Retire? {
      assert forall f | f in p.locks :: p.locks[f] in p.locks.Values;
    }
  }

  lemma FinishKeepsHandedOnce(p: Pool, fetch: nat)
    requires LocksHeld(p) && HandedOnce(p) && Accounted(p)
    requires fetch in p.locks && p.locks[fetch] in p.rows
    ensures HandedOnce(DoFinish(p, fetch))
  {
    assert forall i | 0 <= i < |p.handed| :: p.handed[i].serial != p.locks[fetch];
  }

  lemma StepKeepsHandedOnce(p: Pool, a: Action)
    requires Genuine(p) && LocksHeld(p) && HandedOnce(p) && Accounted(p)
    ensures HandedOnce(Step(p, a))
  {
    if a.FinishFetch? && a.fetch in p.locks && p.locks[a.fetch] in p.rows {
      FinishKeepsHandedOnce(p, a.fetch);
    }
  }

  lemma HandedGrows(handed: seq<Handout>, h: Handout, s: nat)
    ensures HandedOut(handed + [h], s) <==> HandedOut(handed, s) || s == h.serial
  {
    if HandedOut(handed, s) {
      var i :| 0 <= i < |handed| && handed[i].serial == s;
      assert (handed + [h])[i].serial == s;
    }
    assert (handed + [h])[|handed|] == h;
  }

  lemma StepKeepsAccounted(p: Pool, a: Action)
    requires Partitioned(p) && LocksHeld(p) && Accounted(p)
    ensures Accounted(Step(p, a))
  {
    if a.FinishFetch? && a.fetch in p.locks {
      var s := p.locks[a.fetch];
      var h := Handout(a.fetch, s, p.rows[s].device, p.rows[s].key);
      forall s'
        ensures HandedOut(p.handed + [h], s') <==> HandedOut(p.handed, s') || s' == s
      {
        HandedGrows(p.handed, h, s');
      }
    }
  }

  lemma StepKeeps(p: Pool, a: Action)
    requires Valid(p)
    ensures Valid(Step(p, a))
  {
    StepKeepsPartition(p, a);
    StepKeepsGenuine(p, a);
    StepKeepsUnique(p, a);
    StepKeepsLocks(p, a);
    StepKeepsHandedOnce(p, a);
    StepKeepsAccounted(p, a);
  }

  lemma {:induction false} RunKeeps(p: Pool, actions: seq<Action>)
    requires Valid(p)
    ensures Valid(Run(p, actions))
  {
    if actions != [] {
      RunKeeps(p, actions[..|actions| - 1]);
      StepKeeps(Run(p, actions[..|actions| - 1]), actions[|actions| - 1]);
    }
  }

  lemma {:induction false} RunKeepsKind(p: Pool, actions: seq<Action>)
    ensures Run(p, actions).kind == p.kind
  {
    if actions != [] {
      RunKeepsKind(p, actions[..|actions| - 1]);
    }
  }

  // ------------------------------------------------------------------------
  // What one statement does to one row
  // ------------------------------------------------------------------------

  /** The row is gone. */
  ghost predicate Gone(p: Pool, s: nat) {
    s !in p.rows
  }

  ghost predicate Same(p: Pool, q: Pool, s: nat)
    requires s in p.rows
  {
    s in q.rows && q.rows[s] == p.rows[s]
  }

  /** The row has expired at the clock's time and is otherwise as it was. */
  ghost predicate ExpiredNow(p: Pool, q: Pool, s: nat)
    requires s in p.rows
  {
    s in q.rows && q.rows[s] == Row(p.rows[s].device, p.rows[s].key, p.rows[s].uploadedAt, Some(p.clock))
  }

  /** A replacing update expires the device's active rows, and touches no other device's and no
      row that has expired before. */
  lemma RetireTouches(p: Pool, device: DeviceId, s: nat)
    requires s in p.rows
    ensures var q := DoRetire(p, device);
            if p.rows[s].device == device && p.rows[s].expiredAt == None
            then ExpiredNow(p, q, s) && s in q.retired
            else Same(p, q, s) && (s in q.retired <==> s in p.retired)
  {
  }

  /** A fetch takes its own row, out of the classic pool or as expired in the Kyber one, and
      touches no other. */
  lemma FinishTouches(p: Pool, fetch: nat, s: nat)
    requires fetch in p.locks && p.locks[fetch] in p.rows && s in p.rows
    ensures var q := DoFinish(p, fetch);
            if s != p.locks[fetch] then Same(p, q, s)
            else if p.kind.Classic? then Gone(q, s) else ExpiredNow(p, q, s)
  {
  }

  /** The sweep removes exactly the rows that expired more than 48 hours ago. */
  lemma SweepTouches(p: Pool, s: nat)
    requires s in p.rows
    ensures var q := DoSweep(p);
            if p.rows[s].expiredAt.Some? && p.clock - p.rows[s].expiredAt.value > 48 * 3600
            then Gone(q, s) && s in q.swept
            else Same(p, q, s) && (s in q.swept <==> s in p.swept)
  {
  }

  /** An insert adds one active row, stamped with the clock, unless a row of the device holds the
      id, and touches no other. */
  lemma InsertTouches(p: Pool, device: DeviceId, key: OneTimeKey, s: nat)
    requires forall s' | s' in p.rows :: s' < |p.inserted|
    ensures var q, n := DoInsert(p, device, key), |p.inserted|;
            && (s in p.rows ==> Same(p, q, s))
            && (s !in p.rows && s != n ==> s !in q.rows)
            && (n in q.rows <==> forall s' | s' in p.rows :: p.rows[s'].device != device || p.rows[s'].key.keyId != key.keyId)
            && (n in q.rows ==> q.rows[n] == Row(device, key, p.clock, None))
  {
  }

  /** Every row of another device is as it was after an upload, and no row at all is removed or
      given another key. */
  lemma {:induction false} InsertAllTouches(p: Pool, device: DeviceId, keys: seq<OneTimeKey>, s: nat)
    requires s in p.rows && forall s' | s' in p.rows :: s' < |p.inserted|
    ensures var q := DoInsertAll(p, device, keys);
            Same(p, q, s) && forall s' | s' in q.rows :: s' < |q.inserted|
  {
    if keys != [] {
      InsertAllTouches(p, device, keys[..|keys| - 1], s);
      InsertTouches(DoInsertAll(p, device, keys[..|keys| - 1]), device, keys[|keys| - 1], s);
    }
  }

  lemma UploadTouches(p: Pool, device: DeviceId, keys: seq<OneTimeKey>, replace: bool, s: nat)
    requires s in p.rows && forall s' | s' in p.rows :: s' < |p.inserted|
    ensures var q := DoUpload(p, device, keys, replace);
            if replace && p.rows[s].device == device && p.rows[s].expiredAt == None then ExpiredNow(p, q, s)
            else Same(p, q, s)
  {
    if replace {
      RetireTouches(p, device, s);
      InsertAllTouches(DoRetire(p, device), device, keys, s);
    } else {
      InsertAllTouches(p, device, keys, s);
    }
  }

  ghost predicate Named(actions: seq<Action>, device: DeviceId) {
    exists i :: 0 <= i < |actions| && actions[i] == Retire(device)
  }

  ghost predicate RetiredNamed(p: Pool, actions: seq<Action>) {
    forall s | s in p.retired :: s < |p.inserted| && Named(actions, p.inserted[s].0)
  }

  /** Only a replacing update of its own device retires a row. */
  lemma StepRetires(p: Pool, a: Action, s: nat)
    requires s in Step(p, a).retired && s !in p.retired
    ensures a.Retire? && s in p.rows && p.rows[s].device == a.device
  {
  }

  lemma StepKeepsNamed(p: Pool, actions: seq<Action>, a: Action)
    requires RetiredNamed(p, actions) && Genuine(p)
    ensures RetiredNamed(Step(p, a), actions + [a])
  {
    StepOnlyGrows(p, a);
    forall s | s in Step(p, a).retired
      ensures s < |p.inserted| && Named(actions + [a], p.inserted[s].0)
    {
      if s in p.retired {
        var i :| 0 <= i < |actions| && actions[i] == Retire(p.inserted[s].0);
        assert (actions + [a])[i] == Retire(p.inserted[s].0);
      } else {
        StepRetires(p, a, s);
        assert (actions + [a])[|actions|] == Retire(p.inserted[s].0);
      }
    }
  }

  /** Over every run, a retired row is of a device that some replacing upload of the run named. */
  lemma {:induction false} RetiredWereNamed(kind: Kind, actions: seq<Action>)
    ensures RetiredNamed(Run(EmptyPool(kind), actions), actions)
  {
    if actions != [] {
      var init, last := actions[..|actions| - 1], actions[|actions| - 1];
      RetiredWereNamed(kind, init);
      EmptyIsValid(kind);
      RunKeeps(EmptyPool(kind), init);
      StepKeepsNamed(Run(EmptyPool(kind), init), init, last);
      assert actions == init + [last];
    }
  }

  // ------------------------------------------------------------------------
  // What a run guarantees
  // ------------------------------------------------------------------------

  function ActiveRows(p: Pool): set<nat> {
    set s | s in p.rows && p.rows[s].expiredAt.None?
  }

  function ExpiredRows(p: Pool): set<nat> {
    set s | s in p.rows && p.rows[s].expiredAt.Some?
  }

  ghost function Serials(n: nat): set<nat> {
    if n == 0 then {} else Serials(n - 1) + {n - 1}
  }

  lemma {:induction false} SerialsBelow(n: nat)
    ensures |Serials(n)| == n
    ensures forall s: nat :: s in Serials(n) <==> s < n
  {
    if n > 0 {
      SerialsBelow(n - 1);
    }
  }

  /** inserted = active + expired + handed out and deleted + swept */
  lemma Conservation(p: Pool)
    requires Partitioned(p)
    ensures |p.inserted| == |ActiveRows(p)| + |ExpiredRows(p)| + |p.deleted| + |p.swept|
  {
    assert |p.rows.Keys| == |ActiveRows(p)| + |ExpiredRows(p)| by {
      assert p.rows.Keys == ActiveRows(p) + ExpiredRows(p);
    }
    SerialsBelow(|p.inserted|);
    var keys := p.rows.Keys;
    assert keys !! p.deleted && (keys + p.deleted) !! p.swept;
    assert Serials(|p.inserted|) == keys + p.deleted + p.swept;
  }

  /** The expired rows are those retired or handed out and not yet deleted or swept; a classic
      row that is handed out is deleted, so there they are the retired ones. */
  lemma ExpiredRowsAre(p: Pool)
    requires Valid(p)
    ensures forall s: nat :: s in ExpiredRows(p) <==>
              (s in p.retired || HandedOut(p.handed, s)) && s !in p.deleted && s !in p.swept
    ensures p.kind.Classic? ==> ExpiredRows(p) == p.retired - p.swept
  {
    forall s: nat | HandedOut(p.handed, s)
      ensures s < |p.inserted| && s !in p.retired
      ensures s in p.rows ==> p.rows[s].expiredAt.Some?
    {
      var i :| 0 <= i < |p.handed| && p.handed[i].serial == s;
    }
  }

  lemma EmptyIsValid(kind: Kind)
    ensures Valid(EmptyPool(kind))
  {
  }

  /** Over every interleaving of fetches, uploads, replacing uploads and sweeps: inserted =
      active + expired + handed out and deleted + swept, where the expired rows of the classic
      pool are the retired ones not yet swept; each row is handed out in at most one
      bundle, as the key that was inserted; a row that a replacing upload retired is never
      handed out; and a swept row had been retired or handed out before. */
  lemma OneTimeKeysOverEveryRun(kind: Kind, actions: seq<Action>)
    ensures var p := Run(EmptyPool(kind), actions);
            && |p.inserted| == |ActiveRows(p)| + |ExpiredRows(p)| + |p.deleted| + |p.swept|
            && (kind.Classic? ==> ExpiredRows(p) == p.retired - p.swept)
            && (forall i, j | 0 <= i < j < |p.handed| :: p.handed[i].serial != p.handed[j].serial)
            && (forall i | 0 <= i < |p.handed| ::
                  && p.handed[i].serial < |p.inserted|
                  && (p.handed[i].device, p.handed[i].key) == p.inserted[p.handed[i].serial]
                  && p.handed[i].serial !in p.retired)
            && (forall s | s in p.swept :: s in p.retired || HandedOut(p.handed, s))
  {
    EmptyIsValid(kind);
    RunKeeps(EmptyPool(kind), actions);
    Conservation(Run(EmptyPool(kind), actions));
    ExpiredRowsAre(Run(EmptyPool(kind), actions));
    RunKeepsKind(EmptyPool(kind), actions);
  }

  ghost predicate Extends(p: Pool, q: Pool) {
    && p.inserted <= q.inserted && p.handed <= q.handed
    && p.deleted <= q.deleted && p.retired <= q.retired && p.swept <= q.swept
  }

  lemma StepOnlyGrows(p: Pool, a: Action)
    ensures Extends(p, Step(p, a))
  {
  }

  /** The histories only grow: nothing a run did is forgotten by what follows. */
  lemma {:induction false} HistoryOnlyGrows(p: Pool, actions: seq<Action>)
    ensures Extends(p, Run(p, actions))
  {
    if actions != [] {
      HistoryOnlyGrows(p, actions[..|actions| - 1]);
      StepOnlyGrows(Run(p, actions[..|actions| - 1]), actions[|actions| - 1]);
    }
  }

  /** Every key an upload inserts passed the check `good` stands for. */
  ghost predicate Uploads(actions: seq<Action>, good: iset<(DeviceId, OneTimeKey)>) {
    forall i | 0 <= i < |actions| && actions[i].Insert? :: (actions[i].device, actions[i].key) in good
  }

  ghost predicate AllIn<T>(items: seq<T>, good: iset<T>) {
    forall i | 0 <= i < |items| :: items[i] in good
  }

  lemma {:induction false} InsertedPassed(kind: Kind, actions: seq<Action>, good: iset<(DeviceId, OneTimeKey)>)
    requires Uploads(actions, good)
    ensures AllIn(Run(EmptyPool(kind), actions).inserted, good)
  {
    if actions != [] {
      InsertedPassed(kind, actions[..|actions| - 1], good);
    }
  }

  /** Whatever check every upload passed, every handed-out key passes: with the device's
      Ed25519 check, each served Kyber one-time key is one its device signed. */
  lemma HandedKeysPassedTheirUpload(kind: Kind, actions: seq<Action>, good: iset<(DeviceId, OneTimeKey)>)
    requires Uploads(actions, good)
    ensures var p := Run(EmptyPool(kind), actions);
            forall i | 0 <= i < |p.handed| :: (p.handed[i].device, p.handed[i].key) in good
  {
    InsertedPassed(kind, actions, good);
    OneTimeKeysOverEveryRun(kind, actions);
  }

  /** A fetch finds a key exactly when an active row of its device is not held by another, and
      the row it finds is such a row and the oldest of them. */
  lemma FetchFindsAKey(p: Pool, device: DeviceId)
    ensures (exists s :: Selectable(p, device, s)) <==>
            (exists s | s in p.rows :: p.rows[s].device == device && p.rows[s].expiredAt == None && s !in p.locks.Values)
    ensures forall s | Selectable(p, device, s) ::
              && s in p.rows && p.rows[s].device == device && p.rows[s].expiredAt == None && s !in p.locks.Values
              && forall s' | s' in p.rows && p.rows[s'].device == device && p.rows[s'].expiredAt == None
                             && s' !in p.locks.Values :: p.rows[s].uploadedAt <= p.rows[s'].uploadedAt
  {
    var eligible := set s | s in p.rows && Eligible(p, device, s);
    if s :| s in p.rows && p.rows[s].device == device && p.rows[s].expiredAt == None && s !in p.locks.Values {
      assert s in eligible;
      var oldest := Oldest(p, eligible);
      assert Selectable(p, device, oldest);
    }
  }

  lemma {:induction false} Oldest(p: Pool, candidates: set<nat>) returns (oldest: nat)
    requires candidates != {} && candidates <= p.rows.Keys
    ensures oldest in candidates
    ensures forall s | s in candidates :: p.rows[oldest].uploadedAt <= p.rows[s].uploadedAt
    decreases |candidates|
  {
    var first :| first in candidates;
    var rest := candidates - {first};
    oldest := first;
    if rest != {} {
      var other := Oldest(p, rest);
      oldest := if p.rows[other].uploadedAt < p.rows[first].uploadedAt then other else first;
    }
    assert forall s | s in candidates :: s == first || s in rest;
  }

  // ------------------------------------------------------------------------
  // Uploads
  // ------------------------------------------------------------------------

  function DoInsertAll(p: Pool, device: DeviceId, keys: seq<OneTimeKey>): Pool {
    if keys == [] then p else DoInsert(DoInsertAll(p, device, keys[..|keys| - 1]), device, keys[|keys| - 1])
  }

  function DoUpload(p: Pool, device: DeviceId, keys: seq<OneTimeKey>, replace: bool): Pool {
    DoInsertAll(if replace then DoRetire(p, device) else p, device, keys)
  }

  function IdsHeld(p: Pool, device: DeviceId): set<nat> {
    set s | s in p.rows && p.rows[s].device == device :: p.rows[s].key.keyId
  }

  function ActiveIds(p: Pool, device: DeviceId): set<nat> {
    set s | s in p.rows && Active(p, device, s) :: p.rows[s].key.keyId
  }

  function Ids(keys: seq<OneTimeKey>): set<nat> {
    set i | 0 <= i < |keys| :: keys[i].keyId
  }

  /** The next serial number is unused. */
  ghost predicate NextIsFree(p: Pool) {
    forall s | s in p.rows :: s < |p.inserted|
  }

  lemma InsertIds(p: Pool, device: DeviceId, key: OneTimeKey)
    requires NextIsFree(p)
    ensures var q := DoInsert(p, device, key);
            && NextIsFree(q)
            && IdsHeld(q, device) == IdsHeld(p, device) + {key.keyId}
            && ActiveIds(q, device) == ActiveIds(p, device) + ({key.keyId} - IdsHeld(p, device))
  {
    var q, n := DoInsert(p, device, key), |p.inserted|;
    assert n !in p.rows;
    if Conflicts(p, device, key.keyId) {
      assert key.keyId in IdsHeld(p, device);
    } else {
      assert key.keyId !in IdsHeld(p, device);
      assert q.rows.Keys == p.rows.Keys + {n};
      forall x | x in IdsHeld(p, device) + {key.keyId}
        ensures x in IdsHeld(q, device)
      {
        if x == key.keyId {
          assert q.rows[n].key.keyId == x;
        } else {
          var s :| s in p.rows && p.rows[s].device == device && p.rows[s].key.keyId == x;
          assert q.rows[s] == p.rows[s];
        }
      }
      forall x | x in ActiveIds(p, device) + {key.keyId}
        ensures x in ActiveIds(q, device)
      {
        if x == key.keyId {
          assert Active(q, device, n) && q.rows[n].key.keyId == x;
        } else {
          var s :| s in p.rows && Active(p, device, s) && p.rows[s].key.keyId == x;
          assert Active(q, device, s) && q.rows[s] == p.rows[s];
        }
      }
    }
  }

  lemma {:induction false} InsertAllIds(p: Pool, device: DeviceId, keys: seq<OneTimeKey>)
    requires NextIsFree(p)
    ensures var q := DoInsertAll(p, device, keys);
            && NextIsFree(q)
            && IdsHeld(q, device) == IdsHeld(p, device) + Ids(keys)
            && ActiveIds(q, device) == ActiveIds(p, device) + (Ids(keys) - IdsHeld(p, device))
  {
    if keys != [] {
      var init, last := keys[..|keys| - 1], keys[|keys| - 1];
      InsertAllIds(p, device, init);
      InsertIds(DoInsertAll(p, device, init), device, last);
      assert Ids(keys) == Ids(init) + {last.keyId} by {
        assert forall i | 0 <= i < |init| :: keys[i] == init[i];
      }
    }
  }

  /** What an upload leaves active: what the device held (nothing, if it replaces), and the new
      ids that no row of the device holds. */
  lemma UploadLeavesActive(p: Pool, device: DeviceId, keys: seq<OneTimeKey>, replace: bool)
    requires NextIsFree(p)
    ensures var q := DoUpload(p, device, keys, replace);
            ActiveIds(q, device) ==
            (if replace then {} else ActiveIds(p, device)) + (Ids(keys) - IdsHeld(p, device))
  {
    if replace {
      var r := DoRetire(p, device);
      assert ActiveIds(r, device) == {};
      assert IdsHeld(r, device) == IdsHeld(p, device) by {
        assert forall s | s in p.rows :: r.rows[s].device == p.rows[s].device && r.rows[s].key == p.rows[s].key;
      }
      InsertAllIds(r, device, keys);
    } else {
      InsertAllIds(p, device, keys);
    }
  }

  ghost predicate HoldsActive(p: Pool, device: DeviceId, key: OneTimeKey) {
    exists s :: Active(p, device, s) && p.rows[s].key == key
  }

  /** The first key of the upload with its id, which is the one that can be stored. */
  ghost predicate FirstOfItsId(keys: seq<OneTimeKey>, key: OneTimeKey) {
    exists i :: 0 <= i < |keys| && keys[i] == key && key.keyId !in Ids(keys[..i])
  }

  lemma HoldsAfterInsert(p: Pool, device: DeviceId, key: OneTimeKey, other: OneTimeKey)
    requires NextIsFree(p)
    ensures HoldsActive(DoInsert(p, device, key), device, other) <==>
            HoldsActive(p, device, other) || (other == key && key.keyId !in IdsHeld(p, device))
  {
    var q, n := DoInsert(p, device, key), |p.inserted|;
    assert Conflicts(p, device, key.keyId) <==> key.keyId in IdsHeld(p, device);
    if HoldsActive(p, device, other) {
      var s :| Active(p, device, s) && p.rows[s].key == other;
      assert Active(q, device, s) && q.rows[s] == p.rows[s];
    }
    if key.keyId !in IdsHeld(p, device) {
      assert Active(q, device, n) && q.rows[n].key == key;
    }
    if HoldsActive(q, device, other) {
      var s :| Active(q, device, s) && q.rows[s].key == other;
      assert s == n || Active(p, device, s);
    }
  }

  lemma FirstOfMore(keys: seq<OneTimeKey>, last: OneTimeKey, key: OneTimeKey)
    ensures FirstOfItsId(keys + [last], key) <==> FirstOfItsId(keys, key) || (key == last && key.keyId !in Ids(keys))
  {
    var more := keys + [last];
    assert more[..|keys|] == keys && more[|keys|] == last;
    if FirstOfItsId(keys, key) {
      var i :| 0 <= i < |keys| && keys[i] == key && key.keyId !in Ids(keys[..i]);
      assert more[i] == key && more[..i] == keys[..i];
    }
    if FirstOfItsId(more, key) {
      var i :| 0 <= i < |more| && more[i] == key && key.keyId !in Ids(more[..i]);
      if i < |keys| {
        assert keys[i] == key && more[..i] == keys[..i];
      }
    }
  }

  lemma {:induction false} HoldsAfterInsertAll(p: Pool, device: DeviceId, keys: seq<OneTimeKey>, key: OneTimeKey)
    requires NextIsFree(p)
    ensures HoldsActive(DoInsertAll(p, device, keys), device, key) <==>
            HoldsActive(p, device, key) || (FirstOfItsId(keys, key) && key.keyId !in IdsHeld(p, device))
  {
    if keys != [] {
      var init, last := keys[..|keys| - 1], keys[|keys| - 1];
      HoldsAfterInsertAll(p, device, init, key);
      InsertAllIds(p, device, init);
      HoldsAfterInsert(DoInsertAll(p, device, init), device, last, key);
      assert keys == init + [last];
      FirstOfMore(init, last, key);
    }
  }

  /** Which keys an upload leaves active: what was active (nothing, if it replaces), and each
      key that is the first of its id in the upload and whose id no row of the device holds. */
  lemma UploadLeavesKeys(p: Pool, device: DeviceId, keys: seq<OneTimeKey>, replace: bool, key: OneTimeKey)
    requires NextIsFree(p)
    ensures HoldsActive(DoUpload(p, device, keys, replace), device, key) <==>
            (!replace && HoldsActive(p, device, key)) || (FirstOfItsId(keys, key) && key.keyId !in IdsHeld(p, device))
  {
    if replace {
      var r := DoRetire(p, device);
      assert forall s :: !Active(r, device, s);
      assert IdsHeld(r, device) == IdsHeld(p, device) by {
        assert forall s | s in p.rows :: r.rows[s].device == p.rows[s].device && r.rows[s].key == p.rows[s].key;
      }
      HoldsAfterInsertAll(r, device, keys, key);
    } else {
      HoldsAfterInsertAll(p, device, keys, key);
    }
  }

  /** No two different keys share an id. */
  ghost predicate IdsNameKeys(keys: seq<OneTimeKey>) {
    forall i, j | 0 <= i < |keys| && 0 <= j < |keys| && keys[i].keyId == keys[j].keyId :: keys[i] == keys[j]
  }

  lemma {:induction false} IdHasAFirst(keys: seq<OneTimeKey>, i: nat)
    requires i < |keys|
    ensures exists first :: FirstOfItsId(keys, first) && first.keyId == keys[i].keyId && first in keys
  {
    if keys[i].keyId in Ids(keys[..i]) {
      var j :| 0 <= j < i && keys[..i][j].keyId == keys[i].keyId;
      IdHasAFirst(keys, j);
    } else {
      assert FirstOfItsId(keys, keys[i]);
    }
  }

  lemma IdIsAmong(keys: seq<OneTimeKey>, i: nat, j: nat)
    requires i < |keys| && j < |keys|
    ensures i < j ==> keys[i].keyId in Ids(keys[..j])
  {
    if i < j {
      assert keys[..j][i].keyId == keys[i].keyId;
    }
  }

  lemma FirstIsUnique(keys: seq<OneTimeKey>, key: OneTimeKey, other: OneTimeKey)
    requires FirstOfItsId(keys, key) && FirstOfItsId(keys, other) && key.keyId == other.keyId
    ensures key == other
  {
    var i :| 0 <= i < |keys| && keys[i] == key && key.keyId !in Ids(keys[..i]);
    var j :| 0 <= j < |keys| && keys[j] == other && other.keyId !in Ids(keys[..j]);
    IdIsAmong(keys, i, j);
    IdIsAmong(keys, j, i);
  }

  /** Every key is the first of its id exactly when ids name keys. */
  lemma AllAreFirst(keys: seq<OneTimeKey>)
    ensures (forall i | 0 <= i < |keys| :: FirstOfItsId(keys, keys[i])) <==> IdsNameKeys(keys)
  {
    if IdsNameKeys(keys) {
      forall i: nat | i < |keys|
        ensures FirstOfItsId(keys, keys[i])
      {
        IdHasAFirst(keys, i);
      }
    } else {
      var i, j :| 0 <= i < |keys| && 0 <= j < |keys| && keys[i].keyId == keys[j].keyId && keys[i] != keys[j];
      if FirstOfItsId(keys, keys[i]) && FirstOfItsId(keys, keys[j]) {
        FirstIsUnique(keys, keys[i], keys[j]);
      }
    }
  }

  /** A replacing upload leaves every one of its keys active exactly when no two different keys
      of it share an id and it reuses no id the device's rows, retired ones included, hold. */
  lemma ReplaceStoresAllKeys(p: Pool, device: DeviceId, keys: seq<OneTimeKey>)
    requires NextIsFree(p)
    ensures (forall i | 0 <= i < |keys| :: HoldsActive(DoUpload(p, device, keys, true), device, keys[i])) <==>
            IdsNameKeys(keys) && Ids(keys) !! IdsHeld(p, device)
  {
    forall i | 0 <= i < |keys|
      ensures HoldsActive(DoUpload(p, device, keys, true), device, keys[i]) <==>
              FirstOfItsId(keys, keys[i]) && keys[i].keyId !in IdsHeld(p, device)
    {
      UploadLeavesKeys(p, device, keys, true, keys[i]);
    }
    AllAreFirst(keys);
    assert Ids(keys) !! IdsHeld(p, device) <==> forall i | 0 <= i < |keys| :: keys[i].keyId !in IdsHeld(p, device);
  }

  /** Of two different keys sent under one id only the first is stored, even in an empty pool. */
  lemma DuplicateIdDropsAKey(key: OneTimeKey, other: OneTimeKey)
    requires key.keyId == other.keyId && key != other
    ensures var q := DoUpload(EmptyPool(Classic), "d", [key, other], true);
            HoldsActive(q, "d", key) && !HoldsActive(q, "d", other)
  {
    var p, keys := EmptyPool(Classic), [key, other];
    UploadLeavesKeys(p, "d", keys, true, key);
    UploadLeavesKeys(p, "d", keys, true, other);
    assert keys[0] == key && keys[..0] == [];
    assert FirstOfItsId(keys, key);
    if FirstOfItsId(keys, other) {
      FirstIsUnique(keys, key, other);
    }
  }

  /** A device that numbers its keys afresh when it replaces its pool ends up with no active key,
      whatever the keys and whatever else it held. */
  lemma ReplaceWithReusedIdsStoresNothing(
      p: Pool, device: DeviceId, keys: seq<OneTimeKey>, again: seq<OneTimeKey>)
    requires NextIsFree(p) && Ids(again) <= Ids(keys)
    ensures ActiveIds(DoUpload(DoUpload(p, device, keys, false), device, again, true), device) == {}
  {
    InsertAllIds(p, device, keys);
    UploadLeavesActive(DoUpload(p, device, keys, false), device, again, true);
  }

  // ------------------------------------------------------------------------
  // The statements on a table
  // ------------------------------------------------------------------------

  function InsertSteps(device: DeviceId, keys: seq<OneTimeKey>): seq<Action> {
    if keys == [] then [] else InsertSteps(device, keys[..|keys| - 1]) + [Insert(device, keys[|keys| - 1])]
  }

  lemma {:induction false} InsertsAreSteps(p: Pool, device: DeviceId, keys: seq<OneTimeKey>, first: seq<Action>)
    ensures Run(p, first + InsertSteps(device, keys)) == DoInsertAll(Run(p, first), device, keys)
  {
    if keys == [] {
      assert first + [] == first;
    } else {
      var init, last := keys[..|keys| - 1], Insert(device, keys[|keys| - 1]);
      InsertsAreSteps(p, device, init, first);
      var actions := first + InsertSteps(device, keys);
      assert actions == (first + InsertSteps(device, init)) + [last];
      assert actions[..|actions| - 1] == first + InsertSteps(device, init);
    }
  }

  /** An upload is its statements: the replacing update, if asked for, and one insert for each key;
      when no fetch holds a row it would retire. */
  lemma UploadIsItsSteps(p: Pool, device: DeviceId, keys: seq<OneTimeKey>, replace: bool)
    requires forall s | s in p.rows :: !(Active(p, device, s) && s in p.locks.Values)
    ensures Run(p, (if replace then [Retire(device)] else []) + InsertSteps(device, keys)) == DoUpload(p, device, keys, replace)
  {
    var first := if replace then [Retire(device)] else [];
    InsertsAreSteps(p, device, keys, first);
    if replace {
      assert first[..0] == [];
    }
  }

  lemma FetchIsTwoSteps(p: Pool, fetch: nat, device: DeviceId, s: nat)
    requires fetch !in p.locks && Selectable(p, device, s)
    ensures DoFinish(p.(locks := p.locks[fetch := s]), fetch)
         == Run(p, [BeginFetch(fetch, device, s), FinishFetch(fetch)])
  {
    var actions := [BeginFetch(fetch, device, s), FinishFetch(fetch)];
    assert actions[..1] == [BeginFetch(fetch, device, s)] && actions[..1][..0] == [];
    assert Run(p, actions[..1]) == Step(p, actions[0]);
  }

  lemma RemovalCounts<K, V>(m: map<K, V>, gone: set<K>)
    requires gone <= m.Keys
    ensures |m - gone| == |m| - |gone|
  {
    assert (m - gone).Keys == m.Keys - gone;
  }

  lemma SweepCounts(p: Pool)
    ensures |DoSweep(p).rows| == |p.rows| - |set s | s in p.rows && Sweepable(p, s)|
    ensures ActiveRows(DoSweep(p)) == ActiveRows(p)
    ensures forall s | s in ActiveRows(p) :: DoSweep(p).rows[s] == p.rows[s]
  {
    RemovalCounts(p.rows, set s | s in p.rows && Sweepable(p, s));
  }

  lemma SweepKeeps(p: Pool)
    ensures Valid(p) ==> Valid(DoSweep(p))
  {
    if Valid(p) {
      StepKeeps(p, Sweep);
      assert Step(p, Sweep) == DoSweep(p);
    }
  }

  lemma {:induction false} InsertAllKeeps(p: Pool, device: DeviceId, keys: seq<OneTimeKey>)
    requires Valid(p)
    ensures Valid(DoInsertAll(p, device, keys))
  {
    if keys != [] {
      InsertAllKeeps(p, device, keys[..|keys| - 1]);
      StepKeeps(DoInsertAll(p, device, keys[..|keys| - 1]), Insert(device, keys[|keys| - 1]));
    }
  }

  lemma UploadKeeps(p: Pool, device: DeviceId, keys: seq<OneTimeKey>, replace: bool)
    requires Valid(p) && p.locks == map[]
    ensures Valid(DoUpload(p, device, keys, replace))
  {
    if replace {
      StepKeeps(p, Retire(device));
      InsertAllKeeps(DoRetire(p, device), device, keys);
    } else {
      InsertAllKeeps(p, device, keys);
    }
  }

  class OneTimeKeyTable {
    var pool: Pool

    constructor (kind: Kind)
      ensures pool == EmptyPool(kind) && Valid(pool)
    {
      pool := EmptyPool(kind);
      EmptyIsValid(kind);
    }

    /** One pool's half of `upload_prekeys`: retire if asked, then insert key by key. */
    method Upload(device: DeviceId, keys: seq<OneTimeKey>, replace: bool) returns (active: nat)
      modifies this
      ensures pool == DoUpload(old(pool), device, keys, replace)
      ensures old(Valid(pool)) && old(pool).locks == map[] ==> Valid(pool)
      ensures active == |set s | s in pool.rows && Active(pool, device, s)|
    {
      if replace {
        pool := DoRetire(pool, device);
      }
      ghost var start := pool;
      var i := 0;
      while i < |keys|
        invariant 0 <= i <= |keys|
        invariant pool == DoInsertAll(start, device, keys[..i])
      {
        assert keys[..i + 1][..i] == keys[..i];
        pool := DoInsert(pool, device, keys[i]);
        i := i + 1;
      }
      assert keys[..|keys|] == keys;
      active := |set s | s in pool.rows && Active(pool, device, s)|;
      if old(Valid(pool)) && old(pool).locks == map[] {
        UploadKeeps(old(pool), device, keys, replace);
      }
    }

    /** One fetching statement that meets no other: the oldest active key, if there is one. */
    method Fetch(fetch: nat, device: DeviceId) returns (key: Option<OneTimeKey>, ghost serial: nat)
      requires fetch !in pool.locks
      modifies this
      ensures old(Valid(pool)) ==> Valid(pool)
      ensures key.None? <==> forall s | s in old(pool).rows :: !Eligible(old(pool), device, s)
      ensures key.None? ==> pool == old(pool)
      ensures key.Some? ==>
                && Selectable(old(pool), device, serial) && key == Some(old(pool).rows[serial].key)
                && pool == Run(old(pool), [BeginFetch(fetch, device, serial), FinishFetch(fetch)])
    {
      FetchFindsAKey(pool, device);
      var found := set s | s in pool.rows && Selectable(pool, device, s);
      if found == {} {
        assert forall s :: Selectable(pool, device, s) ==> s in found;
        return None, 0;
      }
      var s :| s in found;
      serial := s;
      key := Some(pool.rows[s].key);
      FetchIsTwoSteps(pool, fetch, device, s);
      pool := DoFinish(pool.(locks := pool.locks[fetch := s]), fetch);
      if old(Valid(pool)) {
        RunKeeps(old(pool), [BeginFetch(fetch, device, s), FinishFetch(fetch)]);
      }
    }

    method SweepExpired() returns (removed: nat)
      modifies this
      ensures pool == DoSweep(old(pool))
      ensures old(Valid(pool)) ==> Valid(pool)
      ensures removed == |old(pool).rows| - |pool.rows|
      ensures ActiveRows(pool) == ActiveRows(old(pool))
    {
      SweepCounts(pool);
      SweepKeeps(pool);
      removed := |set s | s in pool.rows && Sweepable(pool, s)|;
      pool := DoSweep(pool);
    }
  }
}
