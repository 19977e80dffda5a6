/** Dispatch of an envelope to the recipient's mailbox streams: duplicate check, block check,
    stream writes and the dedup mark, with a fault possible at every Redis or database call. */
module Delivery {
  import opened Bytes

  type Id = Bytes

  datatype MessageType = DirectMessage | MLSMessage | SenderSync | Other

  datatype Envelope = Envelope(messageId: Id, sender: Id, recipient: Id, device: Option<Id>, kind: MessageType)

  /** Receipts, control and sealed envelopes are not deduplicated. */
  predicate IsUserMessage(e: Envelope) {
    !e.kind.Other?
  }

  // ------------------------------------------------------------------------
  // The dedup key
  // ------------------------------------------------------------------------

  const LENGTH_BYTES: nat := 8

  /** A length-prefixed field, and what follows it. */
  function FieldThen(s: Bytes, rest: Bytes): Bytes {
    BigEndian(|s|, LENGTH_BYTES) + (s + rest)
  }

  function DeviceOrEmpty(device: Option<Id>): Id {
    if device.Some? then device.value else []
  }

  function DedupInput(e: Envelope): Bytes {
    FieldThen(e.sender, FieldThen(e.recipient, FieldThen(DeviceOrEmpty(e.device), FieldThen(e.messageId, []))))
  }

  function DedupKey(h: Hash, e: Envelope): Digest {
    h(DedupInput(e))
  }

  predicate Sized(e: Envelope) {
    && |e.sender| < Pow256(LENGTH_BYTES) && |e.recipient| < Pow256(LENGTH_BYTES)
    && |DeviceOrEmpty(e.device)| < Pow256(LENGTH_BYTES) && |e.messageId| < Pow256(LENGTH_BYTES)
  }

  /** A length-prefixed field can be told from what follows it. */
  lemma FieldIsPrefixFree(a: Bytes, x: Bytes, b: Bytes, y: Bytes)
    requires |a| < Pow256(LENGTH_BYTES) && |b| < Pow256(LENGTH_BYTES)
    requires FieldThen(a, x) == FieldThen(b, y)
    ensures a == b && x == y
  {
    SplitConcat(BigEndian(|a|, LENGTH_BYTES), a + x, BigEndian(|b|, LENGTH_BYTES), b + y);
    BigEndianInjective(|a|, |b|, LENGTH_BYTES);
    SplitConcat(a, x, b, y);
  }

  /** A length-prefixed field and what follows it, read back. */
  function ReadField(s: Bytes): Option<(Bytes, Bytes)> {
    if |s| < 8 then None
    else
      var n := FromBigEndian(s[..8]);
      if |s| < 8 + n then None else Some((s[8..8 + n], s[8 + n..]))
  }

  lemma FieldRoundTrip(field: Bytes, rest: Bytes)
    requires |field| < Pow256(LENGTH_BYTES)
    ensures ReadField(FieldThen(field, rest)) == Some((field, rest))
  {
    var s := FieldThen(field, rest);
    BigEndianRoundTrip(|field|, LENGTH_BYTES);
    assert s[..8] == BigEndian(|field|, LENGTH_BYTES);
    assert s[8..8 + |field|] == field && s[8 + |field|..] == rest;
  }

  /** The dedup input, read field by field: sender, recipient, device, message id, and no more. */
  lemma DedupInputRoundTrip(e: Envelope)
    requires Sized(e)
    ensures exists r1: Bytes, r2: Bytes, r3: Bytes ::
              && ReadField(DedupInput(e)) == Some((e.sender, r1))
              && ReadField(r1) == Some((e.recipient, r2))
              && ReadField(r2) == Some((if e.device.Some? then e.device.value else [], r3))
              && ReadField(r3) == Some((e.messageId, []))
  {
    var r3 := FieldThen(e.messageId, []);
    var r2 := FieldThen(DeviceOrEmpty(e.device), r3);
    var r1 := FieldThen(e.recipient, r2);
    FieldRoundTrip(e.sender, r1);
    FieldRoundTrip(e.recipient, r2);
    FieldRoundTrip(DeviceOrEmpty(e.device), r3);
    FieldRoundTrip(e.messageId, []);
  }

  /** Two envelopes share a dedup input exactly when sender, recipient, device (absent and
      empty are one) and message id all agree. */
  lemma DedupInputNamesDelivery(e: Envelope, f: Envelope)
    requires Sized(e) && Sized(f)
    ensures DedupInput(e) == DedupInput(f) <==>
            && e.sender == f.sender && e.recipient == f.recipient
            && DeviceOrEmpty(e.device) == DeviceOrEmpty(f.device) && e.messageId == f.messageId
  {
    if DedupInput(e) == DedupInput(f) {
      var d, m := DeviceOrEmpty(e.device), FieldThen(e.messageId, []);
      var d', m' := DeviceOrEmpty(f.device), FieldThen(f.messageId, []);
      FieldIsPrefixFree(e.sender, FieldThen(e.recipient, FieldThen(d, m)),
                        f.sender, FieldThen(f.recipient, FieldThen(d', m')));
      FieldIsPrefixFree(e.recipient, FieldThen(d, m), f.recipient, FieldThen(d', m'));
      FieldIsPrefixFree(d, m, d', m');
      FieldIsPrefixFree(e.messageId, [], f.messageId, []);
    }
  }

  /** Envelopes under one dedup key are one delivery, or a collision. */
  lemma SameKeySameDelivery(h: Hash, e: Envelope, f: Envelope)
    requires Sized(e) && Sized(f) && DedupKey(h, e) == DedupKey(h, f)
    ensures || (e.sender == f.sender && e.recipient == f.recipient && e.messageId == f.messageId
                && DeviceOrEmpty(e.device) == DeviceOrEmpty(f.device))
            || Collides(h, Collision(DedupInput(e), DedupInput(f)))
  {
    DedupInputNamesDelivery(e, f);
  }

  // ------------------------------------------------------------------------
  // Which mailboxes
  // ------------------------------------------------------------------------

  datatype Routing = Unnamed | Named | UnknownDevice

  /** A named active device gets the only copy; anything else goes to every active device, so
      a stale name never loses the message and never invents a mailbox. */
  function SelectTargets(active: seq<Id>, named: Option<Id>): (r: (seq<Id>, Routing))
    ensures r.0 == [] <==> active == []
    ensures forall d | d in r.0 :: d in active
    ensures r.1.Named? <==> named.Some? && named.value != [] && named.value in active
    ensures r.0 == if r.1.Named? then [named.value] else active
    ensures r.1.UnknownDevice? <==> named.Some? && named.value != [] && named.value !in active
  {
    if named.None? || named.value == [] then (active, Unnamed)
    else if named.value in active then ([named.value], Named)
    else (active, UnknownDevice)
  }

  // ------------------------------------------------------------------------
  // Stream writes
  // ------------------------------------------------------------------------

  datatype Stream = UserStream(user: Id) | DeviceStream(user: Id, device: Id)

  /** What became of one stream append. A lost reply leaves an entry and reports an error. */
  datatype Write = Landed | Lost | LandedUnacknowledged

  type Faults = map<Stream, Write>

  function At(faults: Faults, s: Stream): Write {
    if s in faults then faults[s] else Landed
  }

  /** The device streams an envelope reached. */
  function DeviceEntries(user: Id, devices: seq<Id>, faults: Faults): seq<Stream> {
    if devices == [] then []
    else
      var init, last := devices[..|devices| - 1], DeviceStream(user, devices[|devices| - 1]);
      DeviceEntries(user, init, faults) + if At(faults, last).Lost? then [] else [last]
  }

  function Acknowledged(user: Id, devices: seq<Id>, faults: Faults): nat {
    if devices == [] then 0
    else
      Acknowledged(user, devices[..|devices| - 1], faults)
      + if At(faults, DeviceStream(user, devices[|devices| - 1])).Landed? then 1 else 0
  }

  /** The entries written, and whether the write answers Ok. */
  function WriteResult(writeUser: bool, user: Id, devices: seq<Id>, faults: Faults): (seq<Stream>, bool) {
    var u := UserStream(user);
    if writeUser && !At(faults, u).Landed? then (if At(faults, u).Lost? then [] else [u], false)
    else ((if writeUser then [u] else []) + DeviceEntries(user, devices, faults),
          writeUser || Acknowledged(user, devices, faults) > 0)
  }

  lemma {:induction false} AcknowledgedLanded(user: Id, devices: seq<Id>, faults: Faults)
    ensures Acknowledged(user, devices, faults) > 0 ==> DeviceEntries(user, devices, faults) != []
    ensures Acknowledged(user, devices, faults) <= |DeviceEntries(user, devices, faults)|
    ensures (forall s | s in faults :: !faults[s].LandedUnacknowledged?) ==>
              Acknowledged(user, devices, faults) == |DeviceEntries(user, devices, faults)|
  {
    if devices != [] {
      AcknowledgedLanded(user, devices[..|devices| - 1], faults);
    }
  }

  /** A write answers Ok only if an entry landed; without a lost reply, exactly then. */
  lemma OkMeansWritten(writeUser: bool, user: Id, devices: seq<Id>, faults: Faults)
    ensures var (entries, ok) := WriteResult(writeUser, user, devices, faults);
            && (ok ==> entries != [])
            && ((forall s | s in faults :: !faults[s].LandedUnacknowledged?) ==> (ok <==> entries != []))
  {
    AcknowledgedLanded(user, devices, faults);
  }

  lemma {:induction false} DeviceEntriesAre(user: Id, devices: seq<Id>, faults: Faults, s: Stream)
    ensures s in DeviceEntries(user, devices, faults) <==>
            s.DeviceStream? && s.user == user && s.device in devices && !At(faults, s).Lost?
  {
    if devices != [] {
      var init, last := devices[..|devices| - 1], devices[|devices| - 1];
      DeviceEntriesAre(user, init, faults, s);
      assert forall d :: d in devices <==> d in init || d == last;
    }
  }

  /** Nothing twice. */
  predicate NoRepeat<T(==)>(s: seq<T>) {
    forall i, j | 0 <= i < j < |s| :: s[i] != s[j]
  }

  lemma {:induction false} DeviceEntriesOnce(user: Id, devices: seq<Id>, faults: Faults)
    requires NoRepeat(devices)
    ensures NoRepeat(DeviceEntries(user, devices, faults))
  {
    if devices != [] {
      var init, last := devices[..|devices| - 1], devices[|devices| - 1];
      DeviceEntriesOnce(user, init, faults);
      DeviceEntriesAre(user, init, faults, DeviceStream(user, last));
    }
  }

  lemma {:induction false} AcknowledgedMeans(user: Id, devices: seq<Id>, faults: Faults)
    ensures Acknowledged(user, devices, faults) > 0 <==>
            exists d :: d in devices && (DeviceStream(user, d) in faults ==> faults[DeviceStream(user, d)] == Landed)
  {
    if devices != [] {
      var init, last := devices[..|devices| - 1], devices[|devices| - 1];
      AcknowledgedMeans(user, init, faults);
      assert forall d :: d in devices <==> d in init || d == last;
    }
  }

  /** Where a message with these targets comes to lie: in the recipient's own stream, if that is
      written, and then in the stream of each target, unless the append was lost; a failure of
      the recipient's own stream ends the write. */
  ghost predicate LiesIn(s: Stream, writeUser: bool, user: Id, targets: seq<Id>, faults: Faults) {
    && (s in faults ==> faults[s] != Lost)
    && match s
       case UserStream(u) => u == user && writeUser
       case DeviceStream(u, d) =>
         u == user && d in targets && (writeUser && UserStream(user) in faults ==> faults[UserStream(user)] == Landed)
  }

  /** The write, mailbox by mailbox: which streams have the entry, each once if no target is named
      twice, and when it answers Ok. */
  lemma WriteExactly(writeUser: bool, user: Id, devices: seq<Id>, faults: Faults)
    ensures var (entries, ok) := WriteResult(writeUser, user, devices, faults);
            && (forall s :: s in entries <==> LiesIn(s, writeUser, user, devices, faults))
            && (NoRepeat(devices) ==> NoRepeat(entries))
            && (ok <==> if writeUser then UserStream(user) in faults ==> faults[UserStream(user)] == Landed
                        else exists d :: d in devices
                               && (DeviceStream(user, d) in faults ==> faults[DeviceStream(user, d)] == Landed))
  {
    var (entries, ok) := WriteResult(writeUser, user, devices, faults);
    forall s
      ensures s in entries <==> LiesIn(s, writeUser, user, devices, faults)
    {
      DeviceEntriesAre(user, devices, faults, s);
    }
    AcknowledgedMeans(user, devices, faults);
    if NoRepeat(devices) {
      DeviceEntriesOnce(user, devices, faults);
      DeviceEntriesAre(user, devices, faults, UserStream(user));
    }
  }

  /** The source's fan-out loop. */
  method WriteToStreams(writeUser: bool, user: Id, devices: seq<Id>, faults: Faults)
    returns (entries: seq<Stream>, ok: bool)
    ensures (entries, ok) == WriteResult(writeUser, user, devices, faults)
    ensures ok ==> entries != []
    ensures forall s :: s in entries <==> LiesIn(s, writeUser, user, devices, faults)
  {
    OkMeansWritten(writeUser, user, devices, faults);
    WriteExactly(writeUser, user, devices, faults);
    entries := [];
    if writeUser {
      var u := UserStream(user);
      if !At(faults, u).Lost? {
        entries := [u];
      }
      if !At(faults, u).Landed? {
        return entries, false;
      }
    }
    ghost var base := entries;
    var acknowledged := 0;
    for i := 0 to |devices|
      invariant entries == base + DeviceEntries(user, devices[..i], faults)
      invariant acknowledged == Acknowledged(user, devices[..i], faults)
    {
      assert devices[..i + 1][..i] == devices[..i];
      var s := DeviceStream(user, devices[i]);
      if !At(faults, s).Lost? {
        entries := entries + [s];
      }
      if At(faults, s).Landed? {
        acknowledged := acknowledged + 1;
      }
    }
    assert devices[..|devices|] == devices;
    ok := writeUser || acknowledged > 0;
  }

  // ------------------------------------------------------------------------
  // One dispatch, step by step
  // ------------------------------------------------------------------------

  /** The entries one call wrote, under its dedup key. */
  datatype Batch = Batch(call: nat, key: Digest, entries: seq<Stream>)

  /** The dedup marks in Redis, and every write ever made. */
  datatype Store = Store(marks: set<Digest>, batches: seq<Batch>)

  const EmptyStore: Store := Store({}, [])

  /** `Dropped` is the Ok a blocked sender gets. */
  datatype Answer = Accepted | Dropped | Failed

  datatype Phase = Fresh | Deduped | Cleared | Stored | Done(answer: Answer)

  /** The block lookup is skipped when an id is not a UUID. */
  datatype BlockLookup = Skipped | Answered(blocked: bool) | Unavailable

  function CheckDuplicate(st: Store, key: Digest, e: Envelope, readOk: bool): Phase {
    if IsUserMessage(e) && readOk && key in st.marks then Done(Accepted) else Deduped
  }

  function CheckBlocked(e: Envelope, lookup: BlockLookup): Phase {
    if IsUserMessage(e) && lookup == Answered(true) then Done(Dropped) else Cleared
  }

  function WriteMailbox(
      st: Store, call: nat, key: Digest, e: Envelope, writeUser: bool, active: seq<Id>, faults: Faults): (Store, Phase)
  {
    var (entries, ok) := WriteResult(writeUser, e.recipient, SelectTargets(active, e.device).0, faults);
    (if entries == [] then st else st.(batches := st.batches + [Batch(call, key, entries)]),
     if ok then Stored else Done(Failed))
  }

  function MarkDispatched(st: Store, key: Digest, e: Envelope, markOk: bool): Store {
    if IsUserMessage(e) && markOk then st.(marks := st.marks + {key}) else st
  }

  ghost predicate WrittenUnder(batches: seq<Batch>, key: Digest) {
    exists i :: 0 <= i < |batches| && batches[i].key == key && batches[i].entries != []
  }

  lemma WrittenStays(batches: seq<Batch>, b: Batch, key: Digest)
    ensures WrittenUnder(batches, key) ==> WrittenUnder(batches + [b], key)
    ensures b.entries != [] ==> WrittenUnder(batches + [b], b.key)
  {
    if WrittenUnder(batches, key) {
      var i :| 0 <= i < |batches| && batches[i].key == key && batches[i].entries != [];
      assert (batches + [b])[i] == batches[i];
    }
    assert (batches + [b])[|batches|] == b;
  }

  /** Writing keeps every earlier write, and a write that goes on to the mark left an entry. */
  lemma WriteLeavesEntry(
      st: Store, call: nat, key: Digest, e: Envelope, writeUser: bool, active: seq<Id>, faults: Faults)
    ensures var (st', phase) := WriteMailbox(st, call, key, e, writeUser, active, faults);
            && st'.marks == st.marks
            && (forall k :: WrittenUnder(st.batches, k) ==> WrittenUnder(st'.batches, k))
            && (phase.Stored? ==> WrittenUnder(st'.batches, key))
            && phase != Done(Accepted)
  {
    OkMeansWritten(writeUser, e.recipient, SelectTargets(active, e.device).0, faults);
    var entries := WriteResult(writeUser, e.recipient, SelectTargets(active, e.device).0, faults).0;
    forall k
      ensures WrittenUnder(st.batches, k) ==>
                WrittenUnder(WriteMailbox(st, call, key, e, writeUser, active, faults).0.batches, k)
    {
      WrittenStays(st.batches, Batch(call, key, entries), k);
    }
    WrittenStays(st.batches, Batch(call, key, entries), key);
  }

  // ------------------------------------------------------------------------
  // Every interleaving, every fault pattern
  // ------------------------------------------------------------------------

  datatype Call = Call(e: Envelope, phase: Phase)

  datatype System = System(store: Store, calls: map<nat, Call>)

  datatype Action =
    | Begin(id: nat, e: Envelope)
    | Duplicate(id: nat, readOk: bool)
    | Block(id: nat, lookup: BlockLookup)
    | Write(id: nat, writeUser: bool, active: seq<Id>, faults: Faults)
    | Mark(id: nat, markOk: bool)
    | Expire(key: Digest)

  function Step(h: Hash, sys: System, a: Action): System {
    match a
    case Begin(id, e) => if id in sys.calls then sys else sys.(calls := sys.calls[id := Call(e, Fresh)])
    case Duplicate(id, readOk) =>
      if id !in sys.calls || sys.calls[id].phase != Fresh then sys
      else
        var c := sys.calls[id];
        sys.(calls := sys.calls[id := c.(phase := CheckDuplicate(sys.store, DedupKey(h, c.e), c.e, readOk))])
    case Block(id, lookup) =>
      if id !in sys.calls || sys.calls[id].phase != Deduped then sys
      else sys.(calls := sys.calls[id := sys.calls[id].(phase := CheckBlocked(sys.calls[id].e, lookup))])
    case Write(id, writeUser, active, faults) =>
      if id !in sys.calls || sys.calls[id].phase != Cleared then sys
      else
        var c := sys.calls[id];
        var (st, phase) := WriteMailbox(sys.store, id, DedupKey(h, c.e), c.e, writeUser, active, faults);
        System(st, sys.calls[id := c.(phase := phase)])
    case Mark(id, markOk) =>
      if id !in sys.calls || sys.calls[id].phase != Stored then sys
      else
        var c := sys.calls[id];
        System(MarkDispatched(sys.store, DedupKey(h, c.e), c.e, markOk),
               sys.calls[id := c.(phase := Done(Accepted))])
    case Expire(key) => sys.(store := sys.store.(marks := sys.store.marks - {key}))
  }

  function Run(h: Hash, sys: System, actions: seq<Action>): System {
    if actions == [] then sys else Step(h, Run(h, sys, actions[..|actions| - 1]), actions[|actions| - 1])
  }

  /** A mark stands for a write; so does a call past its write and an accepting answer. */
  ghost predicate Safe(h: Hash, sys: System) {
    && (forall k | k in sys.store.marks :: WrittenUnder(sys.store.batches, k))
    && (forall id | id in sys.calls && (sys.calls[id].phase == Stored || sys.calls[id].phase == Done(Accepted)) ::
          WrittenUnder(sys.store.batches, DedupKey(h, sys.calls[id].e)))
  }

  ghost predicate SaidBlocked(actions: seq<Action>, id: nat) {
    exists i :: 0 <= i < |actions| && actions[i] == Block(id, Answered(true))
  }

  ghost predicate DropsExplained(calls: map<nat, Call>, actions: seq<Action>) {
    forall id | id in calls && calls[id].phase == Done(Dropped) :: SaidBlocked(actions, id)
  }

  lemma {:induction false} DroppedMeansBlocked(h: Hash, actions: seq<Action>)
    ensures DropsExplained(Run(h, System(EmptyStore, map[]), actions).calls, actions)
  {
    if actions != [] {
      var init, last := actions[..|actions| - 1], actions[|actions| - 1];
      DroppedMeansBlocked(h, init);
      var sys := Run(h, System(EmptyStore, map[]), init);
      var calls := Step(h, sys, last).calls;
      forall id | id in calls && calls[id].phase == Done(Dropped)
        ensures SaidBlocked(actions, id)
      {
        if id in sys.calls && sys.calls[id].phase == Done(Dropped) {
          var i :| 0 <= i < |init| && init[i] == Block(id, Answered(true));
          assert actions[i] == Block(id, Answered(true));
        } else {
          NewlyDropped(h, sys, last, id);
          assert actions[|actions| - 1] == Block(id, Answered(true));
        }
      }
    }
  }

  lemma NewlyDropped(h: Hash, sys: System, a: Action, id: nat)
    requires id in Step(h, sys, a).calls && Step(h, sys, a).calls[id].phase == Done(Dropped)
    requires id !in sys.calls || sys.calls[id].phase != Done(Dropped)
    ensures a == Block(id, Answered(true))
  {
  }

  /** A call's step that keeps the writes, marks only a written key, and lets the call past its
      write, or accepts it, only if its key is written. */
  lemma CallStepKeepsSafe(h: Hash, sys: System, st: Store, id: nat, c: Call)
    requires Safe(h, sys)
    requires forall k :: WrittenUnder(sys.store.batches, k) ==> WrittenUnder(st.batches, k)
    requires forall k | k in st.marks :: k in sys.store.marks || k == DedupKey(h, c.e)
    requires c.phase == Stored || c.phase == Done(Accepted) || DedupKey(h, c.e) in st.marks ==>
               WrittenUnder(st.batches, DedupKey(h, c.e))
    ensures Safe(h, System(st, sys.calls[id := c]))
  {
  }

  lemma WriteKeepsSafe(h: Hash, sys: System, id: nat, writeUser: bool, active: seq<Id>, faults: Faults)
    requires Safe(h, sys) && id in sys.calls && sys.calls[id].phase == Cleared
    ensures Safe(h, Step(h, sys, Write(id, writeUser, active, faults)))
  {
    var c := sys.calls[id];
    var key := DedupKey(h, c.e);
    WriteLeavesEntry(sys.store, id, key, c.e, writeUser, active, faults);
    var (st, phase) := WriteMailbox(sys.store, id, key, c.e, writeUser, active, faults);
    CallStepKeepsSafe(h, sys, st, id, c.(phase := phase));
  }

  lemma MarkKeepsSafe(h: Hash, sys: System, id: nat, markOk: bool)
    requires Safe(h, sys) && id in sys.calls && sys.calls[id].phase == Stored
    ensures Safe(h, Step(h, sys, Mark(id, markOk)))
  {
    var c := sys.calls[id];
    CallStepKeepsSafe(h, sys, MarkDispatched(sys.store, DedupKey(h, c.e), c.e, markOk), id, c.(phase := Done(Accepted)));
  }

  lemma StepKeepsSafe(h: Hash, sys: System, a: Action)
    requires Safe(h, sys)
    ensures Safe(h, Step(h, sys, a))
  {
    match a
    case Begin(id, e) =>
      if id !in sys.calls {
        CallStepKeepsSafe(h, sys, sys.store, id, Call(e, Fresh));
      }
    case Duplicate(id, readOk) =>
      if id in sys.calls && sys.calls[id].phase == Fresh {
        var c := sys.calls[id];
        CallStepKeepsSafe(h, sys, sys.store, id, c.(phase := CheckDuplicate(sys.store, DedupKey(h, c.e), c.e, readOk)));
      }
    case Block(id, lookup) =>
      if id in sys.calls && sys.calls[id].phase == Deduped {
        CallStepKeepsSafe(h, sys, sys.store, id, sys.calls[id].(phase := CheckBlocked(sys.calls[id].e, lookup)));
      }
    case Write(id, writeUser, active, faults) =>
      if id in sys.calls && sys.calls[id].phase == Cleared {
        WriteKeepsSafe(h, sys, id, writeUser, active, faults);
      }
    case Mark(id, markOk) =>
      if id in sys.calls && sys.calls[id].phase == Stored {
        MarkKeepsSafe(h, sys, id, markOk);
      }
    case Expire(key) =>
  }

  lemma {:induction false} RunIsSafe(h: Hash, actions: seq<Action>)
    ensures Safe(h, Run(h, System(EmptyStore, map[]), actions))
  {
    if actions != [] {
      RunIsSafe(h, actions[..|actions| - 1]);
      StepKeepsSafe(h, Run(h, System(EmptyStore, map[]), actions[..|actions| - 1]), actions[|actions| - 1]);
    }
  }

  /** No acknowledgement without a write: in every run, with any interleaving of calls, any
      faults and any expiry of marks, a call answered Ok has an entry under its dedup key, or
      the block lookup said its sender is blocked. */
  lemma NoAckWithoutWrite(h: Hash, actions: seq<Action>, id: nat)
    requires id in Run(h, System(EmptyStore, map[]), actions).calls
    ensures var sys := Run(h, System(EmptyStore, map[]), actions);
            var c := sys.calls[id];
            && (c.phase == Done(Accepted) ==> WrittenUnder(sys.store.batches, DedupKey(h, c.e)))
            && (c.phase == Done(Dropped) ==> SaidBlocked(actions, id))
  {
    RunIsSafe(h, actions);
    DroppedMeansBlocked(h, actions);
  }

  // ------------------------------------------------------------------------
  // Which mailboxes, in every run
  // ------------------------------------------------------------------------

  /** The entries are where one write of the envelope puts them. */
  ghost predicate RightlyPlaced(b: Batch, e: Envelope, a: Action) {
    && a.Write? && a.id == b.call
    && forall s :: s in b.entries <==>
                   LiesIn(s, a.writeUser, e.recipient, SelectTargets(a.active, e.device).0, a.faults)
  }

  /** Each batch is what one write of the run left of the envelope of its call. */
  ghost predicate BatchPlaced(h: Hash, sys: System, actions: seq<Action>, b: Batch) {
    && b.call in sys.calls && b.key == DedupKey(h, sys.calls[b.call].e)
    && exists i :: 0 <= i < |actions| && RightlyPlaced(b, sys.calls[b.call].e, actions[i])
  }

  ghost predicate AllPlaced(h: Hash, sys: System, actions: seq<Action>) {
    forall j | 0 <= j < |sys.store.batches| :: BatchPlaced(h, sys, actions, sys.store.batches[j])
  }

  lemma StepKeepsCalls(h: Hash, sys: System, a: Action)
    ensures var sys' := Step(h, sys, a);
            forall id | id in sys.calls :: id in sys'.calls && sys'.calls[id].e == sys.calls[id].e
  {
  }

  lemma BatchStaysPlaced(h: Hash, sys: System, actions: seq<Action>, a: Action, b: Batch)
    requires BatchPlaced(h, sys, actions, b)
    ensures BatchPlaced(h, Step(h, sys, a), actions + [a], b)
  {
    StepKeepsCalls(h, sys, a);
    var i :| 0 <= i < |actions| && RightlyPlaced(b, sys.calls[b.call].e, actions[i]);
    assert (actions + [a])[i] == actions[i];
  }

  lemma StepAddsBatch(h: Hash, sys: System, actions: seq<Action>, a: Action)
    ensures var batches, batches' := sys.store.batches, Step(h, sys, a).store.batches;
            || batches' == batches
            || (batches' == batches + [batches'[|batches|]]
                && BatchPlaced(h, Step(h, sys, a), actions + [a], batches'[|batches|]))
  {
    if a.Write? && a.id in sys.calls && sys.calls[a.id].phase == Cleared {
      var e := sys.calls[a.id].e;
      WriteExactly(a.writeUser, e.recipient, SelectTargets(a.active, e.device).0, a.faults);
      assert (actions + [a])[|actions|] == a;
    }
  }

  lemma StepKeepsPlaced(h: Hash, sys: System, actions: seq<Action>, a: Action)
    requires AllPlaced(h, sys, actions)
    ensures AllPlaced(h, Step(h, sys, a), actions + [a])
  {
    StepAddsBatch(h, sys, actions, a);
    var batches, batches' := sys.store.batches, Step(h, sys, a).store.batches;
    forall j | 0 <= j < |batches'|
      ensures BatchPlaced(h, Step(h, sys, a), actions + [a], batches'[j])
    {
      if j < |batches| {
        BatchStaysPlaced(h, sys, actions, a, batches[j]);
      }
    }
  }

  /** In every run each entry ever written is in the mailbox of its envelope's recipient: the
      recipient's own stream, or that of a device the envelope was routed to; and one write puts
      it in all of those that no fault kept it from. */
  lemma {:induction false} EntriesAreWhereTheyBelong(h: Hash, actions: seq<Action>)
    ensures AllPlaced(h, Run(h, System(EmptyStore, map[]), actions), actions)
  {
    if actions != [] {
      var init, last := actions[..|actions| - 1], actions[|actions| - 1];
      EntriesAreWhereTheyBelong(h, init);
      StepKeepsPlaced(h, Run(h, System(EmptyStore, map[]), init), init, last);
      assert actions == init + [last];
    }
  }

  ghost predicate WroteFor(batches: seq<Batch>, id: nat) {
    exists j :: 0 <= j < |batches| && batches[j].call == id
  }

  /** Only a call that got as far as its write has written. */
  ghost predicate WritersWrote(sys: System) {
    forall id | WroteFor(sys.store.batches, id) ::
      id in sys.calls && sys.calls[id].phase in {Stored, Done(Accepted), Done(Failed)}
  }

  lemma StepKeepsWriters(h: Hash, sys: System, a: Action)
    requires WritersWrote(sys)
    ensures WritersWrote(Step(h, sys, a))
  {
    var sys' := Step(h, sys, a);
    forall id | WroteFor(sys'.store.batches, id)
      ensures id in sys'.calls && sys'.calls[id].phase in {Stored, Done(Accepted), Done(Failed)}
    {
      var j :| 0 <= j < |sys'.store.batches| && sys'.store.batches[j].call == id;
      if j < |sys.store.batches| {
        assert sys.store.batches[j].call == id;
      }
    }
  }

  lemma {:induction false} RunKeepsWriters(h: Hash, actions: seq<Action>)
    ensures WritersWrote(Run(h, System(EmptyStore, map[]), actions))
  {
    if actions != [] {
      RunKeepsWriters(h, actions[..|actions| - 1]);
      StepKeepsWriters(h, Run(h, System(EmptyStore, map[]), actions[..|actions| - 1]), actions[|actions| - 1]);
    }
  }

  /** In every run a message of one of the three user kinds whose lookup answers that its sender is
      blocked is answered as dropped, and a call answered so has written nothing. */
  lemma BlockedIsNotWritten(h: Hash, actions: seq<Action>, id: nat)
    requires id in Run(h, System(EmptyStore, map[]), actions).calls
    ensures var sys := Run(h, System(EmptyStore, map[]), actions);
            && (sys.calls[id].phase == Done(Dropped) ==> !WroteFor(sys.store.batches, id))
            && (sys.calls[id].phase == Deduped ==>
                  (Step(h, sys, Block(id, Answered(true))).calls[id].phase == Done(Dropped) <==>
                   sys.calls[id].e.kind in {DirectMessage, MLSMessage, SenderSync}))
  {
    RunKeepsWriters(h, actions);
  }

  // ------------------------------------------------------------------------
  // How often a key is written
  // ------------------------------------------------------------------------

  ghost function CountBatches(batches: seq<Batch>, key: Digest): nat {
    if batches == [] then 0
    else CountBatches(batches[..|batches| - 1], key) + if batches[|batches| - 1].key == key then 1 else 0
  }

  predicate NoReplyLost(faults: Faults) {
    forall s | s in faults :: !faults[s].LandedUnacknowledged?
  }

  lemma CountLast(batches: seq<Batch>, b: Batch, key: Digest)
    ensures CountBatches(batches + [b], key) == CountBatches(batches, key) + if b.key == key then 1 else 0
  {
    assert (batches + [b])[..|batches|] == batches;
  }

  /** The mailbox write, seen from a key. */
  lemma WriteCounts(
      st: Store, call: nat, k: Digest, e: Envelope, writeUser: bool, active: seq<Id>, faults: Faults, key: Digest)
    requires k == key ==> NoReplyLost(faults)
    ensures var (st', phase) := WriteMailbox(st, call, k, e, writeUser, active, faults);
            && st'.marks == st.marks && (phase == Stored || phase == Done(Failed))
            && CountBatches(st'.batches, key)
               == CountBatches(st.batches, key) + if k == key && phase == Stored then 1 else 0
  {
    var entries := WriteResult(writeUser, e.recipient, SelectTargets(active, e.device).0, faults).0;
    OkMeansWritten(writeUser, e.recipient, SelectTargets(active, e.device).0, faults);
    CountLast(st.batches, Batch(call, k, entries), key);
  }

  // ------------------------------------------------------------------------
  // Calls one after the other: retries write once
  // ------------------------------------------------------------------------

  /** What one call meets. */
  datatype Weather = Weather(
    readOk: bool, lookup: BlockLookup, writeUser: bool, active: seq<Id>, faults: Faults, markOk: bool)

  function Dispatch(h: Hash, st: Store, call: nat, e: Envelope, w: Weather): (Store, Answer) {
    var key := DedupKey(h, e);
    var duplicate := CheckDuplicate(st, key, e, w.readOk);
    var blocked := CheckBlocked(e, w.lookup);
    if duplicate.Done? then (st, duplicate.answer)
    else if blocked.Done? then (st, blocked.answer)
    else
      var (st', phase) := WriteMailbox(st, call, key, e, w.writeUser, w.active, w.faults);
      if phase.Done? then (st', phase.answer) else (MarkDispatched(st', key, e, w.markOk), Accepted)
  }

  /** What one call does and answers. A direct message, an MLS message or a copy to one's own
      devices is answered Ok at once if its key is marked and the mark can be read, and dropped
      with Ok if its sender is known to be blocked; nothing is written then. Anything else is
      written, answered Ok if the write was, and then marked if it is one of those three kinds. */
  lemma DispatchExactly(h: Hash, st: Store, call: nat, e: Envelope, w: Weather)
    ensures var (st', answer) := Dispatch(h, st, call, e, w);
            var key := DedupKey(h, e);
            var user := e.kind in {DirectMessage, MLSMessage, SenderSync};
            var (entries, ok) := WriteResult(w.writeUser, e.recipient, SelectTargets(w.active, e.device).0, w.faults);
            if user && w.readOk && key in st.marks then st' == st && answer == Accepted
            else if user && w.lookup == Answered(true) then st' == st && answer == Dropped
            else
              && answer == (if ok then Accepted else Failed)
              && st'.batches == st.batches + (if entries == [] then [] else [Batch(call, key, entries)])
              && st'.marks == st.marks + (if ok && user && w.markOk then {key} else {})
  {
  }

  /** The steps of one call, with nothing in between, are its dispatch. */
  lemma StepsAreDispatch(h: Hash, sys: System, id: nat, e: Envelope, w: Weather)
    requires id !in sys.calls
    ensures var begun := Step(h, sys, Begin(id, e));
            var checked := Step(h, begun, Duplicate(id, w.readOk));
            var cleared := Step(h, checked, Block(id, w.lookup));
            var written := Step(h, cleared, Write(id, w.writeUser, w.active, w.faults));
            var marked := Step(h, written, Mark(id, w.markOk));
            var (st, answer) := Dispatch(h, sys.store, id, e, w);
            marked.store == st && id in marked.calls && marked.calls[id] == Call(e, Done(answer))
  {
  }

  class MessageQueue {
    var store: Store

    constructor ()
      ensures store == EmptyStore
    {
      store := EmptyStore;
    }

    /** The source's dispatch, returning early at each decision. */
    method DispatchEnvelope(h: Hash, call: nat, e: Envelope, w: Weather) returns (answer: Answer)
      modifies this
      ensures (store, answer) == Dispatch(h, old(store), call, e, w)
      ensures (forall k | k in old(store.marks) :: WrittenUnder(old(store.batches), k)) ==>
                && (forall k | k in store.marks :: WrittenUnder(store.batches, k))
                && (answer == Accepted ==> WrittenUnder(store.batches, DedupKey(h, e)))
      ensures forall i | |old(store.batches)| <= i < |store.batches| ::
                && store.batches[i].call == call && store.batches[i].key == DedupKey(h, e)
                && forall s :: s in store.batches[i].entries <==>
                               LiesIn(s, w.writeUser, e.recipient, SelectTargets(w.active, e.device).0, w.faults)
    {
      var key := DedupKey(h, e);
      if IsUserMessage(e) {
        if w.readOk && key in store.marks {
          return Accepted;
        }
      }
      if IsUserMessage(e) && w.lookup == Answered(true) {
        return Dropped;
      }
      var (targets, _) := SelectTargets(w.active, e.device);
      WriteLeavesEntry(store, call, key, e, w.writeUser, w.active, w.faults);
      var entries, ok := WriteToStreams(w.writeUser, e.recipient, targets, w.faults);
      if entries != [] {
        store := store.(batches := store.batches + [Batch(call, key, entries)]);
      }
      if !ok {
        return Failed;
      }
      if IsUserMessage(e) {
        if w.markOk {
          store := store.(marks := store.marks + {key});
        }
      }
      return Accepted;
    }
  }

  /** The store and the answers after calls made one after the other. */
  function RunCalls(h: Hash, calls: seq<(Envelope, Weather)>): (Store, seq<Answer>) {
    if calls == [] then (EmptyStore, [])
    else
      var (st, answers) := RunCalls(h, calls[..|calls| - 1]);
      var (e, w) := calls[|calls| - 1];
      var (st', a) := Dispatch(h, st, |calls| - 1, e, w);
      (st', answers + [a])
  }

  lemma {:induction false} RunCallsAnswers(h: Hash, calls: seq<(Envelope, Weather)>)
    ensures |RunCalls(h, calls).1| == |calls|
  {
    if calls != [] {
      RunCallsAnswers(h, calls[..|calls| - 1]);
    }
  }

  /** The dedup reads and marks answered, and no stream reply was lost. */
  ghost predicate Reliable(w: Weather) {
    w.readOk && w.markOk && NoReplyLost(w.faults)
  }

  ghost predicate AcceptedFor(h: Hash, calls: seq<(Envelope, Weather)>, answers: seq<Answer>, key: Digest) {
    exists i :: 0 <= i < |calls| && i < |answers| && DedupKey(h, calls[i].0) == key && answers[i] == Accepted
  }

  lemma AcceptedForLast(h: Hash, calls: seq<(Envelope, Weather)>, answers: seq<Answer>, a: Answer, key: Digest)
    requires calls != [] && |answers| == |calls| - 1
    ensures AcceptedFor(h, calls, answers + [a], key) <==>
            AcceptedFor(h, calls[..|calls| - 1], answers, key)
            || (DedupKey(h, calls[|calls| - 1].0) == key && a == Accepted)
  {
    var init := calls[..|calls| - 1];
    if AcceptedFor(h, init, answers, key) {
      var i :| 0 <= i < |init| && i < |answers| && DedupKey(h, init[i].0) == key && answers[i] == Accepted;
      assert DedupKey(h, calls[i].0) == key && (answers + [a])[i] == Accepted;
    }
    if AcceptedFor(h, calls, answers + [a], key) {
      var i :| 0 <= i < |calls| && DedupKey(h, calls[i].0) == key && (answers + [a])[i] == Accepted;
      if i < |answers| {
        assert DedupKey(h, init[i].0) == key && answers[i] == Accepted;
      }
    }
    assert (answers + [a])[|answers|] == a;
  }

  /** One more dispatch, seen from a key: a reliable call for it writes one batch and marks it
      if it was unmarked, and does nothing to it otherwise. */
  lemma DispatchForKey(h: Hash, st: Store, call: nat, e: Envelope, w: Weather, key: Digest)
    requires DedupKey(h, e) == key ==> IsUserMessage(e) && Reliable(w)
    requires CountBatches(st.batches, key) == if key in st.marks then 1 else 0
    ensures var (st', a) := Dispatch(h, st, call, e, w);
            && CountBatches(st'.batches, key) == (if key in st'.marks then 1 else 0)
            && (key in st'.marks <==> key in st.marks || (DedupKey(h, e) == key && a == Accepted))
  {
    OkMeansWritten(w.writeUser, e.recipient, SelectTargets(w.active, e.device).0, w.faults);
    var entries := WriteResult(w.writeUser, e.recipient, SelectTargets(w.active, e.device).0, w.faults).0;
    assert (st.batches + [Batch(call, DedupKey(h, e), entries)])[..|st.batches|] == st.batches;
  }

  /** Retries write exactly once: if every call for a key is a user message that meets no dedup
      fault, no expiry and no lost reply, then over any sequence of calls and any other faults
      the key is written in one batch if some call for it was accepted, and in none otherwise. */
  lemma {:induction false} RetriesWriteOnce(h: Hash, calls: seq<(Envelope, Weather)>, key: Digest)
    requires forall i | 0 <= i < |calls| && DedupKey(h, calls[i].0) == key ::
               IsUserMessage(calls[i].0) && Reliable(calls[i].1)
    ensures var (st, answers) := RunCalls(h, calls);
            && |answers| == |calls|
            && CountBatches(st.batches, key) == (if AcceptedFor(h, calls, answers, key) then 1 else 0)
            && (key in st.marks <==> AcceptedFor(h, calls, answers, key))
  {
    RunCallsAnswers(h, calls);
    if calls != [] {
      var init := calls[..|calls| - 1];
      RetriesWriteOnce(h, init, key);
      var (st, answers) := RunCalls(h, init);
      var (e, w) := calls[|calls| - 1];
      DispatchForKey(h, st, |calls| - 1, e, w, key);
      AcceptedForLast(h, calls, answers, Dispatch(h, st, |calls| - 1, e, w).1, key);
    }
  }
}
