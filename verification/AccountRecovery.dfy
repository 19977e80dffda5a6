/** The recovery key of an account and recoveries with it: write-once columns, hybrid proofs,
    the seven-day cooldown and the ten-minute freshness, over every interleaving of the
    handlers' statements. Times are microseconds; signed timestamps are seconds. */
module AccountRecovery {
  import opened Bytes

  const HYBRID_RECOVERY_KEY_LEN: nat := 32 + 1952
  const MAX_BACKUP_BYTES: nat := 256 * 1024
  const MAX_SKEW_SECS: nat := 600
  const MICROS: nat := 1_000_000
  const COOLDOWN: nat := 7 * 24 * 3600 * MICROS

  type HybridKey = k: Bytes | |k| == HYBRID_RECOVERY_KEY_LEN witness seq(HYBRID_RECOVERY_KEY_LEN, _ => 0)

  function Ed(k: HybridKey): Bytes { k[..32] }

  function Mldsa(k: HybridKey): Bytes { k[32..] }

  /** The columns of `users`. The address is `identity_public_key`. */
  datatype Account = Account(ed: Option<Bytes>, mldsa: Option<Bytes>, address: Option<Bytes>, lastRecovery: Option<nat>)

  datatype Setup = Setup(key: Bytes, signature: Bytes, timestamp: int, backup: nat)

  /** A device to be registered: its id, its verifying key and its identity key. */
  datatype Device = Device(id: Bytes, verifyingKey: Bytes, identity: Bytes)

  datatype Claim = Claim(key: Bytes, timestamp: int, signature: Bytes, device: Device)

  /** Two rows of `devices` that the table does not hold together: the id is its primary key and
      the identity key is unique. */
  predicate Clash(d: Device, e: Device) {
    d.id == e.id || d.identity == e.identity
  }

  predicate Taken(devices: set<Device>, d: Device) {
    exists e | e in devices :: Clash(d, e)
  }

  /** Hybrid verification over (key, message, signature), and the two signed messages; a
      message that cannot be built is none. */
  datatype Scheme = Scheme(
    verify: (Bytes, Bytes, Bytes) -> bool,
    setupMessage: (int, Bytes) -> Option<Bytes>,
    claimMessage: (Bytes, int, Device) -> Option<Bytes>)

  datatype Error =
    | NotHybrid | Expired | BadMessage | BadSignature | BackupTooLarge | AlreadySet | TriggerRaised
    | NotSetUp | Cooldown | WrongKey | NotFresh | DeviceTaken

  function Seconds(t: nat): nat {
    t / MICROS
  }

  predicate Fresh(timestamp: int, now: nat) {
    Seconds(now) - timestamp <= MAX_SKEW_SECS && timestamp - Seconds(now) <= MAX_SKEW_SECS
  }

  // ------------------------------------------------------------------------
  // Setup
  // ------------------------------------------------------------------------

  /** What a setup must satisfy before the account is looked at. */
  function CheckSetup(s: Scheme, q: Setup, now: nat): Option<Error> {
    if |q.key| != HYBRID_RECOVERY_KEY_LEN then Some(NotHybrid)
    else if !Fresh(q.timestamp, now) then Some(Expired)
    else
      match s.setupMessage(q.timestamp, q.key)
      case None => Some(BadMessage)
      case Some(message) =>
        if !s.verify(q.key, message, q.signature) then Some(BadSignature)
        else if q.backup > MAX_BACKUP_BYTES then Some(BackupTooLarge)
        else None
  }

  /** A signed time within ten minutes of the clock, either way. */
  ghost predicate WithinTenMinutes(timestamp: int, now: nat) {
    -600 <= timestamp - now / 1_000_000 <= 600
  }

  /** A setup that is in order: a hybrid key, a time within ten minutes, a message that can be
      built and that both halves signed, and a backup of at most 256 KiB. */
  ghost predicate SetupInOrder(s: Scheme, q: Setup, now: nat) {
    && |q.key| == 1984 && WithinTenMinutes(q.timestamp, now)
    && s.setupMessage(q.timestamp, q.key).Some?
    && s.verify(q.key, s.setupMessage(q.timestamp, q.key).value, q.signature)
    && q.backup <= 262_144
  }

  lemma SetupCheckIs(s: Scheme, q: Setup, now: nat)
    ensures CheckSetup(s, q, now).None? <==> SetupInOrder(s, q, now)
  {
  }

  predicate Changes(old_: Option<Bytes>, new_: Bytes) {
    old_.Some? && old_.value != new_
  }

  /** The setup's update. `read` is the account as the setup read it, `row` as the update meets
      it; the column triggers refuse a change of a key that is set. */
  function SetupFrom(read: Account, row: Account, key: HybridKey): Result<Account, Error> {
    if read.ed.Some? && read.ed.value == Ed(key) && read.mldsa == Some(Mldsa(key)) then Ok(row)
    else if read.ed.Some? && read.ed.value == Ed(key) && read.mldsa.None? then
      Ok(if row.mldsa.None? then row.(mldsa := Some(Mldsa(key))) else row)
    else if read.ed.Some? then Err(AlreadySet)
    else if Changes(row.ed, Ed(key)) || Changes(row.mldsa, Mldsa(key)) then Err(TriggerRaised)
    else Ok(row.(ed := Some(Ed(key)), mldsa := Some(Mldsa(key)), address := Some(Ed(key))))
  }

  // ------------------------------------------------------------------------
  // Recovery
  // ------------------------------------------------------------------------

  /** The refusal of a recovery claim, if any. */
  function CheckClaim(s: Scheme, a: Account, c: Claim, now: nat): Option<Error> {
    if |c.key| != HYBRID_RECOVERY_KEY_LEN then Some(NotHybrid)
    else if a.ed.None? then Some(NotSetUp)
    else if a.lastRecovery.Some? && now - a.lastRecovery.value < COOLDOWN then Some(Error.Cooldown)
    else if Ed(c.key) != a.ed.value then Some(WrongKey)
    else if a.mldsa.Some? && a.mldsa.value != Mldsa(c.key) then Some(WrongKey)
    else if !Fresh(c.timestamp, now) || (a.lastRecovery.Some? && c.timestamp <= Seconds(a.lastRecovery.value)) then
      Some(NotFresh)
    else
      match s.claimMessage(c.key, c.timestamp, c.device)
      case None => Some(BadMessage)
      case Some(message) => if !s.verify(c.key, message, c.signature) then Some(BadSignature) else None
  }

  /** A claim that is in order: a hybrid key whose halves are the stored ones, where set, with the
      Ed25519 half set; seven days since the last recovery; a time within ten minutes and after
      that recovery; and a message, naming the device, that both halves signed. */
  ghost predicate ClaimInOrder(s: Scheme, a: Account, c: Claim, now: nat) {
    && |c.key| == 1984 && a.ed == Some(c.key[..32]) && (a.mldsa.Some? ==> a.mldsa.value == c.key[32..])
    && (a.lastRecovery.Some? ==>
          now - a.lastRecovery.value >= 7 * 24 * 3600 * 1_000_000 && c.timestamp > a.lastRecovery.value / 1_000_000)
    && WithinTenMinutes(c.timestamp, now)
    && s.claimMessage(c.key, c.timestamp, c.device).Some?
    && s.verify(c.key, s.claimMessage(c.key, c.timestamp, c.device).value, c.signature)
  }

  lemma ClaimCheckIs(s: Scheme, a: Account, c: Claim, now: nat)
    ensures CheckClaim(s, a, c, now).None? <==> ClaimInOrder(s, a, c, now)
  {
  }

  /** The guarded update that completes a key; it changes nothing once the half is set. */
  function Upgrade(row: Account, key: HybridKey): Account {
    if row.mldsa.None? then row.(mldsa := Some(Mldsa(key))) else row
  }

  class User {
    var account: Account
    var devices: set<Device> // every device row, of any account, active or not

    constructor (registered: Account, devices: set<Device>)
      ensures account == registered && this.devices == devices
    {
      account := registered;
      this.devices := devices;
    }

    /** One setup that meets no other request. It is accepted exactly when it is in order and the
        stored halves, where set, are its own; then both halves are stored, and the address if
        there was no key. */
    method SetRecoveryKey(s: Scheme, q: Setup, now: nat) returns (error: Option<Error>)
      modifies this
      ensures devices == old(devices)
      ensures error.Some? ==> account == old(account)
      ensures error.None? <==>
              && SetupInOrder(s, q, now)
              && (old(account.ed).Some? ==> old(account.ed).value == q.key[..32])
              && (old(account.mldsa).Some? ==> old(account.mldsa).value == q.key[32..])
      ensures error.None? ==> account.ed == Some(q.key[..32]) && account.mldsa == Some(q.key[32..])
      ensures error.None? ==> account.lastRecovery == old(account.lastRecovery)
      ensures error.None? ==>
                account.address == if old(account.ed).None? then Some(q.key[..32]) else old(account.address)
    {
      error := CheckSetup(s, q, now);
      if error.Some? {
        return;
      }
      var r := SetupFrom(account, account, q.key);
      if r.Err? {
        return Some(r.error);
      }
      account := r.value;
    }

    /** One recovery that meets no other request: verified at `now`, its device registered,
        marked at `then_`. A refused claim changes nothing. A claim whose device is taken is not
        marked: it has completed the key, and no cooldown starts. */
    method Recover(s: Scheme, c: Claim, now: nat, then_: nat) returns (error: Option<Error>)
      requires now <= then_
      modifies this
      ensures !ClaimInOrder(s, old(account), c, now) ==>
                error.Some? && error != Some(DeviceTaken) && account == old(account) && devices == old(devices)
      ensures ClaimInOrder(s, old(account), c, now) ==>
                && (error == if exists d | d in old(devices) :: d.id == c.device.id || d.identity == c.device.identity
                             then Some(DeviceTaken) else None)
                && account.ed == old(account.ed) && account.mldsa == Some(c.key[32..])
                && account.address == old(account.address)
                && account.lastRecovery == (if error.None? then Some(then_) else old(account.lastRecovery))
                && devices == (if error.None? then old(devices) + {c.device} else old(devices))
    {
      error := CheckClaim(s, account, c, now);
      if error.Some? {
        return;
      }
      account := Upgrade(account, c.key);
      if Taken(devices, c.device) {
        return Some(DeviceTaken);
      }
      devices := devices + {c.device};
      account := account.(lastRecovery := Some(then_));
    }
  }

  // ------------------------------------------------------------------------
  // Every interleaving
  // ------------------------------------------------------------------------

  /** A key both halves of which signed a message, the time in the message, and when it was
      checked. */
  datatype Proof = Proof(key: Bytes, message: Bytes, signature: Bytes, timestamp: int, checkedAt: nat)

  /** How far a running recovery has come: verified, its key completed, its device registered. */
  datatype Stage = Verified | Completed | Registered

  /** A running recovery: when it was verified, and how many recoveries were complete then. */
  datatype Pending = Pending(claim: Claim, verifiedAt: nat, seen: nat, stage: Stage)

  datatype Recovery = Recovery(claim: Claim, verifiedAt: nat, seen: nat, markedAt: nat)

  /** `own` are the devices that recoveries of this account registered, which go only with the
      account; `elsewhere` are all other rows of the device table. */
  datatype State = State(
    account: Account,
    own: set<Device>,
    elsewhere: set<Device>,
    clock: nat,
    setups: map<nat, (HybridKey, Account)>,
    pending: map<nat, Pending>,
    proofs: seq<Proof>,
    done: seq<Recovery>)

  datatype Action =
    | ReadSetup(id: nat, setup: Setup, now: nat)
    | WriteSetup(id: nat)
    | Verify(id: nat, claim: Claim, now: nat)
    | Complete(id: nat)
    | CreateDevice(id: nat)
    | Elsewhere(devices: set<Device>) // other requests register and delete devices
    | Mark(id: nat, now: nat)

  function DoReadSetup(s: Scheme, st: State, id: nat, q: Setup, now: nat): State
    requires CheckSetup(s, q, now).None?
  {
    st.(clock := now, setups := st.setups[id := (q.key, st.account)],
        proofs := st.proofs + [Proof(q.key, s.setupMessage(q.timestamp, q.key).value, q.signature, q.timestamp, now)])
  }

  function DoVerify(s: Scheme, st: State, id: nat, c: Claim, now: nat): State
    requires CheckClaim(s, st.account, c, now).None?
  {
    st.(clock := now, pending := st.pending[id := Pending(c, now, |st.done|, Verified)],
        proofs := st.proofs + [Proof(c.key, s.claimMessage(c.key, c.timestamp, c.device).value, c.signature, c.timestamp, now)])
  }

  /** The plain insert: a row that clashes fails the request, which never reaches its mark. */
  function DoCreate(st: State, id: nat): State
    requires id in st.pending
  {
    var d := st.pending[id].claim.device;
    if Taken(st.own + st.elsewhere, d) then st.(pending := st.pending - {id})
    else st.(own := st.own + {d}, pending := st.pending[id := st.pending[id].(stage := Registered)])
  }

  function DoMark(st: State, id: nat, now: nat): State
    requires id in st.pending
  {
    var p := st.pending[id];
    st.(clock := now, account := st.account.(lastRecovery := Some(now)), pending := st.pending - {id},
        done := st.done + [Recovery(p.claim, p.verifiedAt, p.seen, now)])
  }

  /** One statement of some handler; the clock never goes back. */
  function Step(s: Scheme, st: State, a: Action): State {
    match a
    case ReadSetup(id, q, now) =>
      if id !in st.setups && now >= st.clock && CheckSetup(s, q, now).None? then DoReadSetup(s, st, id, q, now) else st
    case WriteSetup(id) =>
      if id !in st.setups then st
      else
        var (key, read) := st.setups[id];
        var r := SetupFrom(read, st.account, key);
        st.(account := if r.Ok? then r.value else st.account, setups := st.setups - {id})
    case Verify(id, c, now) =>
      if id !in st.pending && now >= st.clock && CheckClaim(s, st.account, c, now).None?
      then DoVerify(s, st, id, c, now) else st
    case Complete(id) =>
      if id in st.pending && st.pending[id].stage == Verified && |st.pending[id].claim.key| == HYBRID_RECOVERY_KEY_LEN
      then st.(account := Upgrade(st.account, st.pending[id].claim.key),
               pending := st.pending[id := st.pending[id].(stage := Completed)])
      else st
    case CreateDevice(id) =>
      if id in st.pending && st.pending[id].stage == Completed then DoCreate(st, id) else st
    case Elsewhere(devices) =>
      if forall d | d in devices :: !Taken(st.own, d) then st.(elsewhere := devices) else st
    case Mark(id, now) =>
      if id in st.pending && st.pending[id].stage == Registered && now >= st.clock then DoMark(st, id, now) else st
  }

  function Begin(a: Account): State {
    State(a, {}, {}, if a.lastRecovery.Some? then a.lastRecovery.value else 0, map[], map[], [], [])
  }

  function Run(s: Scheme, a: Account, actions: seq<Action>): State {
    if actions == [] then Begin(a) else Step(s, Run(s, a, actions[..|actions| - 1]), actions[|actions| - 1])
  }

  /** The table's constraint: an ML-DSA half completes an Ed25519 half. */
  ghost predicate Constrained(a: Account) {
    a.mldsa.Some? ==> a.ed.Some?
  }

  ghost predicate Kept(before: Option<Bytes>, after: Option<Bytes>) {
    before.Some? ==> after == before
  }

  /** The two halves of the key go from empty to one value and never change. */
  ghost predicate KeyKept(before: Account, after: Account) {
    Kept(before.ed, after.ed) && Kept(before.mldsa, after.mldsa)
  }

  /** The address of an account that began as `a`: its old one until this code sets its key, and
      then the Ed25519 half of that key. */
  ghost function AddressSince(a: Account, ed: Option<Bytes>): Option<Bytes> {
    if a.ed.Some? || ed.None? then a.address else ed
  }

  ghost predicate Proved(proofs: seq<Proof>, key: Bytes) {
    exists i :: 0 <= i < |proofs| && proofs[i].key == key
  }

  ghost predicate ProofsVerify(s: Scheme, proofs: seq<Proof>) {
    forall i | 0 <= i < |proofs| ::
      && s.verify(proofs[i].key, proofs[i].message, proofs[i].signature)
      && WithinTenMinutes(proofs[i].timestamp, proofs[i].checkedAt)
  }

  /** The running handlers hold proved keys; a setup that read an empty account may find it
      set, and a verified claim matches the stored Ed25519 key. */
  ghost predicate HandlersProved(st: State) {
    && (forall id | id in st.setups ::
          && Proved(st.proofs, st.setups[id].0)
          && Kept(st.setups[id].1.ed, st.account.ed))
    && (forall id | id in st.pending ::
          && |st.pending[id].claim.key| == HYBRID_RECOVERY_KEY_LEN && Proved(st.proofs, st.pending[id].claim.key)
          && st.account.ed == Some(Ed(st.pending[id].claim.key)))
  }

  /** Whatever this code wrote, since the account was `a`, both halves of the stored key
      signed for. */
  ghost predicate WritesProved(a: Account, st: State) {
    && KeyKept(a, st.account) && Constrained(st.account)
    && st.account.address == AddressSince(a, st.account.ed)
    && (st.account.ed != a.ed || st.account.mldsa != a.mldsa ==>
          st.account.ed.Some? && st.account.mldsa.Some? && Proved(st.proofs, st.account.ed.value + st.account.mldsa.value))
  }

  /** A setup that read no key ran on an account that began without one. */
  ghost predicate SetupsReadSince(a: Account, st: State) {
    forall id | id in st.setups :: Kept(a.ed, st.setups[id].1.ed)
  }

  ghost predicate Valid(s: Scheme, a: Account, st: State) {
    ProofsVerify(s, st.proofs) && HandlersProved(st) && WritesProved(a, st) && SetupsReadSince(a, st)
  }

  lemma ProvedGrows(proofs: seq<Proof>, p: Proof)
    ensures Proved(proofs + [p], p.key)
    ensures forall k :: Proved(proofs, k) ==> Proved(proofs + [p], k)
  {
    assert (proofs + [p])[|proofs|] == p;
    forall k | Proved(proofs, k)
      ensures Proved(proofs + [p], k)
    {
      var i :| 0 <= i < |proofs| && proofs[i].key == k;
      assert (proofs + [p])[i].key == k;
    }
  }

  lemma ReadSetupKeeps(s: Scheme, a: Account, st: State, id: nat, q: Setup, now: nat)
    requires Valid(s, a, st) && CheckSetup(s, q, now).None?
    ensures Valid(s, a, DoReadSetup(s, st, id, q, now))
  {
    ProvedGrows(st.proofs, Proof(q.key, s.setupMessage(q.timestamp, q.key).value, q.signature, q.timestamp, now));
  }

  lemma VerifyKeeps(s: Scheme, a: Account, st: State, id: nat, c: Claim, now: nat)
    requires Valid(s, a, st) && CheckClaim(s, st.account, c, now).None?
    ensures Valid(s, a, DoVerify(s, st, id, c, now))
  {
    ProvedGrows(st.proofs, Proof(c.key, s.claimMessage(c.key, c.timestamp, c.device).value, c.signature, c.timestamp, now));
  }

  /** A setup's update, whatever happened since it read: no set half of the key changes, and if
      a half is written, the stored key is the setup's key. */
  lemma SetupWritesItsKey(read: Account, row: Account, key: HybridKey)
    requires Kept(read.ed, row.ed) && SetupFrom(read, row, key).Ok?
    ensures var after := SetupFrom(read, row, key).value;
            && KeyKept(row, after)
            && ((after.ed == row.ed && after.mldsa == row.mldsa)
                || (after.ed.Some? && after.mldsa.Some? && after.ed.value + after.mldsa.value == key))
  {
    assert Ed(key) + Mldsa(key) == key;
  }

  /** A late setup is accepted exactly when the key it read, where set, is its own and, if it read
      none, no set half would change. An accepted one changes no more than the three columns. */
  lemma SetupAccepted(read: Account, row: Account, key: HybridKey)
    ensures var r := SetupFrom(read, row, key);
            && (r.Ok? <==>
                if read.ed.Some? then read.ed.value == key[..32] && (read.mldsa.Some? ==> read.mldsa.value == key[32..])
                else (row.ed.Some? ==> row.ed.value == key[..32]) && (row.mldsa.Some? ==> row.mldsa.value == key[32..]))
            && (r.Ok? ==> r.value.lastRecovery == row.lastRecovery)
            && (r.Ok? && read.ed.None? ==>
                  r.value.ed == Some(key[..32]) && r.value.mldsa == Some(key[32..]) && r.value.address == Some(key[..32]))
            && (r.Ok? && read.ed.Some? ==>
                  && r.value.ed == row.ed && r.value.address == row.address
                  && r.value.mldsa == if read.mldsa.None? && row.mldsa.None? then Some(key[32..]) else row.mldsa)
  {
  }

  /** A setup changes an address that is set exactly when it read no key and the address is not
      its Ed25519 half: nothing guards that column. */
  lemma SetupChangesAddress(read: Account, row: Account, key: HybridKey)
    requires SetupFrom(read, row, key).Ok?
    ensures !Kept(row.address, SetupFrom(read, row, key).value.address) <==>
            read.ed.None? && row.address.Some? && row.address.value != Ed(key)
  {
  }

  lemma WriteSetupKeeps(s: Scheme, a: Account, st: State, id: nat)
    requires Valid(s, a, st) && id in st.setups
    ensures var st' := Step(s, st, WriteSetup(id)); Valid(s, a, st') && KeyKept(st.account, st'.account)
  {
    var (key, read) := st.setups[id];
    if SetupFrom(read, st.account, key).Ok? {
      SetupWritesItsKey(read, st.account, key);
    }
  }

  lemma CompleteKeeps(s: Scheme, a: Account, st: State, id: nat)
    requires Valid(s, a, st) && id in st.pending
    ensures var st' := Step(s, st, Complete(id)); Valid(s, a, st') && KeyKept(st.account, st'.account)
  {
    var key := st.pending[id].claim.key;
    assert Ed(key) + Mldsa(key) == key;
  }

  lemma StepKeeps(s: Scheme, a: Account, st: State, action: Action)
    requires Valid(s, a, st)
    ensures Valid(s, a, Step(s, st, action)) && KeyKept(st.account, Step(s, st, action).account)
  {
    match action
    case ReadSetup(id, q, now) =>
      if id !in st.setups && now >= st.clock && CheckSetup(s, q, now).None? {
        ReadSetupKeeps(s, a, st, id, q, now);
      }
    case WriteSetup(id) =>
      if id in st.setups {
        WriteSetupKeeps(s, a, st, id);
      }
    case Verify(id, c, now) =>
      if id !in st.pending && now >= st.clock && CheckClaim(s, st.account, c, now).None? {
        VerifyKeeps(s, a, st, id, c, now);
      }
    case Complete(id) =>
      if id in st.pending {
        CompleteKeeps(s, a, st, id);
      }
    case CreateDevice(id) =>
    case Elsewhere(devices) =>
    case Mark(id, now) =>
  }

  lemma {:induction false} RunIsValid(s: Scheme, a: Account, actions: seq<Action>)
    requires Constrained(a)
    ensures Valid(s, a, Run(s, a, actions))
  {
    if actions != [] {
      RunIsValid(s, a, actions[..|actions| - 1]);
      StepKeeps(s, a, Run(s, a, actions[..|actions| - 1]), actions[|actions| - 1]);
    }
  }

  /** The recovery key over every interleaving of setups and recoveries: from any moment on, the
      Ed25519 half and the ML-DSA half each keep the value they have, and whatever was written
      since the start, both halves of the stored key signed for, within ten minutes of the check.
      The address is what it was until
      this code sets the key, and then the Ed25519 half; so an address the account began with is
      kept exactly unless the account began with no key and was given one with another half. */
  lemma RecoveryKeyIsWrittenOnce(s: Scheme, a: Account, earlier: seq<Action>, action: Action)
    requires Constrained(a)
    ensures var st, st' := Run(s, a, earlier), Step(s, Run(s, a, earlier), action);
            && KeyKept(a, st.account) && KeyKept(st.account, st'.account)
            && st.account.address == AddressSince(a, st.account.ed)
            && (Kept(a.address, st.account.address) <==>
                a.address.None? || a.ed.Some? || st.account.ed.None? || st.account.ed == a.address)
            && (st.account.ed != a.ed || st.account.mldsa != a.mldsa ==>
                  && st.account.ed.Some? && st.account.mldsa.Some?
                  && exists i :: 0 <= i < |st.proofs| && st.proofs[i].key == st.account.ed.value + st.account.mldsa.value
                                 && s.verify(st.proofs[i].key, st.proofs[i].message, st.proofs[i].signature)
                                 && -600 <= st.proofs[i].timestamp - st.proofs[i].checkedAt / 1_000_000 <= 600)
  {
    RunIsValid(s, a, earlier);
    StepKeeps(s, a, Run(s, a, earlier), action);
  }

  /** The exception is real: an account that has an address and no recovery key gets another
      address with its first key. */
  lemma SetupReplacesAnAddress(s: Scheme, a: Account, q: Setup, now: nat)
    requires a.ed.None? && a.mldsa.None? && a.address.Some? && a.lastRecovery.None?
    requires CheckSetup(s, q, now).None? && a.address.value != Ed(q.key)
    ensures var account := Run(s, a, [] + [ReadSetup(1, q, now)] + [WriteSetup(1)]).account;
            account.address == Some(Ed(q.key)) != a.address
  {
    RunLast(s, a, [], ReadSetup(1, q, now));
    RunLast(s, a, [] + [ReadSetup(1, q, now)], WriteSetup(1));
  }

  /** A setup answered Ok left its Ed25519 half stored; its ML-DSA half too, unless another
      request set that column since this one read it. */
  lemma SetupOkMeansStored(read: Account, row: Account, key: HybridKey)
    requires KeyKept(read, row)
    requires SetupFrom(read, row, key).Ok?
    ensures var after := SetupFrom(read, row, key).value;
            && after.ed == Some(Ed(key)) && after.mldsa.Some?
            && (after.mldsa == Some(Mldsa(key)) || row.mldsa != read.mldsa)
  {
  }

  // ------------------------------------------------------------------------
  // Cooldown and replay
  // ------------------------------------------------------------------------

  /** A recovery verified at `verifiedAt`, when `seen` of the first `n` were complete: a cooldown
      after each of those, and no later than the completion of the others. */
  ghost predicate Placed(done: seq<Recovery>, n: nat, verifiedAt: nat, seen: nat)
    requires n <= |done|
  {
    && seen <= n
    && (forall i | 0 <= i < seen :: verifiedAt - done[i].markedAt >= COOLDOWN)
    && (forall i | seen <= i < n :: verifiedAt <= done[i].markedAt)
  }

  ghost predicate InTimeOrder(done: seq<Recovery>, clock: nat) {
    && (forall i | 0 <= i < |done| :: done[i].markedAt <= clock)
    && (forall i, j | 0 <= i < j < |done| :: done[i].markedAt <= done[j].markedAt)
  }

  ghost predicate PendingPlaced(done: seq<Recovery>, clock: nat, p: Pending) {
    Placed(done, |done|, p.verifiedAt, p.seen) && p.verifiedAt <= clock && Fresh(p.claim.timestamp, p.verifiedAt)
  }

  ghost predicate DonePlaced(done: seq<Recovery>, j: nat)
    requires j < |done|
  {
    && Placed(done, j, done[j].verifiedAt, done[j].seen)
    && done[j].verifiedAt <= done[j].markedAt && Fresh(done[j].claim.timestamp, done[j].verifiedAt)
  }

  /** Times run forward, the last completed recovery is the stored one, and every recovery is
      placed. */
  ghost predicate Spaced(st: State) {
    && InTimeOrder(st.done, st.clock)
    && (st.done != [] ==> st.account.lastRecovery == Some(st.done[|st.done| - 1].markedAt))
    && (forall j: nat | j < |st.done| :: DonePlaced(st.done, j))
    && (forall id | id in st.pending :: PendingPlaced(st.done, st.clock, st.pending[id]))
  }

  lemma VerifyKeepsSpaced(s: Scheme, st: State, id: nat, c: Claim, now: nat)
    requires Spaced(st) && now >= st.clock && CheckClaim(s, st.account, c, now).None?
    ensures Spaced(DoVerify(s, st, id, c, now))
  {
    assert PendingPlaced(st.done, now, Pending(c, now, |st.done|, Verified)) by {
      forall i | 0 <= i < |st.done|
        ensures now - st.done[i].markedAt >= COOLDOWN
      {
        assert st.done[i].markedAt <= st.done[|st.done| - 1].markedAt;
      }
    }
  }

  lemma PlacedStays(done: seq<Recovery>, r: Recovery, n: nat, verifiedAt: nat, seen: nat)
    requires n <= |done| && Placed(done, n, verifiedAt, seen)
    ensures Placed(done + [r], n, verifiedAt, seen)
    ensures n == |done| && verifiedAt <= r.markedAt ==> Placed(done + [r], n + 1, verifiedAt, seen)
  {
  }

  lemma MarkKeepsSpaced(st: State, id: nat, now: nat)
    requires Spaced(st) && now >= st.clock && id in st.pending
    ensures Spaced(DoMark(st, id, now))
  {
    var st' := DoMark(st, id, now);
    var r := st'.done[|st.done|];
    forall j: nat | j < |st'.done|
      ensures DonePlaced(st'.done, j)
    {
      if j < |st.done| {
        assert DonePlaced(st.done, j);
        PlacedStays(st.done, r, j, st.done[j].verifiedAt, st.done[j].seen);
      } else {
        PlacedStays(st.done, r, j, r.verifiedAt, r.seen);
      }
    }
    forall other | other in st'.pending
      ensures PendingPlaced(st'.done, st'.clock, st'.pending[other])
    {
      PlacedStays(st.done, r, |st.done|, st.pending[other].verifiedAt, st.pending[other].seen);
    }
  }

  lemma {:induction false} RunIsSpaced(s: Scheme, a: Account, actions: seq<Action>)
    ensures Spaced(Run(s, a, actions))
  {
    if actions != [] {
      RunIsSpaced(s, a, actions[..|actions| - 1]);
      StepKeepsSpaced(s, Run(s, a, actions[..|actions| - 1]), actions[|actions| - 1]);
    }
  }

  /** A statement that completes no recovery and verifies none leaves the spacing alone. */
  lemma OthersKeepSpaced(st: State, st': State)
    requires Spaced(st)
    requires st'.done == st.done && st'.clock >= st.clock && st'.account.lastRecovery == st.account.lastRecovery
    requires forall id | id in st'.pending ::
               id in st.pending && st'.pending[id] == st.pending[id].(stage := st'.pending[id].stage)
    ensures Spaced(st')
  {
  }

  lemma StepKeepsSpaced(s: Scheme, st: State, action: Action)
    requires Spaced(st)
    ensures Spaced(Step(s, st, action))
  {
    match action
    case Verify(id, c, now) =>
      if id !in st.pending && now >= st.clock && CheckClaim(s, st.account, c, now).None? {
        VerifyKeepsSpaced(s, st, id, c, now);
      }
    case Mark(id, now) =>
      if id in st.pending && st.pending[id].stage == Registered && now >= st.clock {
        MarkKeepsSpaced(st, id, now);
      }
    case _ => OthersKeepSpaced(st, Step(s, st, action));
  }

  // Each completed recovery has registered its claim's device, and the device table takes a
  // device once.

  ghost predicate HasDevice(own: set<Device>, p: Pending) {
    p.stage == Registered ==> p.claim.device in own
  }

  /** The registered devices do not clash; each completed recovery and each one about to be marked
      has one of its own. */
  ghost predicate DevicesOnce(st: State) {
    && (forall d, e | d in st.own && e in st.own && d != e :: !Clash(d, e))
    && (forall i | 0 <= i < |st.done| :: st.done[i].claim.device in st.own)
    && (forall id | id in st.pending :: HasDevice(st.own, st.pending[id]))
    && (forall i, j | 0 <= i < j < |st.done| :: st.done[i].claim.device != st.done[j].claim.device)
    && (forall id, i | id in st.pending && st.pending[id].stage == Registered && 0 <= i < |st.done| ::
          st.done[i].claim.device != st.pending[id].claim.device)
    && (forall id, other | id in st.pending && other in st.pending && id != other
          && st.pending[id].stage == Registered && st.pending[other].stage == Registered ::
          st.pending[id].claim.device != st.pending[other].claim.device)
  }

  lemma CreateKeepsDevices(st: State, id: nat)
    requires DevicesOnce(st) && id in st.pending && st.pending[id].stage == Completed
    ensures DevicesOnce(DoCreate(st, id))
  {
    var d := st.pending[id].claim.device;
    if !Taken(st.own + st.elsewhere, d) {
      assert forall e | e in st.own :: e in st.own + st.elsewhere && !Clash(d, e);
      assert d !in st.own;
    }
  }

  lemma MarkKeepsDevices(st: State, id: nat, now: nat)
    requires DevicesOnce(st) && id in st.pending && st.pending[id].stage == Registered
    ensures DevicesOnce(DoMark(st, id, now))
  {
    assert HasDevice(st.own, st.pending[id]);
  }

  lemma StepKeepsDevices(s: Scheme, st: State, action: Action)
    requires DevicesOnce(st)
    ensures DevicesOnce(Step(s, st, action))
  {
    match action
    case CreateDevice(id) =>
      if id in st.pending && st.pending[id].stage == Completed {
        CreateKeepsDevices(st, id);
      }
    case Mark(id, now) =>
      if id in st.pending && st.pending[id].stage == Registered && now >= st.clock {
        MarkKeepsDevices(st, id, now);
      }
    case _ =>
  }

  lemma {:induction false} RunKeepsDevices(s: Scheme, a: Account, actions: seq<Action>)
    ensures DevicesOnce(Run(s, a, actions))
  {
    if actions != [] {
      RunKeepsDevices(s, a, actions[..|actions| - 1]);
      StepKeepsDevices(s, Run(s, a, actions[..|actions| - 1]), actions[|actions| - 1]);
    }
  }

  /** One signed claim recovers at most once in every run, whatever overlaps: two recoveries
      registered different devices, with different ids and different identity keys. */
  lemma ClaimRecoversOnce(s: Scheme, a: Account, actions: seq<Action>, i: nat, j: nat)
    requires i < j < |Run(s, a, actions).done|
    ensures var done := Run(s, a, actions).done;
            && done[i].claim.device.id != done[j].claim.device.id
            && done[i].claim.device.identity != done[j].claim.device.identity
            && done[i].claim != done[j].claim
  {
    RunKeepsDevices(s, a, actions);
  }

  /** Over every run: two recoveries of one account are at least seven days apart exactly when
      the later was verified after the earlier was complete, and then the later claim was signed
      later. In either case they are two claims. */
  lemma RecoveriesAreApart(s: Scheme, a: Account, actions: seq<Action>, i: nat, j: nat)
    requires i < j < |Run(s, a, actions).done|
    ensures var done := Run(s, a, actions).done;
            && (done[j].verifiedAt - done[i].markedAt >= COOLDOWN <==> i < done[j].seen)
            && (i < done[j].seen ==> done[i].claim.timestamp < done[j].claim.timestamp)
            && done[i].claim != done[j].claim
  {
    RunIsSpaced(s, a, actions);
    ClaimRecoversOnce(s, a, actions, i, j);
    var done := Run(s, a, actions).done;
    assert DonePlaced(done, i) && DonePlaced(done, j);
    if i < done[j].seen {
      FreshWindowsAreDisjoint(done[i].claim.timestamp, done[i].verifiedAt, done[j].claim.timestamp, done[j].verifiedAt);
    }
  }

  /** A claim fresh at one moment is older than any claim fresh seven days later. */
  lemma FreshWindowsAreDisjoint(ts: int, now: nat, ts': int, now': nat)
    requires now' - now >= COOLDOWN && Fresh(ts, now) && Fresh(ts', now')
    ensures ts < ts'
  {
    assert Seconds(now') >= Seconds(now) + 7 * 24 * 3600;
  }

  /** Nothing completed or verified before the account's stored recovery was a cooldown old. */
  ghost predicate AfterStored(last: nat, st: State) {
    && last <= st.clock
    && (st.done == [] ==> st.account.lastRecovery == Some(last))
    && (forall i | 0 <= i < |st.done| ::
          st.done[i].verifiedAt - last >= COOLDOWN && st.done[i].claim.timestamp > Seconds(last))
    && (forall id | id in st.pending ::
          st.pending[id].verifiedAt - last >= COOLDOWN && st.pending[id].claim.timestamp > Seconds(last))
  }

  lemma StepKeepsAfterStored(s: Scheme, last: nat, st: State, action: Action)
    requires Spaced(st) && AfterStored(last, st)
    ensures AfterStored(last, Step(s, st, action))
  {
    if action.Verify? && st.done != [] {
      var i: nat := |st.done| - 1;
      assert DonePlaced(st.done, i);
      assert last <= st.done[i].markedAt && Seconds(last) <= Seconds(st.done[i].markedAt);
    }
  }

  lemma {:induction false} RunIsAfterStored(s: Scheme, a: Account, actions: seq<Action>)
    requires a.lastRecovery.Some?
    ensures AfterStored(a.lastRecovery.value, Run(s, a, actions))
  {
    if actions != [] {
      RunIsAfterStored(s, a, actions[..|actions| - 1]);
      RunIsSpaced(s, a, actions[..|actions| - 1]);
      StepKeepsAfterStored(s, a.lastRecovery.value, Run(s, a, actions[..|actions| - 1]), actions[|actions| - 1]);
    }
  }

  /** Every recovery of a run, overlapping ones too, is at least seven days after the recovery the
      account began with, and its claim was signed after that. */
  lemma RecoveriesAreAfterTheStored(s: Scheme, a: Account, actions: seq<Action>, i: nat)
    requires a.lastRecovery.Some? && i < |Run(s, a, actions).done|
    ensures var r := Run(s, a, actions).done[i];
            r.verifiedAt - a.lastRecovery.value >= COOLDOWN && r.claim.timestamp > Seconds(a.lastRecovery.value)
  {
    RunIsAfterStored(s, a, actions);
  }

  /** With each recovery complete before the next is verified, all recoveries are seven days
      apart and all their claims differ. */
  lemma RecoveriesOneAtATime(s: Scheme, a: Account, actions: seq<Action>)
    requires forall j | 0 <= j < |Run(s, a, actions).done| :: Run(s, a, actions).done[j].seen == j
    ensures var done := Run(s, a, actions).done;
            forall i, j | 0 <= i < j < |done| ::
              done[j].verifiedAt - done[i].markedAt >= COOLDOWN && done[i].claim != done[j].claim
  {
    var done := Run(s, a, actions).done;
    forall i, j | 0 <= i < j < |done|
      ensures done[j].verifiedAt - done[i].markedAt >= COOLDOWN && done[i].claim != done[j].claim
    {
      RecoveriesAreApart(s, a, actions, i, j);
    }
  }

  lemma RunLast(s: Scheme, a: Account, actions: seq<Action>, action: Action)
    ensures Run(s, a, actions + [action]) == Step(s, Run(s, a, actions), action)
  {
    assert (actions + [action])[..|actions|] == actions;
  }

  /** Recoveries 1 and 2, of claims `c` and `c'`, are running and none is complete. */
  ghost predicate TwoRunning(st: State, c: Claim, c': Claim, now: nat, stage: Stage) {
    && st.pending == map[1 := Pending(c, now, 0, stage), 2 := Pending(c', now, 0, stage)]
    && st.done == [] && st.clock == now && st.elsewhere == {}
  }

  lemma VerifyBoth(s: Scheme, a: Account, c: Claim, c': Claim, now: nat)
    requires a.lastRecovery.None? && CheckClaim(s, a, c, now).None? && CheckClaim(s, a, c', now).None?
    ensures var st := Run(s, a, [] + [Verify(1, c, now)] + [Verify(2, c', now)]);
            TwoRunning(st, c, c', now, Verified) && st.own == {}
  {
    RunLast(s, a, [], Verify(1, c, now));
    RunLast(s, a, [] + [Verify(1, c, now)], Verify(2, c', now));
  }

  lemma CompleteBoth(s: Scheme, st: State, c: Claim, c': Claim, now: nat)
    requires TwoRunning(st, c, c', now, Verified)
    requires |c.key| == HYBRID_RECOVERY_KEY_LEN && |c'.key| == HYBRID_RECOVERY_KEY_LEN
    ensures var st' := Step(s, Step(s, st, Complete(1)), Complete(2));
            TwoRunning(st', c, c', now, Completed) && st'.own == st.own
  {
  }

  lemma RegisterBoth(s: Scheme, st: State, c: Claim, c': Claim, now: nat)
    requires TwoRunning(st, c, c', now, Completed) && st.own == {} && !Clash(c.device, c'.device)
    ensures TwoRunning(Step(s, Step(s, st, CreateDevice(1)), CreateDevice(2)), c, c', now, Registered)
  {
    assert st.own + st.elsewhere == {};
    var st1 := Step(s, st, CreateDevice(1));
    assert st1.own + st1.elsewhere == {c.device};
    assert !Taken(st1.own + st1.elsewhere, c'.device);
  }

  lemma MarkBoth(s: Scheme, st: State, c: Claim, c': Claim, now: nat)
    requires TwoRunning(st, c, c', now, Registered)
    ensures Step(s, Step(s, st, Mark(1, now)), Mark(2, now)).done == [Recovery(c, now, 0, now), Recovery(c', now, 0, now)]
  {
  }

  /** Overlap is the one exception to the spacing, and it is real: two claims for different new
      devices, both verified before either recovery is complete, recover twice at one moment. */
  lemma OverlappingRecoveriesAreNotApart(s: Scheme, a: Account, c: Claim, c': Claim, now: nat)
    requires a.lastRecovery.None? && CheckClaim(s, a, c, now).None? && CheckClaim(s, a, c', now).None?
    requires !Clash(c.device, c'.device)
    ensures Run(s, a, [] + [Verify(1, c, now)] + [Verify(2, c', now)] + [Complete(1)] + [Complete(2)]
                      + [CreateDevice(1)] + [CreateDevice(2)] + [Mark(1, now)] + [Mark(2, now)]).done
         == [Recovery(c, now, 0, now), Recovery(c', now, 0, now)]
  {
    var t2 := [] + [Verify(1, c, now)] + [Verify(2, c', now)];
    var t4 := t2 + [Complete(1)] + [Complete(2)];
    var t6 := t4 + [CreateDevice(1)] + [CreateDevice(2)];
    VerifyBoth(s, a, c, c', now);
    RunLast(s, a, t2, Complete(1));
    RunLast(s, a, t2 + [Complete(1)], Complete(2));
    CompleteBoth(s, Run(s, a, t2), c, c', now);
    RunLast(s, a, t4, CreateDevice(1));
    RunLast(s, a, t4 + [CreateDevice(1)], CreateDevice(2));
    RegisterBoth(s, Run(s, a, t4), c, c', now);
    RunLast(s, a, t6, Mark(1, now));
    RunLast(s, a, t6 + [Mark(1, now)], Mark(2, now));
    MarkBoth(s, Run(s, a, t6), c, c', now);
  }
}
