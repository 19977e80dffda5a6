/** The uploads of signed keys statement by statement: any number of requests for a device, each
    reading the row and later updating it, in any interleaving. */
module SignedPrekeyRuns {
  import opened Bytes
  import opened SignedPrekeys

  /** The signed keys of one request, or its hybrid identity. */
  datatype Request =
    | Keys(spk: Option<SignedPreKey>, spkHybrid: Option<Bytes>, kyber: Option<KyberPreKey>, kyberHybrid: Option<Bytes>,
           now: nat)
    | Identity(upload: HybridUpload)

  /** A request that has read the row. */
  datatype Held = Held(request: Request, read: DeviceRow)

  datatype State = State(row: DeviceRow, held: map<nat, Held>)

  datatype Action =
    | Read(id: nat, request: Request)
    | Write(id: nat)
    | SetActive(active: bool)

  /** The updates of one request. Its first update locks the row until the transaction ends, so
      only what was read before that can be out of date. */
  function Update(c: Crypto, read: DeviceRow, row: DeviceRow, q: Request): Result<DeviceRow, Refusal> {
    match q
    case Identity(u) => StoreHybridFrom(c, read, row, u)
    case Keys(spk, spkHybrid, kyber, kyberHybrid, now) =>
      if spk.None? then
        if kyber.None? then Ok(row) else UploadKyberFrom(c, read, row, kyber.value, kyberHybrid, now)
      else
        match RotateSpkFrom(c, read, row, spk.value, spkHybrid)
        case Err(e) => Err(e)
        case Ok(rotated) =>
          if kyber.None? then Ok(rotated) else UploadKyberFrom(c, rotated, rotated, kyber.value, kyberHybrid, now)
  }

  /** With nothing between read and update, this is what the handlers do. */
  lemma UpdateIsTransaction(
      c: Crypto, row: DeviceRow, spk: Option<SignedPreKey>, spkHybrid: Option<Bytes>,
      kyber: Option<KyberPreKey>, kyberHybrid: Option<Bytes>, now: nat)
    ensures Update(c, row, row, Keys(spk, spkHybrid, kyber, kyberHybrid, now))
         == Transaction(c, row, spk, spkHybrid, kyber, kyberHybrid, now)
  {
  }

  function Step(c: Crypto, st: State, a: Action): State {
    match a
    case Read(id, q) => if id in st.held then st else st.(held := st.held[id := Held(q, st.row)])
    case Write(id) =>
      if id !in st.held then st
      else
        var r := Update(c, st.held[id].read, st.row, st.held[id].request);
        State(if r.Ok? then r.value else st.row, st.held - {id})
    case SetActive(active) => st.(row := st.row.(active := active))
  }

  /** A request's update works on the row of its own moment with what the request read in its, and
      a refused one leaves the row. */
  lemma ReadThenWrite(c: Crypto, st: State, id: nat, q: Request, meanwhile: DeviceRow)
    requires id !in st.held
    ensures var read := Step(c, st, Read(id, q));
            var written := Step(c, read.(row := meanwhile), Write(id));
            var r := Update(c, st.row, meanwhile, q);
            read.row == st.row && written.held == st.held && written.row == if r.Ok? then r.value else meanwhile
  {
  }

  function Run(c: Crypto, row: DeviceRow, actions: seq<Action>): State {
    if actions == [] then State(row, map[])
    else Step(c, Run(c, row, actions[..|actions| - 1]), actions[|actions| - 1])
  }

  /** What a request checked against is still there when its update lands. */
  ghost predicate Undisturbed(c: Crypto, read: DeviceRow, row: DeviceRow, q: Request) {
    match q
    case Identity(u) => !row.active || KeptStillStored(c, read, row, u)
    case Keys(spk, spkHybrid, kyber, kyberHybrid, _) =>
      var signed := if spk.Some? then spkHybrid.Some? else kyber.Some? && kyberHybrid.Some?;
      signed ==> row.hybridKey == read.hybridKey
  }

  /** The action is no update, or a refused one, or an undisturbed one. */
  ghost predicate StepUndisturbed(c: Crypto, st: State, a: Action) {
    a.Write? && a.id in st.held && Update(c, st.held[a.id].read, st.row, st.held[a.id].request).Ok? ==>
      Undisturbed(c, st.held[a.id].read, st.row, st.held[a.id].request)
  }

  // ------------------------------------------------------------------------
  // What holds in every run
  // ------------------------------------------------------------------------

  ghost predicate InTime(q: Request) {
    q.Keys? ==> q.now <= CLOCK_MAX
  }

  ghost predicate KeySized(row: DeviceRow) {
    row.hybridKey.Some? ==> |row.hybridKey.value| == HYBRID_KEY_SIZE
  }

  /** A row of the device `first` is of, in the columns' ranges, with its classic signatures
      valid if those of `first` were. */
  ghost predicate RowFits(c: Crypto, first: DeviceRow, row: DeviceRow) {
    SameDevice(first, row) && TimeFits(row) && KeySized(row) && (ClassicVerifies(c, first) ==> ClassicVerifies(c, row))
  }

  ghost predicate Fits(c: Crypto, first: DeviceRow, st: State) {
    && RowFits(c, first, st.row)
    && forall id | id in st.held :: RowFits(c, first, st.held[id].read) && InTime(st.held[id].request)
  }

  lemma UpdateFits(c: Crypto, first: DeviceRow, read: DeviceRow, row: DeviceRow, q: Request)
    requires RowFits(c, first, read) && RowFits(c, first, row) && InTime(q) && Update(c, read, row, q).Ok?
    ensures RowFits(c, first, Update(c, read, row, q).value)
  {
    if q.Keys? && q.kyber.Some? {
      KyberTimeSurvives(c, row.verifyingKey, q.kyber.value, q.now, Some(KYBER_SPK_MAX_AGE_SECS));
    }
  }

  lemma StepFits(c: Crypto, first: DeviceRow, st: State, a: Action)
    requires Fits(c, first, st) && (a.Read? ==> InTime(a.request))
    ensures Fits(c, first, Step(c, st, a))
  {
    if a.Write? && a.id in st.held {
      var held := st.held[a.id];
      if Update(c, held.read, st.row, held.request).Ok? {
        UpdateFits(c, first, held.read, st.row, held.request);
      }
    }
  }

  ghost predicate ReadsInTime(actions: seq<Action>) {
    forall i | 0 <= i < |actions| && actions[i].Read? :: InTime(actions[i].request)
  }

  lemma {:induction false} RunFits(c: Crypto, row: DeviceRow, actions: seq<Action>)
    requires TimeFits(row) && KeySized(row) && ReadsInTime(actions)
    ensures Fits(c, row, Run(c, row, actions))
  {
    if actions != [] {
      RunFits(c, row, actions[..|actions| - 1]);
      StepFits(c, row, Run(c, row, actions[..|actions| - 1]), actions[|actions| - 1]);
    }
  }

  // ------------------------------------------------------------------------
  // When every served bundle is accepted
  // ------------------------------------------------------------------------

  /** An update of a row whose hybrid signatures verify leaves them so exactly when it is
      undisturbed. */
  lemma UpdateIsRight(c: Crypto, first: DeviceRow, read: DeviceRow, row: DeviceRow, q: Request)
    requires SignsOneThing(c) && RowFits(c, first, read) && RowFits(c, first, row) && InTime(q)
    requires HybridVerifies(c, row) && Update(c, read, row, q).Ok?
    ensures HybridVerifies(c, Update(c, read, row, q).value) <==> Undisturbed(c, read, row, q)
  {
    match q
    case Identity(u) => OverlappedHybridUpload(c, read, row, u);
    case Keys(spk, spkHybrid, kyber, kyberHybrid, now) =>
      if spk.Some? {
        OverlappedRotation(c, read, row, spk.value, spkHybrid);
        if kyber.Some? {
          var rotated := RotateSpkFrom(c, read, row, spk.value, spkHybrid).value;
          KyberTimeSurvives(c, rotated.verifyingKey, kyber.value, now, Some(KYBER_SPK_MAX_AGE_SECS));
        }
      } else if kyber.Some? {
        OverlappedKyberUpload(c, read, row, kyber.value, kyberHybrid, now);
      }
  }

  lemma StepIsRight(c: Crypto, first: DeviceRow, st: State, a: Action)
    requires SignsOneThing(c) && Fits(c, first, st) && HybridVerifies(c, st.row)
    ensures HybridVerifies(c, Step(c, st, a).row) <==> StepUndisturbed(c, st, a)
  {
    if a.Write? && a.id in st.held {
      var held := st.held[a.id];
      if Update(c, held.read, st.row, held.request).Ok? {
        UpdateIsRight(c, first, held.read, st.row, held.request);
      }
    }
  }

  ghost predicate VerifiesThroughout(c: Crypto, row: DeviceRow, actions: seq<Action>) {
    forall i | 0 <= i <= |actions| :: HybridVerifies(c, Run(c, row, actions[..i]).row)
  }

  ghost predicate UndisturbedThroughout(c: Crypto, row: DeviceRow, actions: seq<Action>) {
    forall i | 0 <= i < |actions| :: StepUndisturbed(c, Run(c, row, actions[..i]), actions[i])
  }

  lemma VerifiesLast(c: Crypto, row: DeviceRow, init: seq<Action>, a: Action)
    ensures VerifiesThroughout(c, row, init + [a]) <==>
            VerifiesThroughout(c, row, init) && HybridVerifies(c, Run(c, row, init + [a]).row)
  {
    var actions := init + [a];
    assert forall i | 0 <= i <= |init| :: actions[..i] == init[..i];
    assert actions[..|actions|] == actions;
  }

  lemma UndisturbedLast(c: Crypto, row: DeviceRow, init: seq<Action>, a: Action)
    ensures UndisturbedThroughout(c, row, init + [a]) <==>
            UndisturbedThroughout(c, row, init) && StepUndisturbed(c, Run(c, row, init), a)
  {
    var actions := init + [a];
    assert forall i | 0 <= i < |init| :: actions[..i] == init[..i] && actions[i] == init[i];
    assert actions[..|init|] == init && actions[|init|] == a;
  }

  lemma LastIsRight(c: Crypto, row: DeviceRow, init: seq<Action>, a: Action)
    requires SignsOneThing(c) && TimeFits(row) && KeySized(row) && ReadsInTime(init) && VerifiesThroughout(c, row, init)
    ensures HybridVerifies(c, Run(c, row, init + [a]).row) <==> StepUndisturbed(c, Run(c, row, init), a)
  {
    RunFits(c, row, init);
    assert init[..|init|] == init && (init + [a])[..|init|] == init;
    StepIsRight(c, row, Run(c, row, init), a);
  }

  lemma {:induction false} VerifiesExactlyUndisturbed(c: Crypto, row: DeviceRow, actions: seq<Action>)
    requires SignsOneThing(c) && HybridVerifies(c, row) && TimeFits(row) && ReadsInTime(actions)
    ensures VerifiesThroughout(c, row, actions) <==> UndisturbedThroughout(c, row, actions)
  {
    if actions != [] {
      var init, last := actions[..|actions| - 1], actions[|actions| - 1];
      assert actions == init + [last];
      VerifiesExactlyUndisturbed(c, row, init);
      VerifiesLast(c, row, init, last);
      UndisturbedLast(c, row, init, last);
      if VerifiesThroughout(c, row, init) {
        LastIsRight(c, row, init, last);
      }
    }
  }

  /** A peer accepts the hybrid part of a bundle exactly when the row's hybrid signatures verify. */
  lemma AcceptedIsVerified(c: Crypto, row: DeviceRow)
    requires KeySized(row)
    ensures PeerAcceptsHybrid(c, BundleOf(row)) <==> HybridVerifies(c, row)
    ensures PeerAcceptsClassic(c, BundleOf(row)) <==> ClassicVerifies(c, row)
  {
  }

  /** Over every interleaving of the statements of any number of requests: the bundles served at
      all moments are such that peers accept their hybrid signatures exactly when each update that
      landed was undisturbed; the classic signatures are accepted in any case, if they were at
      first. */
  lemma EveryBundleAccepted(c: Crypto, row: DeviceRow, actions: seq<Action>)
    requires SignsOneThing(c) && HybridVerifies(c, row) && TimeFits(row) && ReadsInTime(actions)
    ensures (forall i | 0 <= i <= |actions| :: PeerAcceptsHybrid(c, BundleOf(Run(c, row, actions[..i]).row))) <==>
            UndisturbedThroughout(c, row, actions)
    ensures ClassicVerifies(c, row) ==>
              forall i | 0 <= i <= |actions| :: PeerAcceptsClassic(c, BundleOf(Run(c, row, actions[..i]).row))
  {
    forall i | 0 <= i <= |actions|
      ensures PeerAcceptsHybrid(c, BundleOf(Run(c, row, actions[..i]).row)) <==> HybridVerifies(c, Run(c, row, actions[..i]).row)
      ensures ClassicVerifies(c, row) ==> PeerAcceptsClassic(c, BundleOf(Run(c, row, actions[..i]).row))
    {
      RunFits(c, row, actions[..i]);
      AcceptedIsVerified(c, Run(c, row, actions[..i]).row);
    }
    VerifiesExactlyUndisturbed(c, row, actions);
  }

  // ------------------------------------------------------------------------
  // How old a stored Kyber key can be
  // ------------------------------------------------------------------------

  ghost predicate Brought(row: DeviceRow, q: Request) {
    && q.Keys? && q.kyber.Some? && MadeInTime(q.kyber.value, q.now)
    && row.kyber == Some(q.kyber.value.publicKey) && row.kyberCreatedAt == Some(q.kyber.value.createdAt)
  }

  ghost predicate WasRead(actions: seq<Action>, q: Request) {
    exists i :: 0 <= i < |actions| && actions[i].Read? && actions[i].request == q
  }

  /** Requests that are held were read, and the row's Kyber key is `first`'s or was brought by a
      request of the run, made in time for the clock that request read. */
  ghost predicate KyberInTime(first: DeviceRow, st: State, actions: seq<Action>) {
    && (forall id | id in st.held :: WasRead(actions, st.held[id].request))
    && ((st.row.kyber == first.kyber && st.row.kyberCreatedAt == first.kyberCreatedAt)
        || exists q :: WasRead(actions, q) && Brought(st.row, q))
  }

  lemma WasReadStill(actions: seq<Action>, a: Action)
    ensures forall q :: WasRead(actions, q) ==> WasRead(actions + [a], q)
    ensures a.Read? ==> WasRead(actions + [a], a.request)
  {
    var more := actions + [a];
    assert more[|actions|] == a;
    forall q | WasRead(actions, q)
      ensures WasRead(more, q)
    {
      var i :| 0 <= i < |actions| && actions[i].Read? && actions[i].request == q;
      assert more[i] == actions[i];
    }
  }

  lemma UpdateBrings(c: Crypto, read: DeviceRow, row: DeviceRow, q: Request)
    requires InTime(q) && Update(c, read, row, q).Ok?
    ensures var row' := Update(c, read, row, q).value;
            (row'.kyber == row.kyber && row'.kyberCreatedAt == row.kyberCreatedAt) || Brought(row', q)
  {
    if q.Keys? && q.kyber.Some? {
      if q.spk.None? {
        KyberUploadAccepted(c, read, row, q.kyber.value, q.kyberHybrid, q.now);
      } else {
        var rotated := RotateSpkFrom(c, read, row, q.spk.value, q.spkHybrid).value;
        KyberUploadAccepted(c, rotated, rotated, q.kyber.value, q.kyberHybrid, q.now);
      }
    }
  }

  lemma StepInTime(c: Crypto, first: DeviceRow, st: State, actions: seq<Action>, a: Action)
    requires KyberInTime(first, st, actions)
    requires forall id | id in st.held :: InTime(st.held[id].request)
    ensures KyberInTime(first, Step(c, st, a), actions + [a])
  {
    WasReadStill(actions, a);
    if a.Write? && a.id in st.held {
      var held := st.held[a.id];
      if Update(c, held.read, st.row, held.request).Ok? {
        UpdateBrings(c, held.read, st.row, held.request);
      }
    }
    var row, row' := st.row, Step(c, st, a).row;
    if row'.kyber == row.kyber && row'.kyberCreatedAt == row.kyberCreatedAt {
      if q :| WasRead(actions, q) && Brought(row, q) {
        assert WasRead(actions + [a], q) && Brought(row', q);
      }
    } else {
      assert Brought(row', st.held[a.id].request);
    }
  }

  /** Over every interleaving, each Kyber key a request stored was at most thirty days old, and not
      more than a day ahead, by the clock that request read. */
  lemma {:induction false} StoredKyberInTime(c: Crypto, row: DeviceRow, actions: seq<Action>)
    requires TimeFits(row) && KeySized(row) && ReadsInTime(actions)
    ensures KyberInTime(row, Run(c, row, actions), actions)
  {
    if actions != [] {
      var init, last := actions[..|actions| - 1], actions[|actions| - 1];
      StoredKyberInTime(c, row, init);
      RunFits(c, row, init);
      StepInTime(c, row, Run(c, row, init), init, last);
      assert actions == init + [last];
    }
  }
}
