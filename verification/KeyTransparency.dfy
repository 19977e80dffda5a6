/** The append-only Key Transparency log and the proofs a bundle carries: the `kt_leaves`
    table, the signed tree head, and the proofs built while other writers append. */
module KeyTransparency {
  import opened Bytes
  import opened MerkleTree

  // ------------------------------------------------------------------------
  // Leaves
  // ------------------------------------------------------------------------

  datatype LeafKind = Identity | Hybrid

  /** A device's key, as the log records it. */
  datatype Entry = Entry(device: Bytes, kind: LeafKind, key: Bytes)

  const IDENTITY_TAG: byte := 0x00
  const HYBRID_TAG: byte := 0x02

  function Tag(kind: LeafKind): byte {
    match kind case Identity => IDENTITY_TAG case Hybrid => HYBRID_TAG
  }

  function LeafInput(e: Entry): Bytes {
    [Tag(e.kind)] + e.device + e.key
  }

  function LeafHash(h: Hash, e: Entry): Digest {
    h(LeafInput(e))
  }

  function LeafInputs(log: seq<Entry>): (inputs: seq<Bytes>)
    ensures |inputs| == |log|
    ensures forall i | 0 <= i < |log| :: inputs[i] == LeafInput(log[i])
  {
    seq(|log|, i requires 0 <= i < |log| => LeafInput(log[i]))
  }

  lemma EntriesAreTagged(log: seq<Entry>)
    ensures Tagged(LeafInputs(log))
    ensures forall i | 0 <= i < |log| :: LeafInputs(log)[i][0] == if log[i].kind == Identity then 0x00 else 0x02
  {
    forall i | 0 <= i < |log|
      ensures LeafInput(log[i]) != [] && LeafInput(log[i])[0] != NODE_TAG
    {
      assert LeafInput(log[i])[0] == Tag(log[i].kind);
    }
  }

  /** A leaf input names its entry exactly when the key lengths agree: nothing in it marks
      where the device id ends. */
  lemma LeafInputNamesEntry(e: Entry, f: Entry)
    ensures e == f <==> LeafInput(e) == LeafInput(f) && |e.key| == |f.key|
    ensures LeafInput(e) == LeafInput(f) <==> e.kind == f.kind && e.device + e.key == f.device + f.key
  {
    assert LeafInput(e) == [Tag(e.kind)] + (e.device + e.key);
    assert LeafInput(f) == [Tag(f.kind)] + (f.device + f.key);
    if LeafInput(e) == LeafInput(f) {
      SplitConcat([Tag(e.kind)], e.device + e.key, [Tag(f.kind)], f.device + f.key);
      assert [Tag(e.kind)][0] == [Tag(f.kind)][0];
      if |e.key| == |f.key| {
        assert |e.device + e.key| == |f.device + f.key|;
        SplitConcat(e.device, e.key, f.device, f.key);
      }
    }
  }

  /** Two different devices with keys of different lengths can share one leaf. */
  lemma LeafInputIsAmbiguous()
    ensures var e, f := Entry([0x61], Identity, [0x62, 0x63]), Entry([0x61, 0x62], Identity, [0x63]);
            e != f && LeafInput(e) == LeafInput(f)
  {
    var e, f := Entry([0x61], Identity, [0x62, 0x63]), Entry([0x61, 0x62], Identity, [0x63]);
    assert LeafInput(e) == [0x00, 0x61, 0x62, 0x63] == LeafInput(f);
  }

  // ------------------------------------------------------------------------
  // The signed tree head
  // ------------------------------------------------------------------------

  /** "ConstructKT-v1" */
  const HEAD_PREFIX: Bytes :=
    [0x43, 0x6f, 0x6e, 0x73, 0x74, 0x72, 0x75, 0x63, 0x74, 0x4b, 0x54, 0x2d, 0x76, 0x31]

  function TreeHeadSignable(size: nat, root: Digest): Bytes {
    HEAD_PREFIX + BigEndian(size, 8) + root
  }

  lemma TreeHeadIsInjective(size: nat, root: Digest, size': nat, root': Digest)
    requires size < Pow256(8) && size' < Pow256(8)
    requires TreeHeadSignable(size, root) == TreeHeadSignable(size', root')
    ensures size == size' && root == root'
  {
    SplitConcat(HEAD_PREFIX + BigEndian(size, 8), root, HEAD_PREFIX + BigEndian(size', 8), root');
    SplitConcat(HEAD_PREFIX, BigEndian(size, 8), HEAD_PREFIX, BigEndian(size', 8));
    BigEndianInjective(size, size', 8);
  }

  /** What a reader makes of the signed bytes: the size and the root, if the prefix is there. */
  function ReadTreeHead(s: Bytes): Option<(nat, Digest)> {
    if |s| == 14 + 8 + 32 && s[..14] == HEAD_PREFIX then Some((FromBigEndian(s[14..22]), s[22..])) else None
  }

  lemma TreeHeadRoundTrip(size: nat, root: Digest)
    requires size < Pow256(8)
    ensures ReadTreeHead(TreeHeadSignable(size, root)) == Some((size, root))
  {
    var s := TreeHeadSignable(size, root);
    BigEndianRoundTrip(size, 8);
    assert s[..14] == HEAD_PREFIX && s[14..22] == BigEndian(size, 8) && s[22..] == root;
  }

  /** One signed tree head commits to one log: the same leaf inputs, or a collision. */
  lemma HeadCommitsToLog(h: Hash, a: seq<Entry>, b: seq<Entry>)
    requires TreeHeadSignable(|a|, LogRoot(h, LeafInputs(a))) == TreeHeadSignable(|b|, LogRoot(h, LeafInputs(b)))
    ensures LeafInputs(a) == LeafInputs(b) || Collides(h, LogCollision(h, LeafInputs(a), LeafInputs(b)))
  {
    EntriesAreTagged(a);
    EntriesAreTagged(b);
    var p, q := HEAD_PREFIX + BigEndian(|a|, 8), HEAD_PREFIX + BigEndian(|b|, 8);
    SplitConcat(p, LogRoot(h, LeafInputs(a)), q, LogRoot(h, LeafInputs(b)));
    RootBindsLog(h, LeafInputs(a), LeafInputs(b));
  }

  // ------------------------------------------------------------------------
  // The kt_leaves table
  // ------------------------------------------------------------------------

  datatype LeafRow = LeafRow(device: Bytes, kind: LeafKind, hash: Digest, treeIndex: nat)

  /** One call of `EnsureLeaf`. */
  datatype Request = Request(device: Bytes, kind: LeafKind, hash: Digest)

  predicate InSeries(row: LeafRow, device: Bytes, kind: LeafKind) {
    row.device == device && row.kind == kind
  }

  /** COALESCE(MAX(tree_index), -1) + 1 */
  function NextIndex(rows: seq<LeafRow>): nat {
    if rows == [] then 0
    else
      var rest := NextIndex(rows[..|rows| - 1]);
      var last := rows[|rows| - 1].treeIndex + 1;
      if last > rest then last else rest
  }

  /** The row of a series with the greatest tree index. */
  function Latest(rows: seq<LeafRow>, device: Bytes, kind: LeafKind): Option<LeafRow> {
    if rows == [] then None
    else
      var rest := Latest(rows[..|rows| - 1], device, kind);
      var last := rows[|rows| - 1];
      if InSeries(last, device, kind) && (rest.None? || last.treeIndex > rest.value.treeIndex) then Some(last)
      else rest
  }

  /** The rows after one locked transaction, and the position it answers. */
  function EnsureLeaf(rows: seq<LeafRow>, q: Request): (seq<LeafRow>, nat) {
    var latest := Latest(rows, q.device, q.kind);
    if latest.Some? && latest.value.hash == q.hash then (rows, latest.value.treeIndex)
    else
      var i := NextIndex(rows);
      (rows + [LeafRow(q.device, q.kind, q.hash, i)], i)
  }

  function InsertByIndex(row: LeafRow, sorted: seq<LeafRow>): seq<LeafRow> {
    if sorted == [] || sorted[|sorted| - 1].treeIndex <= row.treeIndex then sorted + [row]
    else InsertByIndex(row, sorted[..|sorted| - 1]) + [sorted[|sorted| - 1]]
  }

  /** ORDER BY tree_index ASC */
  function OrderByIndex(rows: seq<LeafRow>): seq<LeafRow> {
    if rows == [] then [] else InsertByIndex(rows[|rows| - 1], OrderByIndex(rows[..|rows| - 1]))
  }

  function Hashes(rows: seq<LeafRow>): (leaves: seq<Digest>)
    ensures |leaves| == |rows|
    ensures forall i | 0 <= i < |rows| :: leaves[i] == rows[i].hash
  {
    seq(|rows|, i requires 0 <= i < |rows| => rows[i].hash)
  }

  function AllLeaves(rows: seq<LeafRow>): seq<Digest> {
    Hashes(OrderByIndex(rows))
  }

  /** Positions are exactly 0..n-1, in the order the rows were appended. */
  ghost predicate WellIndexed(rows: seq<LeafRow>) {
    forall i | 0 <= i < |rows| :: rows[i].treeIndex == i
  }

  /** Neighbours within one device's series of one kind differ. */
  ghost predicate SeriesAlternates(rows: seq<LeafRow>) {
    forall i, j | 0 <= i < j < |rows| && InSeries(rows[j], rows[i].device, rows[i].kind)
      && (forall m | i < m < j :: !InSeries(rows[m], rows[i].device, rows[i].kind)) ::
      rows[i].hash != rows[j].hash
  }

  ghost predicate Valid(rows: seq<LeafRow>) {
    WellIndexed(rows) && SeriesAlternates(rows)
  }

  lemma {:induction false} NextIndexIsLength(rows: seq<LeafRow>)
    requires WellIndexed(rows)
    ensures NextIndex(rows) == |rows|
  {
    if rows != [] {
      NextIndexIsLength(rows[..|rows| - 1]);
    }
  }

  lemma {:induction false} LatestIsLast(rows: seq<LeafRow>, device: Bytes, kind: LeafKind)
    requires WellIndexed(rows)
    ensures var r := Latest(rows, device, kind);
            && (r.Some? ==> r.value.treeIndex < |rows| && rows[r.value.treeIndex] == r.value
                            && InSeries(r.value, device, kind)
                            && forall m | r.value.treeIndex < m < |rows| :: !InSeries(rows[m], device, kind))
            && (r.None? ==> forall m | 0 <= m < |rows| :: !InSeries(rows[m], device, kind))
  {
    if rows != [] {
      LatestIsLast(rows[..|rows| - 1], device, kind);
    }
  }

  lemma OrderOfMore(rows: seq<LeafRow>, row: LeafRow)
    requires OrderByIndex(rows) == rows
    requires rows == [] || rows[|rows| - 1].treeIndex <= row.treeIndex
    ensures OrderByIndex(rows + [row]) == rows + [row]
  {
    assert (rows + [row])[..|rows|] == rows;
  }

  lemma {:induction false} OrderIsIdentity(rows: seq<LeafRow>)
    requires WellIndexed(rows)
    ensures OrderByIndex(rows) == rows
  {
    if rows != [] {
      var init, last := rows[..|rows| - 1], rows[|rows| - 1];
      assert rows == init + [last];
      OrderIsIdentity(init);
      OrderOfMore(init, last);
    }
  }

  /** One `EnsureLeaf`: the answered position holds the requested leaf and is the newest of
      its series, no old row moves or changes, and the log invariant is kept. */
  lemma EnsureLeafStep(rows: seq<LeafRow>, q: Request)
    requires Valid(rows)
    ensures var (rows', i) := EnsureLeaf(rows, q);
            && Valid(rows') && rows <= rows' && |rows'| <= |rows| + 1
            && i < |rows'| && rows'[i] == LeafRow(q.device, q.kind, q.hash, i)
            && Latest(rows', q.device, q.kind) == Some(rows'[i])
  {
    NextIndexIsLength(rows);
    LatestIsLast(rows, q.device, q.kind);
    var (rows', i) := EnsureLeaf(rows, q);
    if rows' != rows {
      assert rows'[..|rows'| - 1] == rows;
      forall a, b | 0 <= a < b < |rows'| && InSeries(rows'[b], rows'[a].device, rows'[a].kind)
        && (forall m | a < m < b :: !InSeries(rows'[m], rows'[a].device, rows'[a].kind))
        ensures rows'[a].hash != rows'[b].hash
      {
        if b < |rows| {
          assert rows[a] == rows'[a] && rows[b] == rows'[b];
          assert forall m | a < m < b :: rows[m] == rows'[m];
        } else {
          var latest := Latest(rows, q.device, q.kind);
          assert rows[a] == rows'[a];
          assert a <= latest.value.treeIndex && rows'[latest.value.treeIndex] == latest.value;
        }
      }
      LatestIsLast(rows', q.device, q.kind);
    }
  }

  /** Asking again for a leaf that is already the newest of its series changes nothing. */
  lemma EnsureLeafIsIdempotent(rows: seq<LeafRow>, q: Request)
    requires Valid(rows)
    ensures var (rows', i) := EnsureLeaf(rows, q); EnsureLeaf(rows', q) == (rows', i)
  {
    EnsureLeafStep(rows, q);
  }

  /** The table after any number of locked transactions, whoever made them. */
  function Run(rows: seq<LeafRow>, requests: seq<Request>): seq<LeafRow> {
    if requests == [] then rows
    else EnsureLeaf(Run(rows, requests[..|requests| - 1]), requests[|requests| - 1]).0
  }

  /** The log invariant over every run: positions stay 0..n-1, no old position ever changes,
      neighbours of a series differ. */
  lemma {:induction false} RunKeepsLog(rows: seq<LeafRow>, requests: seq<Request>)
    requires Valid(rows)
    ensures Valid(Run(rows, requests)) && rows <= Run(rows, requests)
  {
    if requests != [] {
      RunKeepsLog(rows, requests[..|requests| - 1]);
      EnsureLeafStep(Run(rows, requests[..|requests| - 1]), requests[|requests| - 1]);
    }
  }

  // ------------------------------------------------------------------------
  // Runs over entries: what a client learns from an accepted proof
  // ------------------------------------------------------------------------

  function RequestFor(h: Hash, e: Entry): Request {
    Request(e.device, e.kind, LeafHash(h, e))
  }

  /** The table after the service ensured each entry in turn, and the entries it appended. */
  ghost function RunEntries(h: Hash, entries: seq<Entry>): (seq<LeafRow>, seq<Entry>) {
    if entries == [] then ([], [])
    else
      var (rows, log) := RunEntries(h, entries[..|entries| - 1]);
      var e := entries[|entries| - 1];
      var rows' := EnsureLeaf(rows, RequestFor(h, e)).0;
      (rows', if rows' == rows then log else log + [e])
  }

  /** A log that gains an entry gains that entry's leaf hash. */
  lemma LeavesGrow(h: Hash, rows: seq<LeafRow>, log: seq<Entry>, e: Entry, i: nat)
    requires Hashes(rows) == LeafHashes(h, LeafInputs(log))
    ensures Hashes(rows + [LeafRow(e.device, e.kind, LeafHash(h, e), i)]) == LeafHashes(h, LeafInputs(log + [e]))
  {
    var row := LeafRow(e.device, e.kind, LeafHash(h, e), i);
    assert Hashes(rows + [row]) == Hashes(rows) + [row.hash];
    assert LeafInputs(log + [e]) == LeafInputs(log) + [LeafInput(e)];
    assert LeafHashes(h, LeafInputs(log) + [LeafInput(e)]) == LeafHashes(h, LeafInputs(log)) + [LeafHash(h, e)];
  }

  /** Row by row, the table is the log: device, kind and leaf hash. */
  ghost predicate IsTableOf(h: Hash, rows: seq<LeafRow>, log: seq<Entry>) {
    && |rows| == |log|
    && forall i | 0 <= i < |log| :: rows[i] == LeafRow(log[i].device, log[i].kind, LeafHash(h, log[i]), i)
  }

  lemma {:induction false} RunEntriesHashes(h: Hash, entries: seq<Entry>)
    ensures var (rows, log) := RunEntries(h, entries);
            Valid(rows) && IsTableOf(h, rows, log) && Hashes(rows) == LeafHashes(h, LeafInputs(log))
  {
    if entries != [] {
      RunEntriesHashes(h, entries[..|entries| - 1]);
      var (rows, log) := RunEntries(h, entries[..|entries| - 1]);
      var e := entries[|entries| - 1];
      EnsureLeafStep(rows, RequestFor(h, e));
      NextIndexIsLength(rows);
      LeavesGrow(h, rows, log, e, NextIndex(rows));
    }
  }

  /** After any run the table is the log of the appended entries, row by row, and its leaves in
      tree order are their hashes. */
  lemma RunEntriesIsLog(h: Hash, entries: seq<Entry>)
    ensures var (rows, log) := RunEntries(h, entries);
            Valid(rows) && IsTableOf(h, rows, log) && AllLeaves(rows) == LeafHashes(h, LeafInputs(log))
  {
    RunEntriesHashes(h, entries);
    OrderIsIdentity(RunEntries(h, entries).0);
  }

  /** The collision a client's accepted proof of an unlogged key gives away. */
  ghost function ClientCollision(h: Hash, log: seq<Entry>, e: Entry, proof: seq<Digest>, index: nat): Collision
    requires index < |log|
  {
    if LeafHash(h, e) == LeafHash(h, log[index]) then Collision(LeafInput(e), LeafInput(log[index]))
    else ProofCollision(h, LeafInputs(log), LeafHash(h, e), proof, index)
  }

  /** End to end, over every run of the service: a proof of a device's key that verifies
      against the table's head shows that very entry in the log (for keys of the length the
      log records at that position), or yields a collision. */
  lemma AcceptedProofMeansLogged(h: Hash, entries: seq<Entry>, e: Entry, proof: seq<Digest>, index: nat)
    requires var leaves := AllLeaves(RunEntries(h, entries).0);
             VerifyInclusion(h, LeafHash(h, e), proof, index, |leaves|, MerkleRoot(h, leaves))
    ensures var log := RunEntries(h, entries).1;
            && index < |log|
            && ((LeafInput(log[index]) == LeafInput(e) && (|e.key| == |log[index].key| ==> log[index] == e))
                || Collides(h, ClientCollision(h, log, e, proof, index)))
  {
    RunEntriesIsLog(h, entries);
    var log := RunEntries(h, entries).1;
    EntriesAreTagged(log);
    InclusionSoundness(h, LeafInputs(log), LeafHash(h, e), proof, index);
    LeafInputNamesEntry(log[index], e);
  }

  // ------------------------------------------------------------------------
  // Building the proofs of a bundle
  // ------------------------------------------------------------------------

  datatype KtProof = KtProof(leafIndex: nat, treeSize: nat, root: Digest, path: seq<Digest>, headSignature: Bytes)

  datatype SignedTreeHead = SignedTreeHead(treeSize: nat, root: Digest, kid: Bytes, signature: Bytes)

  datatype KtProofs = KtProofs(identity: KtProof, hybrid: Option<KtProof>, head: Option<SignedTreeHead>)

  datatype KtError = NoPath(index: nat)

  /** The delegated key: it may refuse to sign, outside its window. */
  datatype HeadSigner = HeadSigner(kid: Bytes, sign: (nat, Digest, int) -> Option<Bytes>)

  function ProofAt(h: Hash, leaves: seq<Digest>, index: nat, sign: Bytes -> Bytes): Result<KtProof, KtError> {
    match GenerateInclusionProof(h, leaves, index)
    case None => Err(NoPath(index))
    case Some((path, root)) =>
      Ok(KtProof(index, |leaves|, root, path, sign(TreeHeadSignable(|leaves|, root))))
  }

  /** The head signed by the delegated key; none without one, or if it cannot sign. */
  function HeadFor(signer: Option<HeadSigner>, size: nat, root: Digest, now: int): Option<SignedTreeHead> {
    if signer.None? then None
    else
      match signer.value.sign(size, root, now)
      case None => None
      case Some(signature) => Some(SignedTreeHead(size, root, signer.value.kid, signature))
  }

  function ProofsFromSnapshot(
      h: Hash, leaves: seq<Digest>, identityIndex: nat, hybridIndex: Option<nat>,
      sign: Bytes -> Bytes, signer: Option<HeadSigner>, now: int): Result<KtProofs, KtError>
  {
    match ProofAt(h, leaves, identityIndex, sign)
    case Err(e) => Err(e)
    case Ok(identity) =>
      var head := HeadFor(signer, |leaves|, identity.root, now);
      match hybridIndex
      case None => Ok(KtProofs(identity, None, head))
      case Some(i) =>
        match ProofAt(h, leaves, i, sign)
        case Err(e) => Err(e)
        case Ok(hybrid) => Ok(KtProofs(identity, Some(hybrid), head))
  }

  /** The head the delegated key signed over this size and root: its own, with its key id, or none
      when there is no such key or it does not sign. */
  ghost predicate HeadSigned(
      head: Option<SignedTreeHead>, size: nat, root: Digest, signer: Option<HeadSigner>, now: int)
  {
    && (head.None? <==> signer.None? || signer.value.sign(size, root, now).None?)
    && (head.Some? && signer.Some? ==>
          && head.value.treeSize == size && head.value.root == root && head.value.kid == signer.value.kid
          && signer.value.sign(size, root, now) == Some(head.value.signature))
  }

  /** `p` proves `leaf` under the head of `leaves`, and carries that head's signature. */
  ghost predicate Proves(h: Hash, leaves: seq<Digest>, leaf: Digest, p: KtProof, sign: Bytes -> Bytes) {
    && p.treeSize == |leaves| && p.root == MerkleRoot(h, leaves)
    && VerifyInclusion(h, leaf, p.path, p.leafIndex, p.treeSize, p.root)
    && p.headSignature == sign(TreeHeadSignable(p.treeSize, p.root))
  }

  lemma ProofAtProves(h: Hash, leaves: seq<Digest>, index: nat, sign: Bytes -> Bytes)
    ensures var r := ProofAt(h, leaves, index, sign);
            && (r.Ok? <==> index < |leaves|)
            && (r.Ok? ==> r.value.leafIndex == index && Proves(h, leaves, leaves[index], r.value, sign))
  {
    InclusionCompleteness(h, leaves, index);
  }

  /** A snapshot yields proofs exactly when it holds every asked position; then each proof is
      of the leaf at its position and all of them share one size, root and signed head. */
  lemma SnapshotProofs(
      h: Hash, leaves: seq<Digest>, identityIndex: nat, hybridIndex: Option<nat>,
      sign: Bytes -> Bytes, signer: Option<HeadSigner>, now: int)
    ensures var r := ProofsFromSnapshot(h, leaves, identityIndex, hybridIndex, sign, signer, now);
            && (r.Ok? <==> identityIndex < |leaves| && (hybridIndex.Some? ==> hybridIndex.value < |leaves|))
            && (r.Ok? ==>
                  && Proves(h, leaves, leaves[identityIndex], r.value.identity, sign)
                  && r.value.identity.leafIndex == identityIndex
                  && (r.value.hybrid.Some? <==> hybridIndex.Some?)
                  && (hybridIndex.Some? ==>
                        && Proves(h, leaves, leaves[hybridIndex.value], r.value.hybrid.value, sign)
                        && r.value.hybrid.value.leafIndex == hybridIndex.value)
                  && HeadSigned(r.value.head, |leaves|, MerkleRoot(h, leaves), signer, now))
  {
    ProofAtProves(h, leaves, identityIndex, sign);
    if hybridIndex.Some? {
      ProofAtProves(h, leaves, hybridIndex.value, sign);
    }
  }

  /** The table after a build's own inserts and the others' in between. */
  function RowsAfterBuild(
      h: Hash, rows: seq<LeafRow>, device: Bytes, identityKey: Bytes, hybridKey: Option<Bytes>,
      between: seq<Request>, after: seq<Request>): seq<LeafRow>
  {
    var rows1 := Run(EnsureLeaf(rows, RequestFor(h, Entry(device, Identity, identityKey))).0, between);
    var rows2 :=
      if hybridKey.Some? then EnsureLeaf(rows1, RequestFor(h, Entry(device, Hybrid, hybridKey.value))).0 else rows1;
    Run(rows2, after)
  }

  /** The proofs of a bundle under the head of `leaves`: each verifies for the device's own leaf,
      and all share one size, root, signature and signed head. */
  ghost predicate BundleProved(
      h: Hash, leaves: seq<Digest>, device: Bytes, identityKey: Bytes, hybridKey: Option<Bytes>,
      sign: Bytes -> Bytes, signer: Option<HeadSigner>, now: int, p: KtProofs)
  {
    && Proves(h, leaves, LeafHash(h, Entry(device, Identity, identityKey)), p.identity, sign)
    && (p.hybrid.Some? <==> hybridKey.Some?)
    && (hybridKey.Some? ==>
          && Proves(h, leaves, LeafHash(h, Entry(device, Hybrid, hybridKey.value)), p.hybrid.value, sign)
          && p.hybrid.value.treeSize == p.identity.treeSize && p.hybrid.value.root == p.identity.root
          && p.hybrid.value.headSignature == p.identity.headSignature)
    && HeadSigned(p.head, p.identity.treeSize, p.identity.root, signer, now)
  }

  /** Row `index` holds the leaf of `e`. */
  ghost predicate HoldsLeaf(h: Hash, rows: seq<LeafRow>, index: nat, e: Entry) {
    index < |rows| && rows[index].hash == LeafHash(h, e)
  }

  /** Proofs from the rows at positions that hold the device's leaves. */
  lemma ProofsFromRows(
      h: Hash, rows: seq<LeafRow>, device: Bytes, identityKey: Bytes, hybridKey: Option<Bytes>,
      identityIndex: nat, hybridIndex: Option<nat>, sign: Bytes -> Bytes, signer: Option<HeadSigner>, now: int)
    requires WellIndexed(rows) && HoldsLeaf(h, rows, identityIndex, Entry(device, Identity, identityKey))
    requires hybridIndex.Some? <==> hybridKey.Some?
    requires hybridKey.Some? ==> HoldsLeaf(h, rows, hybridIndex.value, Entry(device, Hybrid, hybridKey.value))
    ensures var r := ProofsFromSnapshot(h, AllLeaves(rows), identityIndex, hybridIndex, sign, signer, now);
            && r.Ok? && BundleProved(h, AllLeaves(rows), device, identityKey, hybridKey, sign, signer, now, r.value)
            && r.value.identity.leafIndex == identityIndex
            && (hybridKey.Some? ==> r.value.hybrid.value.leafIndex == hybridIndex.value)
  {
    OrderIsIdentity(rows);
    SnapshotProofs(h, AllLeaves(rows), identityIndex, hybridIndex, sign, signer, now);
  }

  class KtLeaves {
    var rows: seq<LeafRow>

    constructor ()
      ensures rows == [] && Valid(rows)
    {
      rows := [];
    }

    /** One transaction under the append lock. */
    method Ensure(q: Request) returns (index: nat)
      requires Valid(rows)
      modifies this
      ensures Valid(rows) && old(rows) <= rows
      ensures (rows, index) == EnsureLeaf(old(rows), q)
      ensures index < |rows| && rows[index] == LeafRow(q.device, q.kind, q.hash, index)
    {
      EnsureLeafStep(rows, q);
      var latest := Latest(rows, q.device, q.kind);
      if latest.Some? && latest.value.hash == q.hash {
        return latest.value.treeIndex;
      }
      index := NextIndex(rows);
      rows := rows + [LeafRow(q.device, q.kind, q.hash, index)];
    }

    /** Other clients' transactions that commit while a proof is being built. */
    method Others(requests: seq<Request>)
      requires Valid(rows)
      modifies this
      ensures Valid(rows) && old(rows) <= rows
      ensures rows == Run(old(rows), requests)
    {
      var i := 0;
      while i < |requests|
        invariant 0 <= i <= |requests|
        invariant Valid(rows) && old(rows) <= rows
        invariant rows == Run(old(rows), requests[..i])
      {
        assert requests[..i + 1][..i] == requests[..i];
        var _ := Ensure(requests[i]);
        i := i + 1;
      }
      assert requests[..|requests|] == requests;
    }

    /** Both proofs of a bundle, with any appends of others between its two inserts
        (`between`) and between the last insert and the snapshot (`after`). */
    method BuildProofs(
        h: Hash, device: Bytes, identityKey: Bytes, hybridKey: Option<Bytes>,
        sign: Bytes -> Bytes, signer: Option<HeadSigner>, now: int,
        between: seq<Request>, after: seq<Request>)
      returns (r: Result<KtProofs, KtError>)
      requires Valid(rows)
      modifies this
      ensures Valid(rows) && old(rows) <= rows
      ensures r.Ok? && BundleProved(h, AllLeaves(rows), device, identityKey, hybridKey, sign, signer, now, r.value)
      ensures var i := r.value.identity.leafIndex;
              i < |rows| && rows[i] == LeafRow(device, Identity, LeafHash(h, Entry(device, Identity, identityKey)), i)
      ensures hybridKey.Some? ==>
                var i := r.value.hybrid.value.leafIndex;
                i < |rows| && rows[i] == LeafRow(device, Hybrid, LeafHash(h, Entry(device, Hybrid, hybridKey.value)), i)
      ensures rows == RowsAfterBuild(h, old(rows), device, identityKey, hybridKey, between, after)
    {
      var identityIndex := Ensure(RequestFor(h, Entry(device, Identity, identityKey)));
      Others(between);
      var hybridIndex: Option<nat> := None;
      if hybridKey.Some? {
        var i := Ensure(RequestFor(h, Entry(device, Hybrid, hybridKey.value)));
        hybridIndex := Some(i);
      }
      Others(after);
      ProofsFromRows(h, rows, device, identityKey, hybridKey, identityIndex, hybridIndex, sign, signer, now);
      r := ProofsFromSnapshot(h, AllLeaves(rows), identityIndex, hybridIndex, sign, signer, now);
    }
  }
}
