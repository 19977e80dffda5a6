/** A device's signed pre-keys and its hybrid identity: rotation, upload and the two
    handlers, and the consistency of the bundle that is served from the row. */
module SignedPrekeys {
  import opened Bytes

  // ------------------------------------------------------------------------
  // Signatures
  // ------------------------------------------------------------------------

  /** The two signature schemes as uninterpreted predicates over (key, message, signature). */
  datatype Crypto = Crypto(ed25519: (Bytes, Bytes, Bytes) -> bool, hybrid: (Bytes, Bytes, Bytes) -> bool)

  const KYBER_PUBLIC_KEY_SIZE: nat := 1568
  const ED25519_KEY_SIZE: nat := 32
  const ED25519_SIGNATURE_SIZE: nat := 64
  const HYBRID_KEY_SIZE: nat := 1984
  const HYBRID_SIGNATURE_SIZE: nat := 3373
  const KYBER_SPK_MAX_AGE_SECS: nat := 30 * 24 * 3600
  const KYBER_CREATED_AT_MAX_SKEW_SECS: nat := 24 * 3600
  const CLASSIC_SUITE: byte := 0x01
  const KYBER_SUITE_V2: byte := 0x11
  const U64_MAX: nat := 0xFFFF_FFFF_FFFF_FFFF

  /** The last second chrono's UTC clock can name; every reading of the clock is below it. */
  const CLOCK_MAX: nat := 8_210_266_876_799

  /** "KonstruktX3DH-v1" */
  const X3DH_PREFIX: Bytes :=
    [0x4b, 0x6f, 0x6e, 0x73, 0x74, 0x72, 0x75, 0x6b, 0x74, 0x58, 0x33, 0x44, 0x48, 0x2d, 0x76, 0x31]

  /** "KonstruktHybridId-v1" */
  const HYBRID_ID_PREFIX: Bytes :=
    [0x4b, 0x6f, 0x6e, 0x73, 0x74, 0x72, 0x75, 0x6b, 0x74, 0x48, 0x79, 0x62, 0x72, 0x69, 0x64, 0x49, 0x64, 0x2d,
     0x76, 0x31]

  function PrekeyMessage(suite: byte, publicKey: Bytes): Bytes {
    X3DH_PREFIX + [0x00, suite] + publicKey
  }

  function KyberMessage(createdAt: nat, publicKey: Bytes): Bytes {
    PrekeyMessage(KYBER_SUITE_V2, BigEndian(createdAt, 8) + publicKey)
  }

  function CrossSignMessage(hybridKey: Bytes): Bytes {
    HYBRID_ID_PREFIX + hybridKey
  }

  /** What a verifier of sign-messages reads: after the 16-byte label and a zero, the suite and
      the key; under the Kyber suite, eight bytes of time before the key. */
  function ReadPrekeyMessage(m: Bytes): Option<(byte, Bytes)> {
    if |m| >= 18 && m[..16] == X3DH_PREFIX && m[16] == 0 then Some((m[17], m[18..])) else None
  }

  function ReadKyberMessage(m: Bytes): Option<(nat, Bytes)> {
    match ReadPrekeyMessage(m)
    case None => None
    case Some((suite, rest)) =>
      if suite == 0x11 && |rest| >= 8 then Some((FromBigEndian(rest[..8]), rest[8..])) else None
  }

  lemma PrekeyMessageRoundTrip(suite: byte, key: Bytes)
    ensures ReadPrekeyMessage(PrekeyMessage(suite, key)) == Some((suite, key))
  {
    var m := PrekeyMessage(suite, key);
    assert m[..16] == X3DH_PREFIX && m[18..] == key;
  }

  lemma KyberMessageRoundTrip(createdAt: nat, key: Bytes)
    requires createdAt <= U64_MAX
    ensures ReadKyberMessage(KyberMessage(createdAt, key)) == Some((createdAt, key))
  {
    var rest := BigEndian(createdAt, 8) + key;
    PrekeyMessageRoundTrip(KYBER_SUITE_V2, rest);
    Pow256Of8();
    BigEndianRoundTrip(createdAt, 8);
    assert rest[..8] == BigEndian(createdAt, 8) && rest[8..] == key;
  }

  /** A sign-message names its suite and its key; a Kyber one also names its time. */
  lemma MessagesAreInjective(suite: byte, key: Bytes, suite': byte, key': Bytes)
    requires PrekeyMessage(suite, key) == PrekeyMessage(suite', key')
    ensures suite == suite' && key == key'
  {
    SplitConcat(X3DH_PREFIX + [0x00, suite], key, X3DH_PREFIX + [0x00, suite'], key');
    assert (X3DH_PREFIX + [0x00, suite])[17] == suite && (X3DH_PREFIX + [0x00, suite'])[17] == suite';
  }

  lemma KyberMessagesAreInjective(t: nat, key: Bytes, t': nat, key': Bytes)
    requires t <= U64_MAX && t' <= U64_MAX
    requires KyberMessage(t, key) == KyberMessage(t', key')
    ensures t == t' && key == key'
  {
    MessagesAreInjective(KYBER_SUITE_V2, BigEndian(t, 8) + key, KYBER_SUITE_V2, BigEndian(t', 8) + key');
    SplitConcat(BigEndian(t, 8), key, BigEndian(t', 8), key');
    Pow256Of8();
    BigEndianInjective(t, t', 8);
  }

  // ------------------------------------------------------------------------
  // The row
  // ------------------------------------------------------------------------

  datatype SignedPreKey = SignedPreKey(keyId: nat, publicKey: Bytes, signature: Bytes)

  datatype KyberPreKey = KyberPreKey(keyId: nat, publicKey: Bytes, signature: Bytes, createdAt: nat)

  /** The columns of `devices` these operations read or write. `kyberCreatedAt` is a signed
      64-bit column. */
  datatype DeviceRow = DeviceRow(
    active: bool,
    verifyingKey: Bytes,
    spk: SignedPreKey,
    spkHybridSignature: Option<Bytes>,
    spkEpoch: nat,
    kyber: Option<Bytes>,
    kyberId: Option<nat>,
    kyberSignature: Option<Bytes>,
    kyberCreatedAt: Option<int>,
    kyberHybridSignature: Option<Bytes>,
    kyberEpoch: nat,
    hybridKey: Option<Bytes>,
    hybridKeySignature: Option<Bytes>)

  datatype Refusal =
    | MissingKey
    | DeviceNotFound
    | BadKeySize
    | BadSignatureSize
    | NoCreationTime
    | CreatedInFuture
    | TooOld
    | BadSignature
    | NoHybridIdentity

  predicate VerifyEd25519(c: Crypto, key: Bytes, message: Bytes, signature: Bytes) {
    |key| == ED25519_KEY_SIZE && |signature| == ED25519_SIGNATURE_SIZE && c.ed25519(key, message, signature)
  }

  function SaturatingAdd(a: nat, b: nat): nat {
    if a + b > U64_MAX then U64_MAX else a + b
  }

  /** The refusal of a Kyber pre-key, if any: size, plausible time, Ed25519 signature. */
  function CheckKyber(c: Crypto, verifyingKey: Bytes, k: KyberPreKey, now: nat, maxAge: Option<nat>): Option<Refusal> {
    if |k.publicKey| != KYBER_PUBLIC_KEY_SIZE then Some(BadKeySize)
    else if |k.signature| != ED25519_SIGNATURE_SIZE then Some(BadSignatureSize)
    else if k.createdAt == 0 then Some(NoCreationTime)
    else if k.createdAt > SaturatingAdd(now, KYBER_CREATED_AT_MAX_SKEW_SECS) then Some(CreatedInFuture)
    else if maxAge.Some? && now > k.createdAt && now - k.createdAt > maxAge.value then Some(TooOld)
    else if !VerifyEd25519(c, verifyingKey, KyberMessage(k.createdAt, k.publicKey), k.signature) then Some(BadSignature)
    else None
  }

  /** The refusal of an optional hybrid signature over `message`, if any. */
  function CheckHybrid(c: Crypto, hybridKey: Option<Bytes>, message: Bytes, signature: Option<Bytes>): Option<Refusal> {
    if signature.None? then None
    else if hybridKey.None? then Some(NoHybridIdentity)
    else if |signature.value| != HYBRID_SIGNATURE_SIZE then Some(BadSignatureSize)
    else if !c.hybrid(hybridKey.value, message, signature.value) then Some(BadSignature)
    else None
  }

  /** The same for the classic key's hybrid signature, whose size is looked at first. */
  function CheckSpkHybrid(c: Crypto, hybridKey: Option<Bytes>, message: Bytes, signature: Option<Bytes>): Option<Refusal> {
    if signature.Some? && |signature.value| != HYBRID_SIGNATURE_SIZE then Some(BadSignatureSize)
    else CheckHybrid(c, hybridKey, message, signature)
  }

  /** A u64 stored in a signed 64-bit column. */
  function AsI64(n: nat): int {
    if n < 0x8000_0000_0000_0000 then n else n - 0x1_0000_0000_0000_0000
  }

  /** What a reader makes of the stored time: `t.max(0) as u64`. */
  function ReadTime(t: int): nat {
    if t < 0 then 0 else t
  }

  // Each operation reads the row, checks, and then updates it in a second statement. `read` is
  // the row as read, `row` the row the update meets; with nothing in between they are the same.
  // The rotation updates a device that was deactivated meanwhile, the Kyber upload fails on it,
  // and the identity upload does nothing to it.

  function RotateSpkFrom(c: Crypto, read: DeviceRow, row: DeviceRow, k: SignedPreKey, hybridSignature: Option<Bytes>)
    : Result<DeviceRow, Refusal>
  {
    if !read.active then Err(DeviceNotFound)
    else
      var message := PrekeyMessage(CLASSIC_SUITE, k.publicKey);
      if !VerifyEd25519(c, read.verifyingKey, message, k.signature) then Err(BadSignature)
      else
        match CheckSpkHybrid(c, read.hybridKey, message, hybridSignature)
        case Some(refusal) => Err(refusal)
        case None => Ok(row.(spk := k, spkHybridSignature := hybridSignature, spkEpoch := row.spkEpoch + 1))
  }

  function UploadKyberFrom(
      c: Crypto, read: DeviceRow, row: DeviceRow, k: KyberPreKey, hybridSignature: Option<Bytes>, now: nat)
    : Result<DeviceRow, Refusal>
  {
    if !read.active then Err(DeviceNotFound)
    else
      match CheckKyber(c, read.verifyingKey, k, now, Some(KYBER_SPK_MAX_AGE_SECS))
      case Some(refusal) => Err(refusal)
      case None =>
        match CheckHybrid(c, read.hybridKey, KyberMessage(k.createdAt, k.publicKey), hybridSignature)
        case Some(refusal) => Err(refusal)
        case None =>
          if !row.active then Err(DeviceNotFound)
          else
            Ok(row.(kyber := Some(k.publicKey), kyberId := Some(k.keyId), kyberSignature := Some(k.signature),
                    kyberHybridSignature := hybridSignature, kyberCreatedAt := Some(AsI64(k.createdAt)),
                    kyberEpoch := row.kyberEpoch + 1))
  }

  datatype HybridUpload = HybridUpload(
    key: Bytes, crossSignature: Bytes, spkSignature: Option<Bytes>, kyberSignature: Option<Bytes>)

  /** The offered SPK signature, kept only if it verifies over the stored SPK. */
  function KeptSpkSignature(c: Crypto, read: DeviceRow, u: HybridUpload): Option<Bytes> {
    if u.spkSignature.Some? && |u.spkSignature.value| == HYBRID_SIGNATURE_SIZE
       && c.hybrid(u.key, PrekeyMessage(CLASSIC_SUITE, read.spk.publicKey), u.spkSignature.value)
    then u.spkSignature else None
  }

  function KeptKyberSignature(c: Crypto, read: DeviceRow, u: HybridUpload): Option<Bytes> {
    if u.kyberSignature.Some? && |u.kyberSignature.value| == HYBRID_SIGNATURE_SIZE
       && read.kyber.Some? && read.kyberCreatedAt.Some?
       && c.hybrid(u.key, KyberMessage(ReadTime(read.kyberCreatedAt.value), read.kyber.value), u.kyberSignature.value)
    then u.kyberSignature else None
  }

  function StoreHybridFrom(c: Crypto, read: DeviceRow, row: DeviceRow, u: HybridUpload): Result<DeviceRow, Refusal> {
    if |u.key| != HYBRID_KEY_SIZE then Err(BadKeySize)
    else if |u.crossSignature| != ED25519_SIGNATURE_SIZE then Err(BadSignatureSize)
    else if !read.active then Err(DeviceNotFound)
    else if !VerifyEd25519(c, read.verifyingKey, CrossSignMessage(u.key), u.crossSignature) then Err(BadSignature)
    else if !row.active then Ok(row)
    else Ok(row.(hybridKey := Some(u.key), hybridKeySignature := Some(u.crossSignature),
                 spkHybridSignature := KeptSpkSignature(c, read, u),
                 kyberHybridSignature := KeptKyberSignature(c, read, u)))
  }

  // ------------------------------------------------------------------------
  // What is accepted, and what is stored
  // ------------------------------------------------------------------------

  /** The device's Ed25519 signature over a message is good. */
  ghost predicate SignedByDevice(c: Crypto, row: DeviceRow, message: Bytes, signature: Bytes) {
    |row.verifyingKey| == 32 && |signature| == 64 && c.ed25519(row.verifyingKey, message, signature)
  }

  /** A hybrid signature is absent, or good under the stored hybrid identity. */
  ghost predicate HybridFine(c: Crypto, row: DeviceRow, message: Bytes, signature: Option<Bytes>) {
    signature.Some? ==>
      row.hybridKey.Some? && |signature.value| == 3373 && c.hybrid(row.hybridKey.value, message, signature.value)
  }

  /** A Kyber pre-key was made at most thirty days before and one day after `now`. */
  ghost predicate MadeInTime(k: KyberPreKey, now: nat) {
    0 < k.createdAt <= now + 24 * 3600 && now - k.createdAt <= 30 * 24 * 3600
  }

  /** A rotation is accepted exactly when the device is active and signed the key, and a hybrid
      signature is absent or good; then the key, its signature and the next epoch are stored. */
  lemma RotationAccepted(c: Crypto, read: DeviceRow, row: DeviceRow, k: SignedPreKey, hybridSignature: Option<Bytes>)
    ensures var r, message := RotateSpkFrom(c, read, row, k, hybridSignature), PrekeyMessage(0x01, k.publicKey);
            && (r.Ok? <==> read.active && SignedByDevice(c, read, message, k.signature)
                           && HybridFine(c, read, message, hybridSignature))
            && (r.Ok? ==> r.value == row.(spk := k, spkHybridSignature := hybridSignature, spkEpoch := row.spkEpoch + 1))
  {
  }

  /** A Kyber upload is accepted exactly when the device is active, now and when it was read, the
      key has its size, was made in time and is signed by the device, and a hybrid signature is
      absent or good; then the key is stored with the time that was signed and the next epoch. */
  lemma KyberUploadAccepted(
      c: Crypto, read: DeviceRow, row: DeviceRow, k: KyberPreKey, hybridSignature: Option<Bytes>, now: nat)
    requires now <= CLOCK_MAX
    ensures var r, message := UploadKyberFrom(c, read, row, k, hybridSignature, now), KyberMessage(k.createdAt, k.publicKey);
            && (r.Ok? <==> read.active && row.active && |k.publicKey| == 1568 && MadeInTime(k, now)
                           && SignedByDevice(c, read, message, k.signature)
                           && HybridFine(c, read, message, hybridSignature))
            && (r.Ok? ==>
                  r.value == row.(kyber := Some(k.publicKey), kyberId := Some(k.keyId), kyberSignature := Some(k.signature),
                                  kyberHybridSignature := hybridSignature, kyberCreatedAt := Some(k.createdAt),
                                  kyberEpoch := row.kyberEpoch + 1))
  {
  }

  /** Each refusal of a Kyber upload is true of what was sent. */
  lemma KyberRefusalIsTrue(
      c: Crypto, read: DeviceRow, row: DeviceRow, k: KyberPreKey, hybridSignature: Option<Bytes>, now: nat)
    requires now <= CLOCK_MAX && UploadKyberFrom(c, read, row, k, hybridSignature, now).Err?
    ensures match UploadKyberFrom(c, read, row, k, hybridSignature, now).error
            case DeviceNotFound => !read.active || !row.active
            case BadKeySize => |k.publicKey| != 1568
            case BadSignatureSize => |k.signature| != 64 || (hybridSignature.Some? && |hybridSignature.value| != 3373)
            case NoCreationTime => k.createdAt == 0
            case CreatedInFuture => k.createdAt > now + 24 * 3600
            case TooOld => now - k.createdAt > 30 * 24 * 3600
            case BadSignature =>
              && |k.signature| == 64
              && (!SignedByDevice(c, read, KyberMessage(k.createdAt, k.publicKey), k.signature)
                  || !HybridFine(c, read, KyberMessage(k.createdAt, k.publicKey), hybridSignature))
            case NoHybridIdentity => hybridSignature.Some? && read.hybridKey.None?
            case MissingKey => false
  {
  }

  /** Each refusal of a hybrid identity is true of what was sent. */
  lemma IdentityRefusalIsTrue(c: Crypto, read: DeviceRow, row: DeviceRow, u: HybridUpload)
    requires StoreHybridFrom(c, read, row, u).Err?
    ensures match StoreHybridFrom(c, read, row, u).error
            case BadKeySize => |u.key| != 1984
            case BadSignatureSize => |u.crossSignature| != 64
            case DeviceNotFound => !read.active
            case BadSignature =>
              |u.crossSignature| == 64 && !SignedByDevice(c, read, HYBRID_ID_PREFIX + u.key, u.crossSignature)
            case _ => false
  {
  }

  /** An offered signature over a key that is stored is good under the new identity. */
  ghost predicate OfferedGood(c: Crypto, u: HybridUpload, message: Bytes, signature: Option<Bytes>) {
    signature.Some? && |signature.value| == 3373 && c.hybrid(u.key, message, signature.value)
  }

  /** A hybrid identity is accepted exactly when it has its size and an active device cross-signed
      it. Then it is stored, if the device is still active, with each offered signature that is
      good over the key that was read, and without the others. */
  lemma IdentityAccepted(c: Crypto, read: DeviceRow, row: DeviceRow, u: HybridUpload)
    ensures var r := StoreHybridFrom(c, read, row, u);
            && (r.Ok? <==> |u.key| == 1984 && read.active
                           && SignedByDevice(c, read, HYBRID_ID_PREFIX + u.key, u.crossSignature))
            && (r.Ok? && !row.active ==> r.value == row)
            && (r.Ok? && row.active ==>
                  r.value == row.(
                    hybridKey := Some(u.key), hybridKeySignature := Some(u.crossSignature),
                    spkHybridSignature :=
                      if OfferedGood(c, u, PrekeyMessage(0x01, read.spk.publicKey), u.spkSignature)
                      then u.spkSignature else None,
                    kyberHybridSignature :=
                      if read.kyber.Some? && read.kyberCreatedAt.Some?
                         && OfferedGood(c, u, KyberMessage(if read.kyberCreatedAt.value < 0 then 0 else read.kyberCreatedAt.value,
                                                           read.kyber.value), u.kyberSignature)
                      then u.kyberSignature else None))
  {
  }

  // ------------------------------------------------------------------------
  // Consistency of what is served
  // ------------------------------------------------------------------------

  ghost predicate CrossSigned(c: Crypto, row: DeviceRow) {
    row.hybridKey.Some? ==>
      && |row.hybridKey.value| == HYBRID_KEY_SIZE && row.hybridKeySignature.Some?
      && VerifyEd25519(c, row.verifyingKey, CrossSignMessage(row.hybridKey.value), row.hybridKeySignature.value)
  }

  ghost predicate SpkHybridVerifies(c: Crypto, row: DeviceRow) {
    row.spkHybridSignature.Some? ==>
      && row.hybridKey.Some?
      && c.hybrid(row.hybridKey.value, PrekeyMessage(CLASSIC_SUITE, row.spk.publicKey), row.spkHybridSignature.value)
  }

  ghost predicate KyberHybridVerifies(c: Crypto, row: DeviceRow) {
    row.kyberHybridSignature.Some? ==>
      && row.hybridKey.Some? && row.kyber.Some? && row.kyberCreatedAt.Some?
      && c.hybrid(row.hybridKey.value, KyberMessage(ReadTime(row.kyberCreatedAt.value), row.kyber.value),
                  row.kyberHybridSignature.value)
  }

  /** The device's own Ed25519 signatures: over the SPK, and over a Kyber key with its time. */
  ghost predicate ClassicVerifies(c: Crypto, row: DeviceRow) {
    && VerifyEd25519(c, row.verifyingKey, PrekeyMessage(CLASSIC_SUITE, row.spk.publicKey), row.spk.signature)
    && (row.kyberCreatedAt.Some? ==>
          && row.kyber.Some? && row.kyberSignature.Some?
          && VerifyEd25519(c, row.verifyingKey, KyberMessage(ReadTime(row.kyberCreatedAt.value), row.kyber.value),
                           row.kyberSignature.value))
  }

  ghost predicate HybridVerifies(c: Crypto, row: DeviceRow) {
    CrossSigned(c, row) && SpkHybridVerifies(c, row) && KyberHybridVerifies(c, row)
  }

  ghost predicate Consistent(c: Crypto, row: DeviceRow) {
    HybridVerifies(c, row) && ClassicVerifies(c, row)
  }

  /** What a change of the row keeps: the hybrid signatures, and apart from them the classic ones,
      which an old row may lack. */
  ghost predicate Keeps(c: Crypto, row: DeviceRow, row': DeviceRow) {
    (HybridVerifies(c, row) ==> HybridVerifies(c, row')) && (ClassicVerifies(c, row) ==> ClassicVerifies(c, row'))
  }

  /** An accepted Kyber time fits the signed column, so a reader sees the time that was signed. */
  lemma KyberTimeSurvives(c: Crypto, verifyingKey: Bytes, k: KyberPreKey, now: nat, maxAge: Option<nat>)
    requires now <= CLOCK_MAX
    requires CheckKyber(c, verifyingKey, k, now, maxAge).None?
    ensures ReadTime(AsI64(k.createdAt)) == k.createdAt
  {
  }

  lemma UploadKyberKeepsConsistent(c: Crypto, row: DeviceRow, k: KyberPreKey, hybridSignature: Option<Bytes>, now: nat)
    requires now <= CLOCK_MAX
    ensures var r := UploadKyberFrom(c, row, row, k, hybridSignature, now);
            r.Ok? ==> Keeps(c, row, r.value) && r.value.kyber == Some(k.publicKey) && r.value.spk == row.spk
  {
    if UploadKyberFrom(c, row, row, k, hybridSignature, now).Ok? {
      KyberTimeSurvives(c, row.verifyingKey, k, now, Some(KYBER_SPK_MAX_AGE_SECS));
    }
  }

  // ------------------------------------------------------------------------
  // The handlers
  // ------------------------------------------------------------------------

  datatype Op =
    | Upload(spk: Option<SignedPreKey>, kyber: Option<KyberPreKey>, identity: Option<HybridUpload>)
    | Rotate(newSpk: SignedPreKey, spkHybrid: Option<Bytes>, newKyber: Option<KyberPreKey>, kyberHybrid: Option<Bytes>)

  /** Both keys in one transaction: a refusal of either leaves the row as it was. */
  function Transaction(
      c: Crypto, row: DeviceRow, spk: Option<SignedPreKey>, spkHybrid: Option<Bytes>,
      kyber: Option<KyberPreKey>, kyberHybrid: Option<Bytes>, now: nat): Result<DeviceRow, Refusal>
  {
    var r := if spk.Some? then RotateSpkFrom(c, row, row, spk.value, spkHybrid) else Ok(row);
    if r.Err? || kyber.None? then r
    else UploadKyberFrom(c, r.value, r.value, kyber.value, kyberHybrid, now)
  }

  /** The row after a handler ran, and its refusal if it answered an error. */
  function Handle(c: Crypto, row: DeviceRow, op: Op, now: nat): (DeviceRow, Option<Refusal>) {
    match op
    case Rotate(newSpk, spkHybrid, newKyber, kyberHybrid) =>
      if newSpk.publicKey == [] || newSpk.signature == [] then (row, Some(MissingKey))
      else
        (match Transaction(c, row, Some(newSpk), spkHybrid, newKyber, kyberHybrid, now)
         case Err(e) => (row, Some(e))
         case Ok(row') => (row', None))
    case Upload(spk, kyber, identity) =>
      match Transaction(c, row, spk, None, kyber, None, now)
      case Err(e) => (row, Some(e))
      case Ok(row1) =>
        if identity.None? || identity.value.key == [] then (row1, None)
        else
          match StoreHybridFrom(c, row1, row1, identity.value)
          case Err(e) => (row1, Some(e))
          case Ok(row2) => (row2, None)
  }

  class DeviceTable {
    var row: DeviceRow

    constructor (registered: DeviceRow)
      ensures row == registered
    {
      row := registered;
    }

    /** The transaction of both handlers: begin, up to two updates, commit or roll back. */
    method StoreSignedKeys(
        c: Crypto, spk: Option<SignedPreKey>, spkHybrid: Option<Bytes>,
        kyber: Option<KyberPreKey>, kyberHybrid: Option<Bytes>, now: nat)
      returns (refusal: Option<Refusal>)
      modifies this
      ensures refusal.Some? ==> row == old(row)
      ensures var r := Transaction(c, old(row), spk, spkHybrid, kyber, kyberHybrid, now);
              (refusal.None? <==> r.Ok?) && (r.Ok? ==> row == r.value) && (r.Err? ==> refusal == Some(r.error))
    {
      var begin := row;
      if spk.Some? {
        var r := RotateSpkFrom(c, row, row, spk.value, spkHybrid);
        if r.Err? {
          return Some(r.error);
        }
        row := r.value;
      }
      if kyber.Some? {
        var r := UploadKyberFrom(c, row, row, kyber.value, kyberHybrid, now);
        if r.Err? {
          row := begin;
          return Some(r.error);
        }
        row := r.value;
      }
      return None;
    }

    /** Both handlers. A rotation that answers an error wrote nothing: a refused Kyber key leaves
        the classic key, its hybrid signature and its epoch as they were. */
    method Handler(c: Crypto, op: Op, now: nat) returns (refusal: Option<Refusal>)
      modifies this
      ensures (row, refusal) == Handle(c, old(row), op, now)
      ensures op.Rotate? && refusal.Some? ==> row == old(row)
      ensures op.Rotate? && refusal.None? ==>
                && row.spk == op.newSpk && row.spkEpoch == old(row).spkEpoch + 1
                && row.kyberEpoch == old(row).kyberEpoch + if op.newKyber.Some? then 1 else 0
      ensures row.verifyingKey == old(row).verifyingKey
    {
      match op {
        case Rotate(newSpk, spkHybrid, newKyber, kyberHybrid) =>
          if newSpk.publicKey == [] || newSpk.signature == [] {
            return Some(MissingKey);
          }
          refusal := StoreSignedKeys(c, Some(newSpk), spkHybrid, newKyber, kyberHybrid, now);
        case Upload(spk, kyber, identity) =>
          refusal := StoreSignedKeys(c, spk, None, kyber, None, now);
          if refusal.None? && identity.Some? && identity.value.key != [] {
            var r := StoreHybridFrom(c, row, row, identity.value);
            if r.Err? {
              return Some(r.error);
            }
            row := r.value;
          }
      }
    }
  }

  /** The signed keys of one request: all or nothing. Accepted exactly when each key that is sent
      is accepted, the Kyber key against the row with the new classic key; then just the keys that
      were sent, their signatures and their epochs have changed. */
  lemma TransactionAccepted(
      c: Crypto, row: DeviceRow, spk: Option<SignedPreKey>, spkHybrid: Option<Bytes>,
      kyber: Option<KyberPreKey>, kyberHybrid: Option<Bytes>, now: nat)
    requires now <= CLOCK_MAX
    ensures var r := Transaction(c, row, spk, spkHybrid, kyber, kyberHybrid, now);
            && (r.Ok? <==>
                  && (spk.Some? ==>
                        && row.active
                        && SignedByDevice(c, row, PrekeyMessage(0x01, spk.value.publicKey), spk.value.signature)
                        && HybridFine(c, row, PrekeyMessage(0x01, spk.value.publicKey), spkHybrid))
                  && (kyber.Some? ==>
                        var message := KyberMessage(kyber.value.createdAt, kyber.value.publicKey);
                        && row.active && |kyber.value.publicKey| == 1568 && MadeInTime(kyber.value, now)
                        && SignedByDevice(c, row, message, kyber.value.signature) && HybridFine(c, row, message, kyberHybrid)))
            && (r.Ok? ==>
                  && r.value.spk == (if spk.Some? then spk.value else row.spk)
                  && r.value.spkHybridSignature == (if spk.Some? then spkHybrid else row.spkHybridSignature)
                  && r.value.spkEpoch == row.spkEpoch + (if spk.Some? then 1 else 0)
                  && r.value.kyber == (if kyber.Some? then Some(kyber.value.publicKey) else row.kyber)
                  && r.value.kyberId == (if kyber.Some? then Some(kyber.value.keyId) else row.kyberId)
                  && r.value.kyberSignature == (if kyber.Some? then Some(kyber.value.signature) else row.kyberSignature)
                  && r.value.kyberHybridSignature == (if kyber.Some? then kyberHybrid else row.kyberHybridSignature)
                  && r.value.kyberCreatedAt == (if kyber.Some? then Some(kyber.value.createdAt) else row.kyberCreatedAt)
                  && r.value.kyberEpoch == row.kyberEpoch + (if kyber.Some? then 1 else 0)
                  && r.value.hybridKey == row.hybridKey && r.value.hybridKeySignature == row.hybridKeySignature
                  && r.value.verifyingKey == row.verifyingKey && r.value.active == row.active)
  {
    var rotated := if spk.Some? then RotateSpkFrom(c, row, row, spk.value, spkHybrid) else Ok(row);
    if spk.Some? {
      RotationAccepted(c, row, row, spk.value, spkHybrid);
    }
    if rotated.Ok? && kyber.Some? {
      KyberUploadAccepted(c, rotated.value, rotated.value, kyber.value, kyberHybrid, now);
    }
    if kyber.Some? {
      KyberUploadAccepted(c, row, row, kyber.value, kyberHybrid, now);
    }
  }

  /** What a handler answers and stores: a rotation with an empty key or signature is refused, and
      otherwise is its transaction; an upload is its transaction, which clears what it does not
      sign, and then, if that was accepted, its identity if it sent one. */
  lemma HandlerExactly(c: Crypto, row: DeviceRow, op: Op, now: nat)
    ensures var (row', refusal) := Handle(c, row, op, now);
            match op
            case Rotate(k, spkHybrid, kyber, kyberHybrid) =>
              var r := Transaction(c, row, Some(k), spkHybrid, kyber, kyberHybrid, now);
              && (refusal.None? <==> k.publicKey != [] && k.signature != [] && r.Ok?)
              && row' == (if refusal.None? then r.value else row)
            case Upload(spk, kyber, identity) =>
              var r := Transaction(c, row, spk, None, kyber, None, now);
              var sent := identity.Some? && identity.value.key != [];
              var stored := if r.Ok? && sent then StoreHybridFrom(c, r.value, r.value, identity.value) else r;
              && (refusal.None? <==> r.Ok? && stored.Ok?)
              && row' == (if stored.Ok? then stored.value else if r.Ok? then r.value else row)
  {
  }

  lemma TransactionKeepsConsistent(
      c: Crypto, row: DeviceRow, spk: Option<SignedPreKey>, spkHybrid: Option<Bytes>,
      kyber: Option<KyberPreKey>, kyberHybrid: Option<Bytes>, now: nat)
    requires now <= CLOCK_MAX
    ensures var r := Transaction(c, row, spk, spkHybrid, kyber, kyberHybrid, now); r.Ok? ==> Keeps(c, row, r.value)
  {
    var r := if spk.Some? then RotateSpkFrom(c, row, row, spk.value, spkHybrid) else Ok(row);
    if r.Ok? && kyber.Some? {
      UploadKyberKeepsConsistent(c, r.value, kyber.value, kyberHybrid, now);
    }
  }

  lemma HandleKeepsConsistent(c: Crypto, row: DeviceRow, op: Op, now: nat)
    requires now <= CLOCK_MAX
    ensures Keeps(c, row, Handle(c, row, op, now).0)
  {
    match op
    case Rotate(newSpk, spkHybrid, newKyber, kyberHybrid) =>
      TransactionKeepsConsistent(c, row, Some(newSpk), spkHybrid, newKyber, kyberHybrid, now);
    case Upload(spk, kyber, identity) =>
      TransactionKeepsConsistent(c, row, spk, None, kyber, None, now);
  }

  /** The row after a run of handlers, each with the clock it read. */
  function Run(c: Crypto, row: DeviceRow, ops: seq<(Op, nat)>): DeviceRow {
    if ops == [] then row
    else
      var last := ops[|ops| - 1];
      Handle(c, Run(c, row, ops[..|ops| - 1]), last.0, last.1).0
  }

  lemma {:induction false} RunKeepsConsistent(c: Crypto, row: DeviceRow, ops: seq<(Op, nat)>)
    requires forall i | 0 <= i < |ops| :: ops[i].1 <= CLOCK_MAX
    ensures Keeps(c, row, Run(c, row, ops))
  {
    if ops != [] {
      RunKeepsConsistent(c, row, ops[..|ops| - 1]);
      var last := ops[|ops| - 1];
      HandleKeepsConsistent(c, Run(c, row, ops[..|ops| - 1]), last.0, last.1);
    }
  }

  /** The Kyber key of the row is `first`'s, or one that some handler of the run was sent and that
      was made in time for the clock that handler read. */
  ghost predicate KyberFrom(first: DeviceRow, row: DeviceRow, ops: seq<(Op, nat)>) {
    || (row.kyber == first.kyber && row.kyberCreatedAt == first.kyberCreatedAt)
    || exists i :: 0 <= i < |ops| && SentInTime(row, ops[i].0, ops[i].1)
  }

  ghost predicate SentInTime(row: DeviceRow, op: Op, now: nat) {
    var sent := if op.Rotate? then op.newKyber else op.kyber;
    && sent.Some? && row.kyber == Some(sent.value.publicKey) && row.kyberCreatedAt == Some(sent.value.createdAt)
    && MadeInTime(sent.value, now)
  }

  lemma HandleStoresInTime(c: Crypto, row: DeviceRow, op: Op, now: nat)
    requires now <= CLOCK_MAX
    ensures var row' := Handle(c, row, op, now).0;
            (row'.kyber == row.kyber && row'.kyberCreatedAt == row.kyberCreatedAt) || SentInTime(row', op, now)
  {
    match op
    case Rotate(k, spkHybrid, kyber, kyberHybrid) =>
      TransactionAccepted(c, row, Some(k), spkHybrid, kyber, kyberHybrid, now);
    case Upload(spk, kyber, identity) =>
      TransactionAccepted(c, row, spk, None, kyber, None, now);
  }

  /** Over every run, each Kyber key a handler stored was at most thirty days old, and not more
      than a day ahead, when it was stored. */
  lemma {:induction false} StoredKyberWasInTime(c: Crypto, row: DeviceRow, ops: seq<(Op, nat)>)
    requires forall i | 0 <= i < |ops| :: ops[i].1 <= CLOCK_MAX
    ensures KyberFrom(row, Run(c, row, ops), ops)
  {
    if ops != [] {
      var init, last := ops[..|ops| - 1], ops[|ops| - 1];
      StoredKyberWasInTime(c, row, init);
      var before, after := Run(c, row, init), Run(c, row, ops);
      HandleStoresInTime(c, before, last.0, last.1);
      if SentInTime(after, last.0, last.1) {
        assert SentInTime(after, ops[|ops| - 1].0, ops[|ops| - 1].1);
      } else if before.kyber != row.kyber || before.kyberCreatedAt != row.kyberCreatedAt {
        var i :| 0 <= i < |init| && SentInTime(before, init[i].0, init[i].1);
        assert SentInTime(after, ops[i].0, ops[i].1);
      }
    }
  }

  /** The signed part of a served bundle. */
  datatype Bundle = Bundle(
    verifyingKey: Bytes, spk: Bytes, spkSignature: Bytes, spkHybridSignature: Option<Bytes>,
    kyber: Option<Bytes>, kyberCreatedAt: Option<nat>, kyberSignature: Option<Bytes>, kyberHybridSignature: Option<Bytes>,
    hybridKey: Option<Bytes>, hybridKeySignature: Option<Bytes>)

  function BundleOf(row: DeviceRow): Bundle {
    Bundle(row.verifyingKey, row.spk.publicKey, row.spk.signature, row.spkHybridSignature,
           row.kyber, if row.kyberCreatedAt.Some? then Some(ReadTime(row.kyberCreatedAt.value)) else None,
           row.kyberSignature, row.kyberHybridSignature, row.hybridKey, row.hybridKeySignature)
  }

  /** What a peer checks of a bundle before it starts a session: every signature present. */
  ghost predicate PeerAcceptsClassic(c: Crypto, b: Bundle) {
    && VerifyEd25519(c, b.verifyingKey, PrekeyMessage(CLASSIC_SUITE, b.spk), b.spkSignature)
    && (b.kyberCreatedAt.Some? ==>
          && b.kyber.Some? && b.kyberSignature.Some?
          && VerifyEd25519(c, b.verifyingKey, KyberMessage(b.kyberCreatedAt.value, b.kyber.value), b.kyberSignature.value))
  }

  ghost predicate PeerAcceptsHybrid(c: Crypto, b: Bundle) {
    && (b.hybridKey.Some? ==>
          && b.hybridKeySignature.Some?
          && VerifyEd25519(c, b.verifyingKey, CrossSignMessage(b.hybridKey.value), b.hybridKeySignature.value))
    && (b.spkHybridSignature.Some? ==>
          b.hybridKey.Some? && c.hybrid(b.hybridKey.value, PrekeyMessage(CLASSIC_SUITE, b.spk), b.spkHybridSignature.value))
    && (b.kyberHybridSignature.Some? ==>
          && b.hybridKey.Some? && b.kyberCreatedAt.Some? && b.kyber.Some?
          && c.hybrid(b.hybridKey.value, KyberMessage(b.kyberCreatedAt.value, b.kyber.value), b.kyberHybridSignature.value))
  }

  ghost predicate PeerAccepts(c: Crypto, b: Bundle) {
    PeerAcceptsClassic(c, b) && PeerAcceptsHybrid(c, b)
  }

  /** Served-bundle consistency over every run of both handlers: no served hybrid signature is one
      a peer would refuse, and if the first row's classic signatures verify, no signature at all. */
  lemma ServedBundleIsAccepted(c: Crypto, row: DeviceRow, ops: seq<(Op, nat)>)
    requires HybridVerifies(c, row)
    requires forall i | 0 <= i < |ops| :: ops[i].1 <= CLOCK_MAX
    ensures PeerAcceptsHybrid(c, BundleOf(Run(c, row, ops)))
    ensures ClassicVerifies(c, row) ==> PeerAccepts(c, BundleOf(Run(c, row, ops)))
  {
    RunKeepsConsistent(c, row, ops);
  }

  // ------------------------------------------------------------------------
  // Overlapping requests
  // ------------------------------------------------------------------------

  /** A hybrid signature is good for one key and one message. */
  ghost predicate SignsOneThing(c: Crypto) {
    forall s: Bytes, k: Bytes, m: Bytes, k': Bytes, m': Bytes ::
      c.hybrid(k, m, s) && c.hybrid(k', m', s) ==> k == k' && m == m'
  }

  /** The rows differ only by other requests for the same device. */
  ghost predicate SameDevice(read: DeviceRow, row: DeviceRow) {
    read.verifyingKey == row.verifyingKey
  }

  /** A rotation whose update meets a row changed since it read it leaves that row consistent
      exactly when it carried no hybrid signature or the hybrid identity is still the one it
      checked under. */
  lemma OverlappedRotation(c: Crypto, read: DeviceRow, row: DeviceRow, k: SignedPreKey, hybridSignature: Option<Bytes>)
    requires SignsOneThing(c) && SameDevice(read, row)
    requires HybridVerifies(c, row)
    requires RotateSpkFrom(c, read, row, k, hybridSignature).Ok?
    ensures HybridVerifies(c, RotateSpkFrom(c, read, row, k, hybridSignature).value)
       <==> hybridSignature.None? || row.hybridKey == read.hybridKey
  {
    var after := RotateSpkFrom(c, read, row, k, hybridSignature).value;
    if hybridSignature.Some? && HybridVerifies(c, after) {
      assert c.hybrid(after.hybridKey.value, PrekeyMessage(CLASSIC_SUITE, k.publicKey), hybridSignature.value);
      assert c.hybrid(read.hybridKey.value, PrekeyMessage(CLASSIC_SUITE, k.publicKey), hybridSignature.value);
    }
  }

  lemma OverlappedKyberUpload(
      c: Crypto, read: DeviceRow, row: DeviceRow, k: KyberPreKey, hybridSignature: Option<Bytes>, now: nat)
    requires SignsOneThing(c) && SameDevice(read, row) && now <= CLOCK_MAX
    requires HybridVerifies(c, row)
    requires UploadKyberFrom(c, read, row, k, hybridSignature, now).Ok?
    ensures HybridVerifies(c, UploadKyberFrom(c, read, row, k, hybridSignature, now).value)
       <==> hybridSignature.None? || row.hybridKey == read.hybridKey
  {
    var after := UploadKyberFrom(c, read, row, k, hybridSignature, now).value;
    KyberTimeSurvives(c, read.verifyingKey, k, now, Some(KYBER_SPK_MAX_AGE_SECS));
    if hybridSignature.Some? && HybridVerifies(c, after) {
      assert c.hybrid(after.hybridKey.value, KyberMessage(k.createdAt, k.publicKey), hybridSignature.value);
      assert c.hybrid(read.hybridKey.value, KyberMessage(k.createdAt, k.publicKey), hybridSignature.value);
    }
  }

  /** The signed 64-bit column. */
  ghost predicate TimeFits(row: DeviceRow) {
    row.kyberCreatedAt.Some? ==> row.kyberCreatedAt.value <= U64_MAX
  }

  /** Each signature the upload keeps is over the key that is still stored. */
  ghost predicate KeptStillStored(c: Crypto, read: DeviceRow, row: DeviceRow, u: HybridUpload) {
    && (KeptSpkSignature(c, read, u).Some? ==> row.spk.publicKey == read.spk.publicKey)
    && (KeptKyberSignature(c, read, u).Some? ==>
          && row.kyber == read.kyber && row.kyberCreatedAt.Some?
          && ReadTime(row.kyberCreatedAt.value) == ReadTime(read.kyberCreatedAt.value))
  }

  /** A hybrid-identity upload whose update meets a row changed since it read it leaves that
      row consistent exactly when the device is no longer active, so that nothing is written, or
      each signature it keeps is over the key still stored. */
  lemma OverlappedHybridUpload(c: Crypto, read: DeviceRow, row: DeviceRow, u: HybridUpload)
    requires SignsOneThing(c) && SameDevice(read, row)
    requires HybridVerifies(c, row) && TimeFits(read) && TimeFits(row)
    requires StoreHybridFrom(c, read, row, u).Ok?
    ensures HybridVerifies(c, StoreHybridFrom(c, read, row, u).value) <==> !row.active || KeptStillStored(c, read, row, u)
  {
    var after := StoreHybridFrom(c, read, row, u).value;
    if row.active && HybridVerifies(c, after) {
      if KeptSpkSignature(c, read, u).Some? {
        assert c.hybrid(u.key, PrekeyMessage(CLASSIC_SUITE, row.spk.publicKey), u.spkSignature.value);
        MessagesAreInjective(CLASSIC_SUITE, row.spk.publicKey, CLASSIC_SUITE, read.spk.publicKey);
      }
      if KeptKyberSignature(c, read, u).Some? {
        var t, t' := ReadTime(row.kyberCreatedAt.value), ReadTime(read.kyberCreatedAt.value);
        assert c.hybrid(u.key, KyberMessage(t, row.kyber.value), u.kyberSignature.value);
        KyberMessagesAreInjective(t, row.kyber.value, t', read.kyber.value);
      }
    }
  }

  function Filled(n: nat, b: byte): (s: Bytes)
    ensures |s| == n && forall i | 0 <= i < n :: s[i] == b
  {
    seq(n, _ => b)
  }

  /** A signature that spells out its key and its message, filled up to the fixed size. */
  function Echo(key: Bytes, message: Bytes): (s: Bytes)
    requires |key| == HYBRID_KEY_SIZE && |message| < 256
    ensures |s| == HYBRID_SIGNATURE_SIZE
    ensures s[..HYBRID_KEY_SIZE] == key && s[HYBRID_KEY_SIZE] == |message| as byte
    ensures s[HYBRID_KEY_SIZE + 1..HYBRID_KEY_SIZE + 1 + |message|] == message
  {
    key + [|message| as byte] + message + Filled(HYBRID_SIGNATURE_SIZE - HYBRID_KEY_SIZE - 1 - |message|, 0)
  }

  predicate EchoVerifies(key: Bytes, message: Bytes, signature: Bytes) {
    |key| == HYBRID_KEY_SIZE && |message| < 256 && signature == Echo(key, message)
  }

  const EchoScheme: Crypto :=
    Crypto((k: Bytes, m: Bytes, s: Bytes) => true, (k: Bytes, m: Bytes, s: Bytes) => EchoVerifies(k, m, s))

  lemma EchoSignsOneThing()
    ensures SignsOneThing(EchoScheme)
  {
    forall s: Bytes, k: Bytes, m: Bytes, k': Bytes, m': Bytes | EchoVerifies(k, m, s) && EchoVerifies(k', m', s)
      ensures k == k' && m == m'
    {
      assert |m| as byte == |m'| as byte;
    }
  }

  /** What an overlap comes to: a rotation the handler would accept reads `row`, another request
      `op` succeeds, and only then the rotation's update lands. */
  ghost predicate ServesARefusedBundle(c: Crypto, row: DeviceRow, op: Op, k: SignedPreKey, signature: Bytes) {
    && Consistent(c, row) && Handle(c, row, Rotate(k, Some(signature), None, None), 0).1.None?
    && Handle(c, row, op, 0).1.None?
    && RotateSpkFrom(c, row, Handle(c, row, op, 0).0, k, Some(signature)).Ok?
    && !PeerAccepts(c, BundleOf(RotateSpkFrom(c, row, Handle(c, row, op, 0).0, k, Some(signature)).value))
  }

  lemma EchoedRotation(row: DeviceRow, row': DeviceRow, k: SignedPreKey, hybridKey: Bytes)
    requires row.active && |row.verifyingKey| == ED25519_KEY_SIZE
    requires |k.publicKey| == 32 && |k.signature| == ED25519_SIGNATURE_SIZE
    requires |hybridKey| == HYBRID_KEY_SIZE && row.hybridKey == Some(hybridKey)
    ensures var s := Echo(hybridKey, PrekeyMessage(CLASSIC_SUITE, k.publicKey));
            RotateSpkFrom(EchoScheme, row, row', k, Some(s))
            == Ok(row'.(spk := k, spkHybridSignature := Some(s), spkEpoch := row'.spkEpoch + 1))
  {
  }

  /** The overlap is real, also under a scheme whose signatures are good for one thing: a rotation
      checked under one hybrid identity, stored after another request replaced that identity,
      serves a signature every peer refuses. */
  lemma OverlapServesARefusedBundle()
    ensures SignsOneThing(EchoScheme)
    ensures exists row: DeviceRow, op: Op, k: SignedPreKey, s: Bytes :: ServesARefusedBundle(EchoScheme, row, op, k, s)
  {
    EchoSignsOneThing();
    var c, sig := EchoScheme, Filled(ED25519_SIGNATURE_SIZE, 0);
    var first, second := Filled(HYBRID_KEY_SIZE, 0), Filled(HYBRID_KEY_SIZE, 1);
    var k := SignedPreKey(1, Filled(32, 0), sig);
    var row := DeviceRow(true, Filled(ED25519_KEY_SIZE, 0), k, None, 0, None, None, None, None, None, 0,
                         Some(first), Some(sig));
    var op := Upload(None, None, Some(HybridUpload(second, sig, None, None)));
    var s := Echo(first, PrekeyMessage(CLASSIC_SUITE, k.publicKey));
    var row1 := Handle(c, row, op, 0).0;
    assert Consistent(c, row);
    assert row1 == row.(hybridKey := Some(second), hybridKeySignature := Some(sig));
    EchoedRotation(row, row, k, first);
    EchoedRotation(row, row1, k, first);
    assert !EchoVerifies(second, PrekeyMessage(CLASSIC_SUITE, k.publicKey), s) by {
      assert s[..HYBRID_KEY_SIZE][0] == 0 && second[0] == 1;
    }
    assert ServesARefusedBundle(c, row, op, k, s);
  }
}
