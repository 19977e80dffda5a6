/** The manifest of a sticker pack: its Protocol Buffers encoding, a reader for it, and the hash of
    it that is the pack's identity. */
module StickerManifest {
  import opened Bytes

  // ------------------------------------------------------------------------
  // Wire format
  // ------------------------------------------------------------------------

  function Varint(n: nat): (s: Bytes)
    ensures s != []
  {
    if n < 128 then [n as byte] else [(n % 128 + 128) as byte] + Varint(n / 128)
  }

  /** The source's loop. */
  method ComputeVarint(n: nat) returns (out: Bytes)
    ensures out == Varint(n)
  {
    var rest := n;
    out := [];
    while true
      invariant out + Varint(rest) == Varint(n)
      decreases rest
    {
      var b := rest % 128;
      rest := rest / 128;
      if rest == 0 {
        return out + [b as byte];
      }
      out := out + [(b + 128) as byte];
    }
  }

  /** A varint and what follows it. */
  function ReadVarint(s: Bytes): Option<(nat, Bytes)> {
    if s == [] then None
    else if s[0] < 128 then Some((s[0] as nat, s[1..]))
    else
      match ReadVarint(s[1..])
      case None => None
      case Some((high, rest)) => Some((128 * high + (s[0] as nat - 128), rest))
  }

  lemma {:induction false} VarintRoundTrip(n: nat, rest: Bytes)
    ensures ReadVarint(Varint(n) + rest) == Some((n, rest))
  {
    var s := Varint(n) + rest;
    if n < 128 {
      assert s[1..] == rest;
    } else {
      VarintRoundTrip(n / 128, rest);
      assert s[1..] == Varint(n / 128) + rest;
    }
  }

  lemma VarintIsPrefixFree(m: nat, x: Bytes, n: nat, y: Bytes)
    requires Varint(m) + x == Varint(n) + y
    ensures m == n && x == y
  {
    VarintRoundTrip(m, x);
    VarintRoundTrip(n, y);
  }

  const WIRE_VARINT: nat := 0
  const WIRE_LEN: nat := 2

  function Tag(field: nat, wire: nat): Bytes {
    Varint(8 * field + wire)
  }

  function LengthDelimited(field: nat, payload: Bytes): Bytes {
    Tag(field, WIRE_LEN) + Varint(|payload|) + payload
  }

  function VarintField(field: nat, value: nat): Bytes {
    Tag(field, WIRE_VARINT) + Varint(value)
  }

  // proto3 leaves out a field that holds its default value. Fields are written in ascending order.

  /** A non-repeated bytes or string field, then `rest`. */
  function PutBytes(field: nat, value: Bytes, rest: Bytes): Bytes {
    if value == [] then rest else LengthDelimited(field, value) + rest
  }

  /** A non-repeated unsigned field, then `rest`. */
  function PutUint(field: nat, value: nat, rest: Bytes): Bytes {
    if value == 0 then rest else VarintField(field, value) + rest
  }

  // ------------------------------------------------------------------------
  // The manifest
  // ------------------------------------------------------------------------

  /** Strings are their UTF-8 bytes. */
  datatype Entry = Entry(sha256: Bytes, emoji: Bytes, width: nat, height: nat, byteLen: nat)

  datatype Manifest = Manifest(packId: Bytes, title: Bytes, publisher: Bytes, stickers: seq<Entry>, signature: Bytes)

  function EncodeEntry(e: Entry): Bytes {
    PutBytes(1, e.sha256, PutBytes(2, e.emoji, PutUint(3, e.width, PutUint(4, e.height, PutUint(5, e.byteLen, [])))))
  }

  /** A repeated message field: every entry is written, even an empty one. */
  function EncodeStickers(stickers: seq<Entry>, rest: Bytes): Bytes {
    if stickers == [] then rest
    else LengthDelimited(4, EncodeEntry(stickers[0])) + EncodeStickers(stickers[1..], rest)
  }

  function Encode(m: Manifest): Bytes {
    PutBytes(1, m.packId, PutBytes(2, m.title, PutBytes(3, m.publisher,
      EncodeStickers(m.stickers, PutBytes(5, m.signature, [])))))
  }

  function CanonicalBytes(m: Manifest): Bytes {
    Encode(m.(packId := [], signature := []))
  }

  function PackId(h: Hash, m: Manifest): Digest {
    h(CanonicalBytes(m))
  }

  // ------------------------------------------------------------------------
  // Reading a manifest
  // ------------------------------------------------------------------------

  /** One field on the wire: its number and what it holds. */
  datatype Field = BytesField(number: nat, payload: Bytes) | UintField(number: nat, value: nat)

  /** The first field of a message and what follows it; none if it cannot be read. */
  function ReadFieldThen(s: Bytes): Option<(Field, Bytes)> {
    match ReadVarint(s)
    case None => None
    case Some((tag, rest)) =>
      match ReadVarint(rest)
      case None => None
      case Some((n, rest')) =>
        if tag % 8 == 0 then Some((UintField(tag / 8, n), rest'))
        else if tag % 8 == 2 && n <= |rest'| then Some((BytesField(tag / 8, rest'[..n]), rest'[n..]))
        else None
  }

  lemma {:induction false} ReadVarintShortens(s: Bytes)
    ensures var r := ReadVarint(s); r.Some? ==> |r.value.1| < |s|
  {
    if s != [] && s[0] >= 128 {
      ReadVarintShortens(s[1..]);
    }
  }

  lemma ReadFieldShortens(s: Bytes)
    ensures var r := ReadFieldThen(s); r.Some? ==> |r.value.1| < |s|
  {
    ReadVarintShortens(s);
    if ReadVarint(s).Some? {
      ReadVarintShortens(ReadVarint(s).value.1);
    }
  }

  /** An entry with one more field read into it. */
  function IntoEntry(e: Entry, f: Field): Entry {
    match f
    case BytesField(n, payload) => if n == 1 then e.(sha256 := payload) else if n == 2 then e.(emoji := payload) else e
    case UintField(n, v) =>
      if n == 3 then e.(width := v) else if n == 4 then e.(height := v) else if n == 5 then e.(byteLen := v) else e
  }

  function ReadEntry(s: Bytes, e: Entry): Option<Entry>
    decreases |s|
  {
    if s == [] then Some(e)
    else
      ReadFieldShortens(s);
      match ReadFieldThen(s)
      case None => None
      case Some((f, rest)) => ReadEntry(rest, IntoEntry(e, f))
  }

  const NoEntry: Entry := Entry([], [], 0, 0, 0)
  const NoManifest: Manifest := Manifest([], [], [], [], [])

  /** A manifest with one more field read into it; none if that is an entry that cannot be read. */
  function IntoManifest(m: Manifest, f: Field): Option<Manifest> {
    match f
    case UintField(_, _) => Some(m)
    case BytesField(n, payload) =>
      if n == 1 then Some(m.(packId := payload))
      else if n == 2 then Some(m.(title := payload))
      else if n == 3 then Some(m.(publisher := payload))
      else if n == 5 then Some(m.(signature := payload))
      else if n == 4 then
        match ReadEntry(payload, NoEntry)
        case None => None
        case Some(e) => Some(m.(stickers := m.stickers + [e]))
      else Some(m)
  }

  function ReadManifest(s: Bytes, m: Manifest): Option<Manifest>
    decreases |s|
  {
    if s == [] then Some(m)
    else
      ReadFieldShortens(s);
      match ReadFieldThen(s)
      case None => None
      case Some((f, rest)) =>
        match IntoManifest(m, f)
        case None => None
        case Some(m') => ReadManifest(rest, m')
  }

  lemma ReadsBytesField(number: nat, payload: Bytes, rest: Bytes)
    ensures ReadFieldThen(LengthDelimited(number, payload) + rest) == Some((BytesField(number, payload), rest))
  {
    var s := LengthDelimited(number, payload) + rest;
    assert s == Varint(8 * number + 2) + (Varint(|payload|) + (payload + rest));
    VarintRoundTrip(8 * number + 2, Varint(|payload|) + (payload + rest));
    VarintRoundTrip(|payload|, payload + rest);
  }

  lemma ReadsUintField(number: nat, value: nat, rest: Bytes)
    ensures ReadFieldThen(VarintField(number, value) + rest) == Some((UintField(number, value), rest))
  {
    var s := VarintField(number, value) + rest;
    assert s == Varint(8 * number) + (Varint(value) + rest);
    VarintRoundTrip(8 * number, Varint(value) + rest);
    VarintRoundTrip(value, rest);
  }

  lemma LengthDelimitedIsPrefixFree(number: nat, a: Bytes, x: Bytes, b: Bytes, y: Bytes)
    requires LengthDelimited(number, a) + x == LengthDelimited(number, b) + y
    ensures a == b && x == y
  {
    ReadsBytesField(number, a, x);
    ReadsBytesField(number, b, y);
  }

  lemma VarintFieldIsPrefixFree(number: nat, m: nat, x: Bytes, n: nat, y: Bytes)
    requires VarintField(number, m) + x == VarintField(number, n) + y
    ensures m == n && x == y
  {
    ReadsUintField(number, m, x);
    ReadsUintField(number, n, y);
  }

  /** A field that is written is read; one that is left out is what a reader starts with. */
  lemma EntryReadsBytes(number: nat, value: Bytes, rest: Bytes, e: Entry)
    ensures ReadEntry(PutBytes(number, value, rest), e)
         == ReadEntry(rest, if value == [] then e else IntoEntry(e, BytesField(number, value)))
  {
    if value != [] {
      ReadsBytesField(number, value, rest);
    }
  }

  lemma EntryReadsUint(number: nat, value: nat, rest: Bytes, e: Entry)
    ensures ReadEntry(PutUint(number, value, rest), e)
         == ReadEntry(rest, if value == 0 then e else IntoEntry(e, UintField(number, value)))
  {
    if value != 0 {
      ReadsUintField(number, value, rest);
    }
  }

  lemma EntryRoundTrip(e: Entry)
    ensures ReadEntry(EncodeEntry(e), NoEntry) == Some(e)
  {
    var x5 := PutUint(5, e.byteLen, []);
    var x4 := PutUint(4, e.height, x5);
    var x3 := PutUint(3, e.width, x4);
    var x2 := PutBytes(2, e.emoji, x3);
    EntryReadsBytes(1, e.sha256, x2, NoEntry);
    EntryReadsBytes(2, e.emoji, x3, Entry(e.sha256, [], 0, 0, 0));
    EntryReadsUint(3, e.width, x4, Entry(e.sha256, e.emoji, 0, 0, 0));
    EntryReadsUint(4, e.height, x5, Entry(e.sha256, e.emoji, e.width, 0, 0));
    EntryReadsUint(5, e.byteLen, [], Entry(e.sha256, e.emoji, e.width, e.height, 0));
  }

  lemma ManifestReadsOn(s: Bytes, f: Field, rest: Bytes, m: Manifest, m': Manifest)
    requires s != [] && ReadFieldThen(s) == Some((f, rest)) && IntoManifest(m, f) == Some(m')
    ensures ReadManifest(s, m) == ReadManifest(rest, m')
  {
  }

  lemma ManifestReadsBytes(number: nat, value: Bytes, rest: Bytes, m: Manifest)
    requires number != 4
    ensures ReadManifest(PutBytes(number, value, rest), m)
         == ReadManifest(rest, if value == [] then m else IntoManifest(m, BytesField(number, value)).value)
  {
    if value != [] {
      var f := BytesField(number, value);
      ReadsBytesField(number, value, rest);
      ManifestReadsOn(LengthDelimited(number, value) + rest, f, rest, m, IntoManifest(m, f).value);
    }
  }

  /** A sticker's payload is read as one more sticker. */
  lemma ManifestReadsSticker(e: Entry, payload: Bytes, s: Bytes, rest: Bytes, m: Manifest)
    requires ReadEntry(payload, NoEntry) == Some(e) && s == LengthDelimited(4, payload) + rest
    ensures ReadManifest(s, m) == ReadManifest(rest, m.(stickers := m.stickers + [e]))
  {
    ReadsBytesField(4, payload, rest);
    ManifestReadsOn(s, BytesField(4, payload), rest, m, m.(stickers := m.stickers + [e]));
  }

  /** `s` is the encoding of these stickers and then `rest`. */
  ghost predicate Encodes(s: Bytes, stickers: seq<Entry>, rest: Bytes) {
    s == EncodeStickers(stickers, rest)
  }

  lemma EncodesFirst(s: Bytes, stickers: seq<Entry>, rest: Bytes) returns (payload: Bytes, tail: Bytes)
    requires Encodes(s, stickers, rest) && stickers != []
    ensures s == LengthDelimited(4, payload) + tail && Encodes(tail, stickers[1..], rest)
    ensures ReadEntry(payload, NoEntry) == Some(stickers[0])
  {
    payload, tail := EncodeEntry(stickers[0]), EncodeStickers(stickers[1..], rest);
    EntryRoundTrip(stickers[0]);
  }

  lemma AppendFirst<T>(a: seq<T>, b: seq<T>)
    requires b != []
    ensures a + [b[0]] + b[1..] == a + b
  {
  }

  lemma AppendNone<T>(a: seq<T>, b: seq<T>)
    requires b == []
    ensures a + b == a
  {
  }

  lemma {:induction false} ManifestReadsStickers(s: Bytes, stickers: seq<Entry>, rest: Bytes, m: Manifest)
    requires Encodes(s, stickers, rest)
    ensures ReadManifest(s, m) == ReadManifest(rest, m.(stickers := m.stickers + stickers))
    decreases |stickers|
  {
    if stickers == [] {
      AppendNone(m.stickers, stickers);
    } else {
      var payload, tail := EncodesFirst(s, stickers, rest);
      var m' := m.(stickers := m.stickers + [stickers[0]]);
      ManifestReadsSticker(stickers[0], payload, s, tail, m);
      ManifestReadsStickers(tail, stickers[1..], rest, m');
      AppendFirst(m.stickers, stickers);
    }
  }

  /** The stickers and the signature, read onto the fields before them. */
  lemma ManifestTail(m: Manifest)
    ensures ReadManifest(EncodeStickers(m.stickers, PutBytes(5, m.signature, [])), m.(stickers := [], signature := [])) == Some(m)
  {
    var rest := PutBytes(5, m.signature, []);
    ManifestReadsStickers(EncodeStickers(m.stickers, rest), m.stickers, rest, m.(stickers := [], signature := []));
    assert [] + m.stickers == m.stickers;
    ManifestReadsBytes(5, m.signature, [], m.(signature := []));
  }

  /** The id, the title and the publisher, read before anything else. */
  lemma ManifestFront(packId: Bytes, title: Bytes, publisher: Bytes, rest: Bytes)
    ensures ReadManifest(PutBytes(1, packId, PutBytes(2, title, PutBytes(3, publisher, rest))), NoManifest)
         == ReadManifest(rest, Manifest(packId, title, publisher, [], []))
  {
    var x3 := PutBytes(3, publisher, rest);
    var x2 := PutBytes(2, title, x3);
    ManifestReadsBytes(1, packId, x2, NoManifest);
    ManifestReadsBytes(2, title, x3, Manifest(packId, [], [], [], []));
    ManifestReadsBytes(3, publisher, rest, Manifest(packId, title, [], [], []));
  }

  /** Reading what was encoded gives the manifest back, for all manifests, valid or not. */
  lemma ManifestRoundTrip(m: Manifest)
    ensures ReadManifest(Encode(m), NoManifest) == Some(m)
  {
    ManifestFront(m.packId, m.title, m.publisher, EncodeStickers(m.stickers, PutBytes(5, m.signature, [])));
    ManifestTail(m);
  }

  lemma EncodeEntryIsInjective(e: Entry, f: Entry)
    requires EncodeEntry(e) == EncodeEntry(f)
    ensures e == f
  {
    EntryRoundTrip(e);
    EntryRoundTrip(f);
  }

  /** The encoding names the manifest, for all manifests, valid or not. */
  lemma EncodeIsInjective(m: Manifest, n: Manifest)
    requires Encode(m) == Encode(n)
    ensures m == n
  {
    ManifestRoundTrip(m);
    ManifestRoundTrip(n);
  }

  /** The id is over the manifest without its id and its signature: a manifest signed anew keeps
      its id, and what is hashed reads back as the rest of the manifest. */
  lemma ResigningKeepsId(h: Hash, m: Manifest, packId: Bytes, signature: Bytes)
    ensures PackId(h, m.(packId := packId, signature := signature)) == PackId(h, m)
    ensures ReadManifest(CanonicalBytes(m), NoManifest) == Some(Manifest([], m.title, m.publisher, m.stickers, []))
  {
    ManifestRoundTrip(m.(packId := [], signature := []));
  }

  /** A pack id fixes the pack: title, publisher and every entry in order, or a collision. */
  lemma PackIdFixesPack(h: Hash, m: Manifest, n: Manifest)
    requires PackId(h, m) == PackId(h, n)
    ensures || (m.title == n.title && m.publisher == n.publisher && m.stickers == n.stickers)
            || Collides(h, Collision(CanonicalBytes(m), CanonicalBytes(n)))
  {
    if CanonicalBytes(m) == CanonicalBytes(n) {
      EncodeIsInjective(m.(packId := [], signature := []), n.(packId := [], signature := []));
    }
  }
}
