/** Sticker packs: the rules a manifest must meet, and the table that is keyed by its identity. */
module StickerPacks {
  import opened Bytes
  import opened StickerManifest

  // ------------------------------------------------------------------------
  // Validation
  // ------------------------------------------------------------------------

  const HASH_LEN: nat := 32
  const CANVAS: nat := 512
  const MAX_BLOB_BYTES: nat := 100 * 1024
  const MAX_STICKERS: nat := 120
  const EMOJI_MIN_BYTES: nat := 1
  const EMOJI_MAX_BYTES: nat := 32

  predicate ValidEntry(e: Entry) {
    && |e.sha256| == HASH_LEN
    && EMOJI_MIN_BYTES <= |e.emoji| <= EMOJI_MAX_BYTES
    && e.width == CANVAS && e.height == CANVAS
    && 1 <= e.byteLen <= MAX_BLOB_BYTES
  }

  /** `blank` says which texts are empty once trimmed. */
  predicate ValidManifest(h: Hash, blank: Bytes -> bool, m: Manifest) {
    && 1 <= |m.stickers| <= MAX_STICKERS
    && !blank(m.title) && !blank(m.publisher)
    && (forall i | 0 <= i < |m.stickers| :: ValidEntry(m.stickers[i]))
    && |m.packId| == HASH_LEN
    && m.packId == PackId(h, m)
  }

  datatype Refusal = StickerCount | EmptyTitle | EmptyPublisher | BadSticker(index: nat) | PackIdLength | PackIdMismatch

  /** The source's checks in its order; a bad sticker is reported by its first position. */
  method ValidateManifest(h: Hash, blank: Bytes -> bool, m: Manifest) returns (r: Option<Refusal>)
    ensures r.None? <==> ValidManifest(h, blank, m)
    ensures r.None? <==>
            && 1 <= |m.stickers| <= 120 && !blank(m.title) && !blank(m.publisher)
            && (forall i | 0 <= i < |m.stickers| ::
                  && |m.stickers[i].sha256| == 32 && 1 <= |m.stickers[i].emoji| <= 32
                  && m.stickers[i].width == 512 && m.stickers[i].height == 512
                  && 1 <= m.stickers[i].byteLen <= 102_400)
            && m.packId == h(Encode(Manifest([], m.title, m.publisher, m.stickers, [])))
    ensures r.Some? && r.value.BadSticker? ==>
              var i := r.value.index;
              && i < |m.stickers| <= MAX_STICKERS && !ValidEntry(m.stickers[i])
              && forall j | 0 <= j < i :: ValidEntry(m.stickers[j])
    ensures r == Some(PackIdMismatch) ==> |m.packId| == HASH_LEN && m.packId != PackId(h, m)
  {
    if |m.stickers| == 0 || |m.stickers| > MAX_STICKERS {
      return Some(StickerCount);
    }
    if blank(m.title) {
      return Some(EmptyTitle);
    }
    if blank(m.publisher) {
      return Some(EmptyPublisher);
    }
    for i := 0 to |m.stickers|
      invariant forall j | 0 <= j < i :: ValidEntry(m.stickers[j])
    {
      if !ValidEntry(m.stickers[i]) {
        return Some(BadSticker(i));
      }
    }
    if |m.packId| != HASH_LEN {
      return Some(PackIdLength);
    }
    return if m.packId != PackId(h, m) then Some(PackIdMismatch) else None;
  }

  // ------------------------------------------------------------------------
  // The table
  // ------------------------------------------------------------------------

  /** The columns of `sticker_packs`. */
  datatype PackRow = PackRow(manifestBytes: Bytes, title: Bytes, publisher: Bytes, count: nat, total: nat, cover: Bytes,
                             publishedAt: nat, listed: bool)

  type Table = map<Bytes, PackRow>

  function TotalBytes(stickers: seq<Entry>): nat {
    if stickers == [] then 0 else TotalBytes(stickers[..|stickers| - 1]) + stickers[|stickers| - 1].byteLen
  }

  /** The size of a pack is the sum of its stickers' sizes. */
  lemma {:induction false} TotalIsSum(stickers: seq<Entry>, more: seq<Entry>)
    ensures TotalBytes(stickers + more) == TotalBytes(stickers) + TotalBytes(more)
    ensures |stickers| == 1 ==> TotalBytes(stickers) == stickers[0].byteLen
  {
    if more == [] {
      assert stickers + more == stickers;
    } else {
      var init := more[..|more| - 1];
      TotalIsSum(stickers, init);
      assert (stickers + more)[..|stickers + more| - 1] == stickers + init;
    }
    if |stickers| == 1 {
      assert stickers[..0] == [];
    }
  }

  datatype Request =
    | Upsert(manifest: Manifest, bytes: Bytes, now: nat)
    | SetListed(packId: Bytes, listed: bool)

  /** Insert unlisted, or replace only the manifest bytes of the pack that is there. */
  function DoUpsert(rows: Table, m: Manifest, bytes: Bytes, now: nat): Table
    requires m.stickers != []
  {
    if m.packId in rows then rows[m.packId := rows[m.packId].(manifestBytes := bytes)]
    else rows[m.packId :=
           PackRow(bytes, m.title, m.publisher, |m.stickers|, TotalBytes(m.stickers), m.stickers[0].sha256, now, false)]
  }

  function Step(h: Hash, blank: Bytes -> bool, rows: Table, q: Request): Table {
    match q
    case Upsert(m, bytes, now) => if ValidManifest(h, blank, m) then DoUpsert(rows, m, bytes, now) else rows
    case SetListed(id, listed) => if id in rows then rows[id := rows[id].(listed := listed)] else rows
  }

  function Run(h: Hash, blank: Bytes -> bool, requests: seq<Request>): Table {
    if requests == [] then map[]
    else Step(h, blank, Run(h, blank, requests[..|requests| - 1]), requests[|requests| - 1])
  }

  class PackTable {
    var rows: Table

    constructor ()
      ensures rows == map[]
    {
      rows := map[];
    }

    /** Validate, sum, upsert. */
    method UpsertUnlisted(h: Hash, blank: Bytes -> bool, m: Manifest, bytes: Bytes, now: nat) returns (ok: bool)
      modifies this
      ensures ok <==> ValidManifest(h, blank, m)
      ensures rows == Step(h, blank, old(rows), Upsert(m, bytes, now))
      ensures ok && m.packId in old(rows) ==>
                rows == old(rows)[m.packId := old(rows)[m.packId].(manifestBytes := bytes)]
      ensures ok && m.packId !in old(rows) ==>
                rows == old(rows)[m.packId := PackRow(bytes, m.title, m.publisher, |m.stickers|, TotalBytes(m.stickers),
                                                      m.stickers[0].sha256, now, false)]
      ensures !ok ==> rows == old(rows)
    {
      var refusal := ValidateManifest(h, blank, m);
      if refusal.Some? {
        return false;
      }
      var total := 0;
      for i := 0 to |m.stickers|
        invariant total == TotalBytes(m.stickers[..i])
      {
        assert m.stickers[..i + 1][..i] == m.stickers[..i];
        total := total + m.stickers[i].byteLen;
      }
      assert m.stickers[..|m.stickers|] == m.stickers;
      if m.packId in rows {
        rows := rows[m.packId := rows[m.packId].(manifestBytes := bytes)];
      } else {
        rows := rows[m.packId :=
          PackRow(bytes, m.title, m.publisher, |m.stickers|, total, m.stickers[0].sha256, now, false)];
      }
      return true;
    }

    method SetListedFlag(h: Hash, blank: Bytes -> bool, id: Bytes, listed: bool) returns (found: bool)
      modifies this
      ensures found <==> id in old(rows)
      ensures rows == Step(h, blank, old(rows), SetListed(id, listed))
      ensures rows == if found then old(rows)[id := old(rows)[id].(listed := listed)] else old(rows)
    {
      found := id in rows;
      if found {
        rows := rows[id := rows[id].(listed := listed)];
      }
    }
  }

  /** The summary columns of `row` are those of `m`. */
  ghost predicate Summarises(row: PackRow, m: Manifest) {
    && m.stickers != []
    && row.title == m.title && row.publisher == m.publisher && row.count == |m.stickers|
    && row.total == TotalBytes(m.stickers) && row.cover == m.stickers[0].sha256
  }

  predicate Accepts(h: Hash, blank: Bytes -> bool, q: Request, id: Bytes) {
    q.Upsert? && ValidManifest(h, blank, q.manifest) && q.manifest.packId == id
  }

  /** The first accepted manifest that claims `id`. */
  ghost function Origin(h: Hash, blank: Bytes -> bool, requests: seq<Request>, id: Bytes): Option<Manifest> {
    if requests == [] then None
    else if Accepts(h, blank, requests[0], id) then Some(requests[0].manifest)
    else Origin(h, blank, requests[1..], id)
  }

  /** A first accepted manifest was accepted, and any accepted one has a first. */
  lemma {:induction false} OriginIsAccepted(h: Hash, blank: Bytes -> bool, requests: seq<Request>, id: Bytes)
    ensures var origin := Origin(h, blank, requests, id);
            && (origin.Some? <==> exists i :: 0 <= i < |requests| && Accepts(h, blank, requests[i], id))
            && (origin.Some? ==> ValidManifest(h, blank, origin.value) && origin.value.packId == id)
  {
    if requests != [] && !Accepts(h, blank, requests[0], id) {
      OriginIsAccepted(h, blank, requests[1..], id);
      forall i | 0 < i < |requests|
        ensures requests[i] == requests[1..][i - 1]
      {
      }
    }
  }

  lemma {:induction false} OriginOfMore(h: Hash, blank: Bytes -> bool, requests: seq<Request>, q: Request, id: Bytes)
    ensures var first := Origin(h, blank, requests, id);
            Origin(h, blank, requests + [q], id)
            == if first.Some? then first else if Accepts(h, blank, q, id) then Some(q.manifest) else None
  {
    if requests != [] {
      OriginOfMore(h, blank, requests[1..], q, id);
      assert (requests + [q])[1..] == requests[1..] + [q];
    }
  }

  /** What a table holds under `id`, given the first accepted manifest that claims it. */
  ghost predicate HoldsOrigin(rows: Table, id: Bytes, origin: Option<Manifest>) {
    if origin.Some? then id in rows && Summarises(rows[id], origin.value) else id !in rows
  }

  lemma {:induction false} RunHoldsOrigin(h: Hash, blank: Bytes -> bool, requests: seq<Request>, id: Bytes)
    ensures HoldsOrigin(Run(h, blank, requests), id, Origin(h, blank, requests, id))
  {
    if requests != [] {
      var n := |requests| - 1;
      RunHoldsOrigin(h, blank, requests[..n], id);
      OriginOfMore(h, blank, requests[..n], requests[n], id);
      assert requests == requests[..n] + [requests[n]];
    }
  }

  /** Over every run of upserts and listings: each accepted manifest has a row under its id
      whose title, publisher, count, size and cover are that manifest's own, although a second
      upsert rewrites nothing but the bytes; or it collides with the first one stored. */
  lemma SummaryColumnsStayRight(h: Hash, blank: Bytes -> bool, requests: seq<Request>, i: nat)
    requires i < |requests| && requests[i].Upsert? && ValidManifest(h, blank, requests[i].manifest)
    ensures var rows, m := Run(h, blank, requests), requests[i].manifest;
            && m.packId in rows
            && (Summarises(rows[m.packId], m)
                || (var origin := Origin(h, blank, requests, m.packId);
                    origin.Some? && Collides(h, Collision(CanonicalBytes(m), CanonicalBytes(origin.value)))))
  {
    var m := requests[i].manifest;
    assert Accepts(h, blank, requests[i], m.packId);
    OriginIsAccepted(h, blank, requests, m.packId);
    RunHoldsOrigin(h, blank, requests, m.packId);
    PackIdFixesPack(h, m, Origin(h, blank, requests, m.packId).value);
  }

  lemma StepKeepsPublished(h: Hash, blank: Bytes -> bool, rows: Table, q: Request, id: Bytes)
    requires id in rows
    ensures id in Step(h, blank, rows, q) && Step(h, blank, rows, q)[id].publishedAt == rows[id].publishedAt
  {
  }

  /** A pack keeps the time it was first stored, through every later upsert and listing. */
  lemma {:induction false} PublishedOnce(h: Hash, blank: Bytes -> bool, requests: seq<Request>, i: nat, id: Bytes)
    requires i <= |requests| && id in Run(h, blank, requests[..i])
    ensures id in Run(h, blank, requests)
    ensures Run(h, blank, requests)[id].publishedAt == Run(h, blank, requests[..i])[id].publishedAt
  {
    if i == |requests| {
      assert requests[..i] == requests;
    } else {
      var init, last := requests[..|requests| - 1], requests[|requests| - 1];
      assert init[..i] == requests[..i];
      PublishedOnce(h, blank, init, i, id);
      StepKeepsPublished(h, blank, Run(h, blank, init), last, id);
      assert Run(h, blank, requests) == Step(h, blank, Run(h, blank, init), last);
    }
  }
}
