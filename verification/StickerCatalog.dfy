/** The sticker catalog: its page cursor, one page of it, and walks over all of it. */
module StickerCatalog {
  import opened Bytes
  import StickerPacks

  // ------------------------------------------------------------------------
  // Positions
  // ------------------------------------------------------------------------

  const I64_MIN: int := -0x8000_0000_0000_0000
  const I64_LIMIT: int := 0x8000_0000_0000_0000

  type Micros = x: int | I64_MIN <= x < I64_LIMIT

  /** A row's place in the catalog: when it was published, and its pack id. */
  datatype Position = Position(micros: Micros, id: Digest)

  /** Byte strings in dictionary order, as the database compares `BYTEA`. */
  predicate Less(a: Bytes, b: Bytes) {
    b != [] && (a == [] || a[0] < b[0] || (a[0] == b[0] && Less(a[1..], b[1..])))
  }

  lemma {:induction false} LessIsTransitive(a: Bytes, b: Bytes, c: Bytes)
    requires Less(a, b) && Less(b, c)
    ensures Less(a, c)
  {
    if a != [] && a[0] == b[0] == c[0] {
      LessIsTransitive(a[1..], b[1..], c[1..]);
    }
  }

  lemma {:induction false} LessIsTotal(a: Bytes, b: Bytes)
    ensures Less(a, b) || Less(b, a) || a == b
    ensures !(Less(a, b) && Less(b, a))
  {
    if a != [] && b != [] {
      LessIsTotal(a[1..], b[1..]);
      assert a == [a[0]] + a[1..] && b == [b[0]] + b[1..];
    }
  }

  /** Dictionary order, spelled out: `a` and `b` agree up to `k`, and there `a` ends or has the
      smaller byte. */
  ghost predicate Precedes(a: Bytes, b: Bytes, k: nat) {
    k <= |a| && k < |b| && a[..k] == b[..k] && (k == |a| || a[k] < b[k])
  }

  lemma {:induction false} LessPrecedes(a: Bytes, b: Bytes) returns (k: nat)
    requires Less(a, b)
    ensures Precedes(a, b, k)
  {
    k := 0;
    if a != [] && a[0] == b[0] {
      var rest := LessPrecedes(a[1..], b[1..]);
      k := rest + 1;
      assert a[..k] == [a[0]] + a[1..][..rest] && b[..k] == [b[0]] + b[1..][..rest];
    }
  }

  lemma {:induction false} PrecedesLess(a: Bytes, b: Bytes, k: nat)
    requires Precedes(a, b, k)
    ensures Less(a, b)
  {
    if k > 0 {
      assert a[..k][0] == b[..k][0];
      assert a[1..][..k - 1] == a[..k][1..] && b[1..][..k - 1] == b[..k][1..];
      PrecedesLess(a[1..], b[1..], k - 1);
    }
  }

  lemma LessIsDictionary(a: Bytes, b: Bytes)
    ensures Less(a, b) <==> exists k: nat :: Precedes(a, b, k)
  {
    if Less(a, b) {
      var k := LessPrecedes(a, b);
    }
    if k: nat :| Precedes(a, b, k) {
      PrecedesLess(a, b, k);
    }
  }

  /** `p` is listed before `q`: newest first, then by id from the top. */
  predicate Before(p: Position, q: Position) {
    p.micros > q.micros || (p.micros == q.micros && Less(q.id, p.id))
  }

  lemma BeforeIsTransitive(p: Position, q: Position, r: Position)
    requires Before(p, q) && Before(q, r)
    ensures Before(p, r)
  {
    if p.micros == r.micros {
      LessIsTransitive(r.id, q.id, p.id);
    }
  }

  lemma BeforeIsTotal(p: Position, q: Position)
    ensures Before(p, q) || Before(q, p) || p == q
    ensures !(Before(p, q) && Before(q, p))
  {
    LessIsTotal(p.id, q.id);
  }

  // ------------------------------------------------------------------------
  // The page cursor
  // ------------------------------------------------------------------------

  const CURSOR_LEN: nat := 40

  /** The 64-bit two's complement of a signed number. */
  function Unsigned(x: Micros): nat {
    if x >= 0 then x else x + Pow256(8)
  }

  function EncodeCursor(p: Position): (token: Bytes)
    ensures |token| == CURSOR_LEN && token[8..] == p.id
    ensures FromBigEndian(token[..8]) == if p.micros >= 0 then p.micros else p.micros + 0x1_0000_0000_0000_0000
  {
    Pow256Of8();
    BigEndianRoundTrip(Unsigned(p.micros), 8);
    assert (BigEndian(Unsigned(p.micros), 8) + p.id)[..8] == BigEndian(Unsigned(p.micros), 8);
    BigEndian(Unsigned(p.micros), 8) + p.id
  }

  function DecodeCursor(token: Bytes): (r: Option<Position>)
    ensures r.Some? <==> |token| == CURSOR_LEN
  {
    if |token| != CURSOR_LEN then None
    else
      Pow256Of8();
      var n := FromBigEndian(token[..8]);
      FromBigEndianRoundTrip(token[..8]);
      Some(Position(if n < I64_LIMIT then n else n - Pow256(8), token[8..]))
  }

  lemma CursorRoundTrip(p: Position)
    ensures DecodeCursor(EncodeCursor(p)) == Some(p)
  {
    Pow256Of8();
    BigEndianRoundTrip(Unsigned(p.micros), 8);
    var token := EncodeCursor(p);
    assert token[..8] == BigEndian(Unsigned(p.micros), 8) && token[8..] == p.id;
  }

  /** Every 40-byte token is the token of one position. */
  lemma TokenRoundTrip(token: Bytes)
    requires |token| == CURSOR_LEN
    ensures EncodeCursor(DecodeCursor(token).value) == token
  {
    Pow256Of8();
    FromBigEndianRoundTrip(token[..8]);
    assert token == token[..8] + token[8..];
  }

  // ------------------------------------------------------------------------
  // Ordering a query's rows
  // ------------------------------------------------------------------------

  function Insert(p: Position, rows: seq<Position>): seq<Position> {
    if rows == [] || Before(p, rows[0]) then [p] + rows else [rows[0]] + Insert(p, rows[1..])
  }

  function Sort(rows: seq<Position>): seq<Position> {
    if rows == [] then [] else Insert(rows[0], Sort(rows[1..]))
  }

  /** Strictly in listing order, so without repeats. */
  predicate InOrder(rows: seq<Position>) {
    rows == [] || ((forall q | q in rows[1..] :: Before(rows[0], q)) && InOrder(rows[1..]))
  }

  /** No position twice; the pack id is the table's key. */
  predicate Distinct(rows: seq<Position>) {
    forall i, j | 0 <= i < j < |rows| :: rows[i] != rows[j]
  }

  lemma {:induction false} InsertHolds(p: Position, rows: seq<Position>, q: Position)
    ensures q in Insert(p, rows) <==> q == p || q in rows
  {
    if rows != [] && !Before(p, rows[0]) {
      InsertHolds(p, rows[1..], q);
    }
  }

  lemma {:induction false} InsertKeepsOrder(p: Position, rows: seq<Position>)
    requires InOrder(rows) && p !in rows
    ensures InOrder(Insert(p, rows)) && |Insert(p, rows)| == |rows| + 1
  {
    if rows != [] {
      var out := Insert(p, rows);
      if Before(p, rows[0]) {
        forall q | q in out[1..]
          ensures Before(p, q)
        {
          if q != rows[0] {
            BeforeIsTransitive(p, rows[0], q);
          }
        }
      } else {
        BeforeIsTotal(p, rows[0]);
        InsertKeepsOrder(p, rows[1..]);
        forall q | q in out[1..]
          ensures Before(rows[0], q)
        {
          InsertHolds(p, rows[1..], q);
        }
      }
    }
  }

  /** Sorting puts the rows in order, and keeps each of them. */
  lemma {:induction false} SortIsRight(rows: seq<Position>)
    requires Distinct(rows)
    ensures InOrder(Sort(rows)) && |Sort(rows)| == |rows|
    ensures forall q :: q in Sort(rows) <==> q in rows
  {
    if rows != [] {
      SortIsRight(rows[1..]);
      assert rows[0] !in rows[1..];
      InsertKeepsOrder(rows[0], Sort(rows[1..]));
      forall q
        ensures q in Sort(rows) <==> q in rows
      {
        InsertHolds(rows[0], Sort(rows[1..]), q);
      }
    }
  }

  /** There is only one way to list a set of rows in order. */
  lemma {:induction false} OrderIsUnique(a: seq<Position>, b: seq<Position>)
    requires InOrder(a) && InOrder(b)
    requires forall q :: q in a <==> q in b
    ensures a == b
  {
    assert a != [] ==> a[0] in a;
    assert b != [] ==> b[0] in b;
    if a != [] {
      BeforeIsTotal(a[0], b[0]);
      forall q
        ensures q in a[1..] <==> q in b[1..]
      {
        BeforeIsTotal(a[0], q);
        assert q in a <==> q == a[0] || q in a[1..];
        assert q in b <==> q == b[0] || q in b[1..];
      }
      OrderIsUnique(a[1..], b[1..]);
      assert a == [a[0]] + a[1..] && b == [b[0]] + b[1..];
    }
  }

  // ------------------------------------------------------------------------
  // One page
  // ------------------------------------------------------------------------

  const DEFAULT_PAGE: nat := 50
  const MAX_PAGE: nat := 200

  function PageSize(requested: nat): (limit: nat)
    ensures 1 <= limit <= MAX_PAGE
    ensures requested == 0 ==> limit == DEFAULT_PAGE
    ensures 0 < requested ==> limit <= requested && (limit == requested || limit == MAX_PAGE)
  {
    if requested == 0 then DEFAULT_PAGE else if requested < MAX_PAGE then requested else MAX_PAGE
  }

  /** `p` lies strictly past the cursor. */
  predicate Past(after: Option<Position>, p: Position) {
    after.Some? ==> Before(after.value, p)
  }

  function PastRows(rows: seq<Position>, after: Option<Position>): (out: seq<Position>)
    ensures forall q :: q in out <==> q in rows && Past(after, q)
    ensures Distinct(rows) ==> Distinct(out)
  {
    if rows == [] then []
    else
      var rest := PastRows(rows[1..], after);
      assert rows == [rows[0]] + rows[1..];
      if Past(after, rows[0]) then [rows[0]] + rest else rest
  }

  /** `rows` are the listed packs in any order. */
  function ListPacks(rows: seq<Position>, after: Option<Position>, limit: nat): seq<Position> {
    var found := Sort(PastRows(rows, after));
    if |found| <= limit then found else found[..limit]
  }

  datatype Page = Page(packs: seq<Position>, next: Bytes)

  /** `None` is `INVALID_ARGUMENT`. A page goes on exactly when it is full, and then from its
      last pack. */
  function ListStickerPacks(rows: seq<Position>, token: Bytes, requested: nat): (r: Option<Page>)
    ensures r.None? <==> |token| !in {0, CURSOR_LEN}
    ensures r.Some? ==> |r.value.packs| <= PageSize(requested)
    ensures r.Some? ==> (r.value.next != [] <==> |r.value.packs| == PageSize(requested))
    ensures r.Some? && r.value.next != [] ==>
              r.value.packs != [] && DecodeCursor(r.value.next) == Some(r.value.packs[|r.value.packs| - 1])
  {
    var after := DecodeCursor(token);
    if token != [] && after.None? then None
    else
      var limit := PageSize(requested);
      var packs := ListPacks(rows, after, limit);
      if |packs| != limit then Some(Page(packs, []))
      else
        CursorRoundTrip(packs[|packs| - 1]);
        Some(Page(packs, EncodeCursor(packs[|packs| - 1])))
  }

  lemma {:induction false} PrefixIsInOrder(rows: seq<Position>, n: nat)
    requires InOrder(rows) && n <= |rows|
    ensures InOrder(rows[..n])
    ensures n > 0 ==> forall q | q in rows :: q in rows[..n] || Before(rows[n - 1], q)
  {
    if n > 0 {
      PrefixIsInOrder(rows[1..], n - 1);
      assert rows[..n][1..] == rows[1..][..n - 1];
      forall q | q in rows
        ensures q in rows[..n] || Before(rows[n - 1], q)
      {
        assert q == rows[0] || q in rows[1..];
        assert rows[..n] == [rows[0]] + rows[1..][..n - 1];
      }
    }
  }

  /** A page is in order and past its cursor; every listed pack past the cursor is on it, or
      the page is full and the pack lies past the page's last. */
  lemma PageIsRight(rows: seq<Position>, after: Option<Position>, limit: nat)
    requires Distinct(rows) && limit > 0
    ensures var packs := ListPacks(rows, after, limit);
            && InOrder(packs) && |packs| <= limit
            && (forall q | q in packs :: q in rows && Past(after, q))
            && (forall q | q in rows && Past(after, q) ::
                  q in packs || (|packs| == limit && Before(packs[limit - 1], q)))
  {
    var found := Sort(PastRows(rows, after));
    SortIsRight(PastRows(rows, after));
    if |found| > limit {
      PrefixIsInOrder(found, limit);
    }
  }

  // ------------------------------------------------------------------------
  // A walk over the catalog
  // ------------------------------------------------------------------------

  /** What the catalog holds when a page is asked for, and the size asked for. */
  datatype Call = Call(rows: seq<Position>, requested: nat)

  datatype Walked = Walked(packs: seq<Position>, ended: bool)

  /** Follow the page tokens until one is empty or the calls run out. */
  function Walk(calls: seq<Call>, token: Bytes): Walked {
    if calls == [] then Walked([], false)
    else
      match ListStickerPacks(calls[0].rows, token, calls[0].requested)
      case None => Walked([], false)
      case Some(page) =>
        if page.next == [] then Walked(page.packs, true)
        else
          var more := Walk(calls[1..], page.next);
          Walked(page.packs + more.packs, more.ended)
  }

  ghost predicate AllDistinct(calls: seq<Call>) {
    forall i | 0 <= i < |calls| :: Distinct(calls[i].rows)
  }

  ghost predicate AlwaysListed(calls: seq<Call>, q: Position) {
    forall i | 0 <= i < |calls| :: q in calls[i].rows
  }

  ghost predicate EverListed(calls: seq<Call>, q: Position) {
    exists i :: 0 <= i < |calls| && q in calls[i].rows
  }

  function Sizes(calls: seq<Call>): nat {
    if calls == [] then 0 else PageSize(calls[0].requested) + Sizes(calls[1..])
  }

  ghost predicate WalkedRight(calls: seq<Call>, after: Option<Position>, w: Walked) {
    && InOrder(w.packs)
    && (forall q | q in w.packs :: Past(after, q) && EverListed(calls, q))
    && (w.ended ==> |w.packs| < Sizes(calls) && forall q | AlwaysListed(calls, q) && Past(after, q) :: q in w.packs)
    && (!w.ended ==> |w.packs| == Sizes(calls))
  }

  lemma {:induction false} JoinIsInOrder(a: seq<Position>, b: seq<Position>)
    requires InOrder(a) && InOrder(b) && a != []
    requires forall q | q in b :: Before(a[|a| - 1], q)
    ensures InOrder(a + b)
  {
    if |a| == 1 {
      assert (a + b)[1..] == b;
    } else {
      JoinIsInOrder(a[1..], b);
      assert (a + b)[1..] == a[1..] + b;
      forall q | q in a[1..] + b
        ensures Before(a[0], q)
      {
        if q in b {
          assert a[|a| - 1] in a[1..] by {
            assert a[|a| - 1] == a[1..][|a| - 2];
          }
          BeforeIsTransitive(a[0], a[|a| - 1], q);
        }
      }
    }
  }

  lemma LaterCalls(calls: seq<Call>, q: Position)
    requires calls != []
    ensures EverListed(calls, q) <==> q in calls[0].rows || EverListed(calls[1..], q)
    ensures AlwaysListed(calls, q) <==> q in calls[0].rows && AlwaysListed(calls[1..], q)
  {
    var rest := calls[1..];
    assert forall i | 0 < i < |calls| :: calls[i] == rest[i - 1];
    assert forall i | 0 <= i < |rest| :: rest[i] == calls[i + 1];
  }

  /** A full page, then a right walk from its last pack, is a right walk. */
  lemma FullPageThenWalk(calls: seq<Call>, after: Option<Position>, more: Walked)
    requires calls != [] && AllDistinct(calls)
    requires var packs := ListPacks(calls[0].rows, after, PageSize(calls[0].requested));
             && |packs| == PageSize(calls[0].requested)
             && WalkedRight(calls[1..], Some(packs[|packs| - 1]), more)
    ensures var packs := ListPacks(calls[0].rows, after, PageSize(calls[0].requested));
            WalkedRight(calls, after, Walked(packs + more.packs, more.ended))
  {
    var limit := PageSize(calls[0].requested);
    var packs := ListPacks(calls[0].rows, after, limit);
    var last := packs[limit - 1];
    PageIsRight(calls[0].rows, after, limit);
    JoinIsInOrder(packs, more.packs);
    forall q | q in packs + more.packs
      ensures Past(after, q) && EverListed(calls, q)
    {
      LaterCalls(calls, q);
      if q in more.packs && after.Some? {
        assert last in packs;
        BeforeIsTransitive(after.value, last, q);
      }
    }
    forall q | more.ended && AlwaysListed(calls, q) && Past(after, q)
      ensures q in packs + more.packs
    {
      LaterCalls(calls, q);
    }
  }

  lemma LastPage(calls: seq<Call>, after: Option<Position>)
    requires calls != [] && AllDistinct(calls)
    requires |ListPacks(calls[0].rows, after, PageSize(calls[0].requested))| != PageSize(calls[0].requested)
    ensures WalkedRight(calls, after, Walked(ListPacks(calls[0].rows, after, PageSize(calls[0].requested)), true))
  {
    PageIsRight(calls[0].rows, after, PageSize(calls[0].requested));
    forall q
      ensures EverListed(calls, q) <==> q in calls[0].rows || EverListed(calls[1..], q)
      ensures AlwaysListed(calls, q) <==> q in calls[0].rows && AlwaysListed(calls[1..], q)
    {
      LaterCalls(calls, q);
    }
  }

  /** Whatever is published, listed or withdrawn between the calls, and whatever sizes are
      asked for: a walk shows packs in order, none twice, only packs that were listed, and once
      it ends it has shown every pack past the token that was listed throughout. */
  lemma {:induction false} WalkIsRight(calls: seq<Call>, token: Bytes)
    requires AllDistinct(calls) && |token| in {0, CURSOR_LEN}
    ensures WalkedRight(calls, DecodeCursor(token), Walk(calls, token))
  {
    if calls != [] {
      var after := DecodeCursor(token);
      var limit := PageSize(calls[0].requested);
      var packs := ListPacks(calls[0].rows, after, limit);
      if |packs| == limit {
        var next := EncodeCursor(packs[limit - 1]);
        CursorRoundTrip(packs[limit - 1]);
        WalkIsRight(calls[1..], next);
        FullPageThenWalk(calls, after, Walk(calls[1..], next));
      } else {
        LastPage(calls, after);
      }
    }
  }

  lemma {:induction false} SublistIsNoLonger(a: seq<Position>, b: seq<Position>)
    requires InOrder(a) && InOrder(b)
    requires forall q | q in a :: q in b
    ensures |a| <= |b|
    decreases |b|
  {
    if a != [] {
      assert a[0] in a;
      assert b != [];
      BeforeIsTotal(a[0], b[0]);
      var rest := if a[0] == b[0] then a[1..] else a;
      forall q | q in rest
        ensures q in b[1..]
      {
        BeforeIsTotal(b[0], q);
        if a[0] != b[0] {
          assert a[0] in b[1..];
          BeforeIsTotal(a[0], q);
          if q != a[0] {
            BeforeIsTransitive(b[0], a[0], q);
          }
        }
        assert q in a && q in b && q != b[0];
      }
      SublistIsNoLonger(rest, b[1..]);
    }
  }

  /** Over a catalog that does not change, a walk from the start ends just when the sizes asked
      for add up to more than the catalog, and then it is the whole catalog, in order, once. */
  lemma WalkOfAFixedCatalog(rows: seq<Position>, calls: seq<Call>)
    requires Distinct(rows)
    requires forall i | 0 <= i < |calls| :: calls[i].rows == rows
    ensures Walk(calls, []).ended <==> Sizes(calls) > |rows|
    ensures Walk(calls, []).ended ==> Walk(calls, []).packs == Sort(rows)
  {
    var w := Walk(calls, []);
    WalkIsRight(calls, []);
    SortIsRight(rows);
    forall q | q in w.packs
      ensures q in Sort(rows)
    {
      assert EverListed(calls, q);
    }
    SublistIsNoLonger(w.packs, Sort(rows));
    if w.ended {
      forall q | q in rows
        ensures q in w.packs
      {
        assert AlwaysListed(calls, q);
      }
      OrderIsUnique(w.packs, Sort(rows));
    }
  }

  // ------------------------------------------------------------------------
  // A walk over the pack table
  // ------------------------------------------------------------------------

  lemma {:induction false} InOrderIsDistinct(rows: seq<Position>)
    requires InOrder(rows)
    ensures Distinct(rows)
  {
    if rows != [] {
      InOrderIsDistinct(rows[1..]);
      forall j | 0 < j < |rows|
        ensures rows[0] != rows[j]
      {
        assert rows[j] == rows[1..][j - 1];
        BeforeIsTotal(rows[0], rows[j]);
      }
      assert forall i, j | 0 < i < j < |rows| :: rows[i] == rows[1..][i - 1] && rows[j] == rows[1..][j - 1];
    }
  }

  ghost predicate Listed(t: StickerPacks.Table, p: Position) {
    p.id in t && t[p.id].listed && t[p.id].publishedAt == p.micros
  }

  /** `rows` are the listed packs of a table, in any order. */
  ghost predicate Lists(rows: seq<Position>, t: StickerPacks.Table) {
    Distinct(rows) && forall p: Position :: p in rows <==> Listed(t, p)
  }

  ghost function TableAt(h: Hash, blank: Bytes -> bool, requests: seq<StickerPacks.Request>, n: nat): StickerPacks.Table
    requires n <= |requests|
  {
    StickerPacks.Run(h, blank, requests[..n])
  }

  /** Call `i` of the walk meets the table as the first `at[i]` requests left it. */
  ghost predicate WalksTheTable(
      h: Hash, blank: Bytes -> bool, requests: seq<StickerPacks.Request>, at: seq<nat>, calls: seq<Call>)
  {
    && |at| == |calls| && (forall i | 0 <= i < |at| :: at[i] <= |requests|)
    && forall i | 0 <= i < |calls| :: Lists(calls[i].rows, TableAt(h, blank, requests, at[i]))
  }

  /** A pack has one position in all of a table's history. */
  lemma OnePositionEach(
      h: Hash, blank: Bytes -> bool, requests: seq<StickerPacks.Request>, m: nat, n: nat, p: Position, q: Position)
    requires m <= |requests| && n <= |requests| && p.id == q.id
    requires Listed(TableAt(h, blank, requests, m), p) && Listed(TableAt(h, blank, requests, n), q)
    ensures p == q
  {
    StickerPacks.PublishedOnce(h, blank, requests, m, p.id);
    StickerPacks.PublishedOnce(h, blank, requests, n, q.id);
  }

  lemma ShownOnce(
      h: Hash, blank: Bytes -> bool, requests: seq<StickerPacks.Request>, at: seq<nat>, calls: seq<Call>,
      p: Position, q: Position)
    requires WalksTheTable(h, blank, requests, at, calls)
    requires EverListed(calls, p) && EverListed(calls, q) && p != q
    ensures p.id != q.id
  {
    var i :| 0 <= i < |calls| && p in calls[i].rows;
    var j :| 0 <= j < |calls| && q in calls[j].rows;
    if p.id == q.id {
      OnePositionEach(h, blank, requests, at[i], at[j], p, q);
    }
  }

  lemma {:induction false} InOrderAt(rows: seq<Position>, i: nat, j: nat)
    requires InOrder(rows) && i < j < |rows|
    ensures Before(rows[i], rows[j])
  {
    if i == 0 {
      assert rows[j] == rows[1..][j - 1];
    } else {
      InOrderAt(rows[1..], i - 1, j - 1);
    }
  }

  /** A walk over the pack table, with any upserts and listings between its calls: the newest packs
      come first, and of packs published together the one with the greater id; no pack is shown
      twice, each shown pack was listed at some call, and once the walk ends every pack
      that was listed at all of them has been shown. */
  lemma WalkOfTheTable(
      h: Hash, blank: Bytes -> bool, requests: seq<StickerPacks.Request>, at: seq<nat>, calls: seq<Call>)
    requires WalksTheTable(h, blank, requests, at, calls)
    ensures var w := Walk(calls, []);
            && (forall i, j | 0 <= i < j < |w.packs| ::
                  && w.packs[i].id != w.packs[j].id && w.packs[i].micros >= w.packs[j].micros
                  && (w.packs[i].micros == w.packs[j].micros ==> Less(w.packs[j].id, w.packs[i].id)))
            && (forall p | p in w.packs ::
                  exists i :: 0 <= i < |at| && Listed(TableAt(h, blank, requests, at[i]), p))
            && (w.ended ==>
                  forall p: Position | (forall i | 0 <= i < |at| :: Listed(TableAt(h, blank, requests, at[i]), p)) ::
                    p in w.packs)
  {
    WalkIsRight(calls, []);
    var w := Walk(calls, []);
    InOrderIsDistinct(w.packs);
    forall i, j | 0 <= i < j < |w.packs|
      ensures w.packs[i].id != w.packs[j].id && Before(w.packs[i], w.packs[j])
    {
      InOrderAt(w.packs, i, j);
      assert w.packs[i] in w.packs && w.packs[j] in w.packs;
      ShownOnce(h, blank, requests, at, calls, w.packs[i], w.packs[j]);
    }
    forall p | p in w.packs
      ensures exists i :: 0 <= i < |at| && Listed(TableAt(h, blank, requests, at[i]), p)
    {
      var i :| 0 <= i < |calls| && p in calls[i].rows;
      assert Listed(TableAt(h, blank, requests, at[i]), p);
    }
    forall p: Position | w.ended && forall i | 0 <= i < |at| :: Listed(TableAt(h, blank, requests, at[i]), p)
      ensures p in w.packs
    {
      assert AlwaysListed(calls, p);
    }
  }
}
