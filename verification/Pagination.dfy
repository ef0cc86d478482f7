/** Keyset pagination. */
module Pagination {
  // Keyset pagination: cursors, the resume filter, cutting a page out of `limit + 1` rows, and following
  // `nextCursor` from page to page while the table is written to (src/lib/pagination.ts).

  import opened Basics
  import opened Numerals
  import opened Listing
  import Base64
  import Utf8

  /** Milliseconds a JavaScript Date can be from the epoch. */
  const MAX_TIME := 8_640_000_000_000_000

  predicate ValidTime(t: int) {
    -MAX_TIME <= t <= MAX_TIME
  }

  // ----- cursors -----

  function EncodeText(text: string): string {
    Base64.Encode(Base64.Url, Utf8.Encode(text))
  }

  function DecodeText(cursor: string): Option<string> {
    match Base64.Decode(Base64.Url, cursor)
    case None => None
    case Some(bytes) => Utf8.Decode(bytes)
  }

  function EncodeCursor(p: Position): string {
    EncodeText(IntText(p.createdAt) + "_" + p.id)
  }

  /** The text of a cursor splits at its first underscore into a timestamp and a nonempty id. */
  function ParseCursorText(text: string): Option<Position> {
    match IndexOf('_', text)
    case None => None
    case Some(separator) =>
      if separator == 0 then None
      else
        match ParseInt(text[..separator])
        case None => None
        case Some(timestamp) =>
          var id := text[separator + 1..];
          if id == "" || !ValidTime(timestamp) then None else Some(Position(timestamp, id))
  }

  function DecodeCursor(cursor: string): Option<Position> {
    match DecodeText(cursor)
    case None => None
    case Some(text) => ParseCursorText(text)
  }

  lemma TextRoundTrip(text: string)
    ensures DecodeText(EncodeText(text)) == Some(text)
  {
    Base64.DecodeEncode(Base64.Url, Utf8.Encode(text));
    Utf8.DecodeEncode(text);
  }

  lemma CursorTextParses(p: Position)
    ensures ParseCursorText(IntText(p.createdAt) + "_" + p.id)
         == if p.id != "" && ValidTime(p.createdAt) then Some(p) else None
  {
    var head := IntText(p.createdAt);
    var text := head + "_" + p.id;
    ParseIntText(p.createdAt);
    FirstIndex('_', head, p.id);
    assert text == head + ['_'] + p.id;
    assert text[..|head|] == head && text[|head| + 1..] == p.id;
  }

  /**
   * A cursor decodes to the position it was made from exactly when the id is not empty and the date is one
   * JavaScript can represent; underscores in the id make no difference.
   */
  lemma CursorRoundTrip(p: Position)
    ensures DecodeCursor(EncodeCursor(p)) == Some(p) <==>
      p.id != "" && -8_640_000_000_000_000 <= p.createdAt <= 8_640_000_000_000_000
    ensures p.id == "" || !ValidTime(p.createdAt) ==> DecodeCursor(EncodeCursor(p)) == None
  {
    TextRoundTrip(IntText(p.createdAt) + "_" + p.id);
    CursorTextParses(p);
  }

  // ----- pages -----

  /** The resume filter as the query states it: past the timestamp, or tied with it and past the id. */
  predicate CursorFilter(position: Option<Position>, order: Order, r: Row) {
    match position
    case None => true
    case Some(p) =>
      match order
      case Desc => r.createdAt < p.createdAt || (r.createdAt == p.createdAt && StringLess(r.id, p.id))
      case Asc => r.createdAt > p.createdAt || (r.createdAt == p.createdAt && StringLess(p.id, r.id))
  }

  lemma CursorFilterResumesAfter(p: Position, order: Order, r: Row)
    ensures CursorFilter(Some(p), order, r) <==> Before(order, p, Pos(r))
  {
  }

  /** A cursor is within the 512 characters the query schema accepts exactly when its text has at most 384 bytes. */
  lemma CursorFitsSchemaIff(p: Position)
    ensures |EncodeCursor(p)| <= 512 <==> Utf8.ByteLength(IntText(p.createdAt) + "_" + p.id) <= 384
  {
    var text := IntText(p.createdAt) + "_" + p.id;
    Base64.SextetCount(Utf8.Encode(text));
    assert |EncodeText(text)| == |Base64.Sextets(Utf8.Encode(text))|;
  }

  function Matching(rows: seq<Row>, position: Option<Position>, order: Order): seq<Row> {
    if rows == [] then []
    else (if CursorFilter(position, order, rows[0]) then [rows[0]] else []) + Matching(rows[1..], position, order)
  }

  /** `findMany` with the resume filter, the deterministic ordering and `take`. */
  function FindMany(rows: seq<Row>, position: Option<Position>, order: Order, take: nat): seq<Row> {
    Take(take, Sort(order, Matching(rows, position, order)))
  }

  datatype Page = Page(items: seq<Row>, hasMore: bool)

  /** `meta.nextCursor`: made from the last item when there is more, absent otherwise. */
  function NextCursor(page: Page): Option<string> {
    if page.hasMore && |page.items| > 0 then Some(EncodeCursor(Pos(page.items[|page.items| - 1]))) else None
  }

  function TakeForPage(limit: nat): nat { limit + 1 }

  function BuildPage(rows: seq<Row>, limit: nat): Page {
    var hasMore := |rows| > limit;
    var items := if hasMore then rows[..limit] else rows;
    Page(items, hasMore)
  }

  /** `requireCursor`: None is the `invalid_cursor` error, and an absent or empty cursor starts at the top. */
  function RequireCursor(cursor: Option<string>): Option<Option<Position>> {
    if cursor.None? || cursor.value == "" then Some(None)
    else
      match DecodeCursor(cursor.value)
      case None => None
      case Some(p) => Some(Some(p))
  }

  function PageAfter(rows: seq<Row>, position: Option<Position>, limit: nat, order: Order): Page {
    BuildPage(FindMany(rows, position, order, TakeForPage(limit)), limit)
  }

  /** One request for one page of a table. */
  function GetPage(rows: seq<Row>, cursor: Option<string>, limit: nat, order: Order): Option<Page> {
    match RequireCursor(cursor)
    case None => None
    case Some(position) => Some(PageAfter(rows, position, limit, order))
  }

  /** Rows whose positions are distinct and can be carried by a cursor. */
  ghost predicate Listable(rows: seq<Row>) {
    && Unambiguous(multiset(rows))
    && forall r :: r in rows ==> r.id != "" && ValidTime(r.createdAt)
  }

  lemma {:induction false} MatchingSelects(rows: seq<Row>, position: Option<Position>, order: Order)
    ensures multiset(Matching(rows, position, order)) <= multiset(rows)
    ensures forall r :: r in Matching(rows, position, order) <==> r in rows && CursorFilter(position, order, r)
  {
    if rows != [] {
      MatchingSelects(rows[1..], position, order);
      assert rows == [rows[0]] + rows[1..];
    }
  }

  /** Only an absent or an empty cursor starts at the top: any other is decoded or refused. */
  lemma StartsAtTopIff(cursor: Option<string>)
    ensures RequireCursor(cursor) == Some(None) <==> cursor in {None, Some("")}
    ensures forall p :: RequireCursor(cursor) == Some(Some(p)) <==>
      cursor.Some? && cursor.value != "" && DecodeCursor(cursor.value) == Some(p)
  {
    hide DecodeCursor;
  }

  /** A row after the cursor that the page does not hold. */
  ghost predicate LeftOver(rows: seq<Row>, position: Option<Position>, order: Order, page: Page, r: Row) {
    r in rows && CursorFilter(position, order, r) && r !in page.items
  }

  /** What a page owes its reader: the rows after the cursor, in order, as far as the page goes, and whether there are more. */
  ghost predicate CutsCleanly(rows: seq<Row>, position: Option<Position>, limit: nat, order: Order, page: Page) {
    && Ordered(order, page.items) && |page.items| <= limit
    && (page.hasMore <==> exists r :: LeftOver(rows, position, order, page, r))
    && (forall r :: r in page.items ==> r in rows && CursorFilter(position, order, r))
    && (page.hasMore ==> |page.items| == limit)
    && (forall r :: r in rows && CursorFilter(position, order, r) ==>
          r in page.items || (page.hasMore && forall q :: q in page.items ==> Before(order, Pos(q), Pos(r))))
  }

  lemma SortedMatching(rows: seq<Row>, position: Option<Position>, order: Order) returns (all: seq<Row>)
    requires Unambiguous(multiset(rows))
    ensures all == Sort(order, Matching(rows, position, order)) && Ordered(order, all)
    ensures forall r :: r in all <==> r in rows && CursorFilter(position, order, r)
  {
    var matching := Matching(rows, position, order);
    MatchingSelects(rows, position, order);
    UnambiguousParts(multiset(matching), multiset(rows));
    all := Sort(order, matching);
    SortIsTheArrangement(order, matching, all);
    forall r ensures r in all <==> r in matching {
      assert r in all <==> r in multiset(all);
      assert r in matching <==> r in multiset(matching);
    }
  }

  /** Cutting a page out of the first `limit + 1` of a list is cutting it out of the list. */
  lemma PageOfWindow(all: seq<Row>, limit: nat)
    ensures BuildPage(Take(TakeForPage(limit), all), limit) == BuildPage(all, limit)
  {
  }

  lemma PageCutsCleanly(rows: seq<Row>, position: Option<Position>, limit: nat, order: Order)
    requires Unambiguous(multiset(rows))
    ensures CutsCleanly(rows, position, limit, order, PageAfter(rows, position, limit, order))
  {
    var all := SortedMatching(rows, position, order);
    PageOfWindow(all, limit);
    var page := BuildPage(all, limit);
    assert page == PageAfter(rows, position, limit, order);
    assert forall k :: 0 <= k < |page.items| ==> page.items[k] == all[k];
    forall r | r in rows && CursorFilter(position, order, r)
      ensures r in page.items || (page.hasMore && forall q :: q in page.items ==> Before(order, Pos(q), Pos(r)))
    {
      var k :| 0 <= k < |all| && all[k] == r;
      if k < |page.items| { assert page.items[k] == r; }
    }
    if page.hasMore { LookaheadIsLeftOver(order, all, limit); }
    assert page.hasMore ==> LeftOver(rows, position, order, page, all[limit]);
    assert forall r :: LeftOver(rows, position, order, page, r) ==> r in rows && CursorFilter(position, order, r);
  }

  /** The row fetched beyond the page is none of the page's. */
  lemma LookaheadIsLeftOver(order: Order, all: seq<Row>, limit: nat)
    requires Ordered(order, all) && limit < |all|
    ensures all[limit] in all && all[limit] !in all[..limit]
  {
    BeforeIsStrict(order, Pos(all[limit]));
    assert forall i :: 0 <= i < limit ==> Before(order, Pos(all[i]), Pos(all[limit]));
  }

  // ----- following nextCursor -----

  /** Each page was fetched with the cursor of the one before, page i from the table as it was then. */
  ghost predicate Walk(tables: seq<seq<Row>>, pages: seq<Page>, limit: nat, order: Order) {
    && |pages| == |tables| > 0
    && pages[0] == PageAfter(tables[0], None, limit, order)
    && forall i :: 0 < i < |pages| ==> Follows(tables, pages, limit, order, i)
  }

  ghost predicate Follows(tables: seq<seq<Row>>, pages: seq<Page>, limit: nat, order: Order, i: nat)
    requires |pages| == |tables| && 0 < i < |pages|
  {
    NextCursor(pages[i - 1]).Some? && GetPage(tables[i], NextCursor(pages[i - 1]), limit, order) == Some(pages[i])
  }

  function Items(pages: seq<Page>): seq<Row> {
    if pages == [] then [] else Items(pages[..|pages| - 1]) + pages[|pages| - 1].items
  }

  ghost predicate AllListable(tables: seq<seq<Row>>) {
    forall i :: 0 <= i < |tables| ==> Listable(tables[i])
  }

  /** A cursor handed out for a row of a listable table decodes to that row's position, and is not empty. */
  lemma HandedOutCursor(r: Row)
    requires r.id != "" && ValidTime(r.createdAt)
    ensures RequireCursor(Some(EncodeCursor(Pos(r)))) == Some(Some(Pos(r)))
  {
    CursorRoundTrip(Pos(r));
  }

  lemma CursorOfCleanPage(rows: seq<Row>, position: Option<Position>, limit: nat, order: Order, page: Page)
    requires Listable(rows) && limit > 0 && CutsCleanly(rows, position, limit, order, page)
    ensures NextCursor(page).Some? <==> page.hasMore
    ensures page.hasMore ==> RequireCursor(NextCursor(page)) == Some(Some(Pos(page.items[limit - 1])))
  {
    if page.hasMore {
      assert page.items[limit - 1] in page.items;
      HandedOutCursor(page.items[limit - 1]);
    }
  }

  /**
   * A walk never runs into `invalid_cursor`: as long as there is a next cursor there is a next page, and it
   * starts after the last row returned, whatever the table has become.
   */
  lemma WalkGoesOn(rows: seq<Row>, position: Option<Position>, limit: nat, order: Order, next: seq<Row>)
    requires Listable(rows) && limit > 0
    ensures var page := PageAfter(rows, position, limit, order);
            (NextCursor(page).Some? <==> page.hasMore)
            && (page.hasMore ==>
                  (&& |page.items| == limit
                   && GetPage(next, NextCursor(page), limit, order)
                      == Some(PageAfter(next, Some(Pos(page.items[limit - 1])), limit, order))))
  {
    PageCutsCleanly(rows, position, limit, order);
    CursorOfCleanPage(rows, position, limit, order, PageAfter(rows, position, limit, order));
  }

  /** Where page i started: after the last row of the page before. */
  ghost function StartOf(pages: seq<Page>, i: nat): Option<Position>
    requires i < |pages| && forall j :: 0 <= j < i ==> |pages[j].items| > 0
  {
    if i == 0 then None else Some(Pos(pages[i - 1].items[|pages[i - 1].items| - 1]))
  }

  lemma NextPageIsClean(rows: seq<Row>, cursor: Option<string>, p: Position, limit: nat, order: Order, page: Page)
    requires Unambiguous(multiset(rows)) && RequireCursor(cursor) == Some(Some(p))
    requires GetPage(rows, cursor, limit, order) == Some(page)
    ensures CutsCleanly(rows, Some(p), limit, order, page)
  {
    PageCutsCleanly(rows, Some(p), limit, order);
  }

  lemma FollowerIsClean(tables: seq<seq<Row>>, pages: seq<Page>, limit: nat, order: Order, i: nat, start: Option<Position>)
    requires Walk(tables, pages, limit, order) && 0 < i < |pages|
    requires AllListable(tables) && limit > 0 && CutsCleanly(tables[i - 1], start, limit, order, pages[i - 1])
    ensures pages[i - 1].hasMore && |pages[i - 1].items| == limit
    ensures CutsCleanly(tables[i], Some(Pos(pages[i - 1].items[limit - 1])), limit, order, pages[i])
  {
    assert Follows(tables, pages, limit, order, i);
    CursorOfCleanPage(tables[i - 1], start, limit, order, pages[i - 1]);
    NextPageIsClean(tables[i], NextCursor(pages[i - 1]), Pos(pages[i - 1].items[limit - 1]), limit, order, pages[i]);
  }

  lemma FirstIsClean(tables: seq<seq<Row>>, pages: seq<Page>, limit: nat, order: Order)
    requires Walk(tables, pages, limit, order) && AllListable(tables)
    ensures CutsCleanly(tables[0], None, limit, order, pages[0])
  {
    PageCutsCleanly(tables[0], None, limit, order);
  }

  lemma {:induction false} PageOfWalk(tables: seq<seq<Row>>, pages: seq<Page>, limit: nat, order: Order, i: nat)
    requires Walk(tables, pages, limit, order) && AllListable(tables) && limit > 0 && i < |pages|
    ensures forall j :: 0 <= j < i ==> pages[j].hasMore && |pages[j].items| == limit
    ensures CutsCleanly(tables[i], StartOf(pages, i), limit, order, pages[i])
  {
    hide PageAfter, Follows, CutsCleanly, AllListable;
    if i == 0 {
      FirstIsClean(tables, pages, limit, order);
    } else {
      PageOfWalk(tables, pages, limit, order, i - 1);
      FollowerIsClean(tables, pages, limit, order, i, StartOf(pages, i - 1));
      assert StartOf(pages, i) == Some(Pos(pages[i - 1].items[limit - 1]));
    }
  }

  lemma WalkPrefix(tables: seq<seq<Row>>, pages: seq<Page>, limit: nat, order: Order, n: nat)
    requires Walk(tables, pages, limit, order) && 0 < n <= |pages|
    ensures Walk(tables[..n], pages[..n], limit, order)
  {
    forall i | 0 < i < n ensures Follows(tables[..n], pages[..n], limit, order, i) {
      assert Follows(tables, pages, limit, order, i);
    }
  }

  lemma OrderedConcat(order: Order, a: seq<Row>, b: seq<Row>)
    requires Ordered(order, a) && Ordered(order, b)
    requires |a| > 0 ==> forall r :: r in b ==> Before(order, Pos(a[|a| - 1]), Pos(r))
    ensures Ordered(order, a + b)
  {
    forall i, j | 0 <= i < j < |a + b| ensures Before(order, Pos((a + b)[i]), Pos((a + b)[j])) {
      if i < |a| <= j {
        assert (a + b)[j] in b;
        if i < |a| - 1 { BeforeIsTransitive(order, Pos(a[i]), Pos(a[|a| - 1]), Pos((a + b)[j])); }
      }
    }
  }

  /** However the table is written to between pages, rows come back in strictly increasing order: no row twice. */
  lemma {:induction false} NoRowTwice(tables: seq<seq<Row>>, pages: seq<Page>, limit: nat, order: Order)
    requires Walk(tables, pages, limit, order) && AllListable(tables) && limit > 0
    ensures Ordered(order, Items(pages))
    decreases |pages|
  {
    hide PageAfter, Follows;
    var n := |pages| - 1;
    PageOfWalk(tables, pages, limit, order, n);
    if n == 0 {
      assert Items(pages[..0]) == [];
    } else {
      WalkPrefix(tables, pages, limit, order, n);
      NoRowTwice(tables[..n], pages[..n], limit, order);
      var before := Items(pages[..n]);
      LastItem(pages[..n]);
      forall r | r in pages[n].items ensures Before(order, Pos(before[|before| - 1]), Pos(r)) {
        CursorFilterResumesAfter(StartOf(pages, n).value, order, r);
      }
      OrderedConcat(order, before, pages[n].items);
    }
  }

  lemma LastItem(pages: seq<Page>)
    requires |pages| > 0 && |pages[|pages| - 1].items| > 0
    ensures |Items(pages)| > 0 && Items(pages)[|Items(pages)| - 1] == pages[|pages| - 1].items[|pages[|pages| - 1].items| - 1]
  {
  }

  /** A row that is there for every page of the walk so far has been returned, or is still ahead. */
  lemma {:induction false} ReturnedOrAhead(tables: seq<seq<Row>>, pages: seq<Page>, limit: nat, order: Order, r: Row)
    requires Walk(tables, pages, limit, order) && AllListable(tables) && limit > 0
    requires forall i :: 0 <= i < |tables| ==> r in tables[i]
    ensures r in Items(pages) ||
            (pages[|pages| - 1].hasMore && forall q :: q in pages[|pages| - 1].items ==> Before(order, Pos(q), Pos(r)))
    decreases |pages|
  {
    var n := |pages| - 1;
    PageOfWalk(tables, pages, limit, order, n);
    if n > 0 {
      WalkPrefix(tables, pages, limit, order, n);
      ReturnedOrAhead(tables[..n], pages[..n], limit, order, r);
      var prev := pages[n - 1].items;
      if r !in Items(pages[..n]) {
        assert prev[|prev| - 1] in pages[..n][n - 1].items;
        CursorFilterResumesAfter(StartOf(pages, n).value, order, r);
        assert r in tables[n];
      }
    }
  }

  /** A walk that ends has returned every row that was present throughout, whatever else came and went. */
  lemma NoRowSkipped(tables: seq<seq<Row>>, pages: seq<Page>, limit: nat, order: Order, r: Row)
    requires Walk(tables, pages, limit, order) && AllListable(tables) && limit > 0
    requires NextCursor(pages[|pages| - 1]).None?
    requires forall i :: 0 <= i < |tables| ==> r in tables[i]
    ensures r in Items(pages) && multiset(Items(pages))[r] == 1
  {
    PageOfWalk(tables, pages, limit, order, |pages| - 1);
    ReturnedOrAhead(tables, pages, limit, order, r);
    NoRowTwice(tables, pages, limit, order);
    OrderedCounts(order, Items(pages));
  }

  lemma {:induction false} OrderedCounts(order: Order, s: seq<Row>)
    requires Ordered(order, s)
    ensures forall r :: r in s ==> multiset(s)[r] == 1
  {
    if s != [] {
      OrderedTail(order, s);
      OrderedCounts(order, s[1..]);
      assert s == [s[0]] + s[1..];
      if s[0] in s[1..] {
        var k :| 0 <= k < |s[1..]| && s[1..][k] == s[0];
        assert s[k + 1] == s[0];
        BeforeIsStrict(order, Pos(s[0]));
      }
    }
  }

  /** Every returned row was in the table its page was read from. */
  lemma {:induction false} ItemsComeFromTables(tables: seq<seq<Row>>, pages: seq<Page>, limit: nat, order: Order, r: Row)
    requires Walk(tables, pages, limit, order) && AllListable(tables) && limit > 0 && r in Items(pages)
    ensures exists i :: 0 <= i < |tables| && r in tables[i]
    decreases |pages|
  {
    var n := |pages| - 1;
    PageOfWalk(tables, pages, limit, order, n);
    if r !in pages[n].items {
      assert n > 0;
      WalkPrefix(tables, pages, limit, order, n);
      ItemsComeFromTables(tables[..n], pages[..n], limit, order, r);
      var i :| 0 <= i < n && r in tables[..n][i];
      assert r in tables[i];
    }
  }

  lemma {:induction false} FullPages(pages: seq<Page>, limit: nat)
    requires forall i :: 0 <= i < |pages| ==> |pages[i].items| == limit
    ensures |Items(pages)| == |pages| * limit
  {
    var n: int := |pages| - 1;
    if n >= 0 {
      FullPages(pages[..n], limit);
      assert (n + 1) * limit == n * limit + limit;
    }
  }

  lemma OrderedWithin(order: Order, s: seq<Row>, rows: seq<Row>)
    requires Ordered(order, s) && forall r :: r in s ==> r in rows
    ensures multiset(s) <= multiset(rows) && |s| <= |rows|
  {
    OrderedCounts(order, s);
    forall r | r in multiset(s) ensures multiset(s)[r] <= multiset(rows)[r] {
      assert r in s && r in rows && r in multiset(rows);
    }
    var rest := multiset(rows) - multiset(s);
    assert multiset(rows) == multiset(s) + rest;
    assert |multiset(s)| == |s| && |multiset(rows)| == |rows|;
  }

  /** What is left over after the last page of a walk has not been returned by any page. */
  lemma LeftOverIsNew(tables: seq<seq<Row>>, pages: seq<Page>, limit: nat, order: Order) returns (r: Row)
    requires Walk(tables, pages, limit, order) && AllListable(tables) && limit > 0 && pages[|pages| - 1].hasMore
    ensures r in tables[|tables| - 1] && Ordered(order, Items(pages) + [r])
  {
    var n := |pages| - 1;
    var last := pages[n];
    PageOfWalk(tables, pages, limit, order, n);
    r :| LeftOver(tables[n], StartOf(pages, n), order, last, r);
    NoRowTwice(tables, pages, limit, order);
    LastItem(pages);
    assert last.items[limit - 1] in last.items;
    OrderedConcat(order, Items(pages), [r]);
  }

  /**
   * With no writes a walk of n pages has ended exactly when n pages hold all the rows, so no page but the first is
   * ever empty, and once ended it has returned exactly the sorted rows: nothing lost, nothing doubled, nothing out of
   * order.
   */
  lemma StaticWalk(rows: seq<Row>, tables: seq<seq<Row>>, pages: seq<Page>, limit: nat, order: Order)
    requires Walk(tables, pages, limit, order) && Listable(rows) && limit > 0
    requires forall i :: 0 <= i < |tables| ==> tables[i] == rows
    ensures NextCursor(pages[|pages| - 1]).None? <==> |rows| <= |pages| * limit
    ensures |pages| > 1 ==> (|pages| - 1) * limit < |rows|
    ensures NextCursor(pages[|pages| - 1]).None? ==> Items(pages) == Sort(order, rows)
  {
    assert |pages| == |tables|;
    hide Walk, NextCursor, Listable, Items, Sort;
    StaticWalkEnds(rows, tables, pages, limit, order);
    if |pages| > 1 {
      var n := |pages| - 1;
      WalkPrefix(tables, pages, limit, order, n);
      NotEndedBefore(tables, pages, limit, order);
      assert pages[..n][n - 1] == pages[n - 1];
      StaticWalkEnds(rows, tables[..n], pages[..n], limit, order);
    }
  }

  lemma NotEndedBefore(tables: seq<seq<Row>>, pages: seq<Page>, limit: nat, order: Order)
    requires Walk(tables, pages, limit, order) && |pages| > 1
    ensures NextCursor(pages[|pages| - 2]).Some?
  {
    assert Follows(tables, pages, limit, order, |pages| - 1);
    hide GetPage;
  }

  lemma CleanIsWithin(rows: seq<Row>, position: Option<Position>, limit: nat, order: Order, page: Page)
    requires CutsCleanly(rows, position, limit, order, page)
    ensures |page.items| <= limit && (page.hasMore ==> |page.items| == limit)
  {
  }

  lemma ItemsSoFar(tables: seq<seq<Row>>, pages: seq<Page>, limit: nat, order: Order)
    requires Walk(tables, pages, limit, order) && AllListable(tables) && limit > 0
    ensures |Items(pages)| == (|pages| - 1) * limit + |pages[|pages| - 1].items|
    ensures |pages[|pages| - 1].items| <= limit && (pages[|pages| - 1].hasMore ==> |pages[|pages| - 1].items| == limit)
    ensures pages[|pages| - 1].hasMore <==> NextCursor(pages[|pages| - 1]).Some?
  {
    var n := |pages| - 1;
    PageOfWalk(tables, pages, limit, order, n);
    hide Walk, CutsCleanly, NextCursor, Listable;
    CleanIsWithin(tables[n], StartOf(pages, n), limit, order, pages[n]);
    CursorOfCleanPage(tables[n], StartOf(pages, n), limit, order, pages[n]);
    FullPages(pages[..n], limit);
  }

  /** What the numbers of pages and rows say, when all pages but the last hold `limit` rows. */
  lemma EndsIff(n: int, limit: int, got: int, last: int, total: int, ended: bool)
    requires got == (n - 1) * limit + last && 0 <= last <= limit
    requires if ended then got == total else last == limit && got < total
    ensures ended <==> total <= n * limit
  {
    assert (n - 1) * limit + limit == n * limit;
  }

  lemma StaticWalkEnds(rows: seq<Row>, tables: seq<seq<Row>>, pages: seq<Page>, limit: nat, order: Order)
    requires Walk(tables, pages, limit, order) && Listable(rows) && limit > 0
    requires forall i :: 0 <= i < |tables| ==> tables[i] == rows
    ensures NextCursor(pages[|pages| - 1]).None? <==> |rows| <= |pages| * limit
    ensures NextCursor(pages[|pages| - 1]).None? ==> Items(pages) == Sort(order, rows)
  {
    ItemsSoFar(tables, pages, limit, order);
    NoRowTwice(tables, pages, limit, order);
    forall r | r in Items(pages) ensures r in rows {
      ItemsComeFromTables(tables, pages, limit, order, r);
    }
    OrderedWithin(order, Items(pages), rows);
    if NextCursor(pages[|pages| - 1]).None? {
      AllReturned(rows, tables, pages, limit, order);
    } else {
      var r := LeftOverIsNew(tables, pages, limit, order);
      OrderedWithin(order, Items(pages) + [r], rows);
    }
    hide Walk, Items, NextCursor, Listable, Ordered;
    EndsIff(|pages|, limit, |Items(pages)|, |pages[|pages| - 1].items|, |rows|, NextCursor(pages[|pages| - 1]).None?);
  }

  lemma AllReturned(rows: seq<Row>, tables: seq<seq<Row>>, pages: seq<Page>, limit: nat, order: Order)
    requires Walk(tables, pages, limit, order) && Listable(rows) && limit > 0
    requires forall i :: 0 <= i < |tables| ==> tables[i] == rows
    requires NextCursor(pages[|pages| - 1]).None? && Ordered(order, Items(pages)) && multiset(Items(pages)) <= multiset(rows)
    ensures Items(pages) == Sort(order, rows) && |Items(pages)| == |rows|
  {
    forall r | r in rows ensures r in Items(pages) {
      NoRowSkipped(tables, pages, limit, order, r);
    }
    OrderedCounts(order, Items(pages));
    forall r ensures multiset(Items(pages))[r] == multiset(rows)[r] {
      if r in multiset(rows) { assert r in rows && r in Items(pages) && r in multiset(Items(pages)); }
    }
    SortIsTheArrangement(order, rows, Items(pages));
    assert |multiset(Items(pages))| == |Items(pages)| && |multiset(rows)| == |rows|;
  }
}
