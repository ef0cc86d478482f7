/** Merged pages. */
module Ledger {
  // Pages merged from several tables, each read with its own `limit + 1` window: the three-table group ledger
  // (src/routes/settlements.ts) and the two-table history without `offset` (src/routes/history.ts).

  import opened Basics
  import opened Listing
  import opened Pagination

  // ----- the two comparators -----

  /** The ledger's comparator, a sign as `Array.prototype.sort` reads it. */
  function LedgerCompare(order: Order, a: Row, b: Row): int {
    var direction := if order.Desc? then -1 else 1;
    if a.createdAt != b.createdAt then (if a.createdAt < b.createdAt then -direction else direction)
    else if a.id == b.id then 0
    else if StringLess(a.id, b.id) then -direction
    else direction
  }

  /** The history's comparator, which never says that two rows tie. */
  function HistoryCompare(order: Order, a: Row, b: Row): int {
    var dir := if order.Desc? then -1 else 1;
    if a.createdAt != b.createdAt then (if a.createdAt > b.createdAt then dir else -dir)
    else if StringLess(b.id, a.id) then dir
    else -dir
  }

  /** Both comparators are the page order on rows at different positions, so both sorts are `Sort`. */
  lemma ComparatorsAgree(order: Order, a: Row, b: Row)
    requires Pos(a) != Pos(b)
    ensures LedgerCompare(order, a, b) == HistoryCompare(order, a, b) == if Before(order, Pos(a), Pos(b)) then -1 else 1
  {
    StringLessTotal(a.id, b.id);
  }

  /** On two rows that tie, the history's comparator puts each before the other. */
  lemma HistoryCompareHasNoTies(order: Order, a: Row, b: Row)
    requires Pos(a) == Pos(b)
    ensures LedgerCompare(order, a, b) == 0
    ensures HistoryCompare(order, a, b) == HistoryCompare(order, b, a) != 0
  {
    StringLessIrreflexive(a.id);
  }

  // ----- merging windows -----

  /** All the rows of all the tables; a table the request did not ask for is the empty one. */
  function Union(tables: seq<seq<Row>>): seq<Row> {
    if tables == [] then [] else tables[0] + Union(tables[1..])
  }

  function Windows(tables: seq<seq<Row>>, position: Option<Position>, order: Order, take: nat): (w: seq<seq<Row>>)
    ensures |w| == |tables|
  {
    if tables == [] then []
    else [FindMany(tables[0], position, order, take)] + Windows(tables[1..], position, order, take)
  }

  /** What the route does: a window from each table, concatenated, sorted, and cut. */
  function MergedPage(tables: seq<seq<Row>>, position: Option<Position>, limit: nat, order: Order): Page {
    BuildPage(Sort(order, Union(Windows(tables, position, order, TakeForPage(limit)))), limit)
  }

  lemma {:induction false} MatchingAppend(a: seq<Row>, b: seq<Row>, position: Option<Position>, order: Order)
    ensures Matching(a + b, position, order) == Matching(a, position, order) + Matching(b, position, order)
  {
    hide CursorFilter;
    if a == [] {
      assert a + b == b;
    } else {
      assert (a + b)[1..] == a[1..] + b && (a + b)[0] == a[0];
      MatchingAppend(a[1..], b, position, order);
      var head := if CursorFilter(position, order, a[0]) then [a[0]] else [];
      var tail, others := Matching(a[1..], position, order), Matching(b, position, order);
      assert Matching(a, position, order) == head + tail && Matching(a + b, position, order) == head + (tail + others);
      hide Matching;
      Associative(head, tail, others);
    }
  }

  lemma TakenRows(n: nat, s: seq<Row>)
    ensures multiset(Take(n, s)) <= multiset(s)
  {
    assert s == Take(n, s) + s[|Take(n, s)|..];
  }

  /** An ordered list is its own sort. */
  lemma OrderedIsSorted(order: Order, s: seq<Row>)
    requires Ordered(order, s) && Unambiguous(multiset(s))
    ensures Sort(order, s) == s
  {
    SortIsTheArrangement(order, s, s);
  }

  lemma OrderedTake(order: Order, n: nat, s: seq<Row>)
    requires Ordered(order, s)
    ensures Ordered(order, Take(n, s))
  {
  }

  /** The first `n` of a union need only the first `n` of its second part ... */
  lemma WindowOnRight(order: Order, n: nat, a: seq<Row>, b: seq<Row>)
    requires Unambiguous(multiset(b))
    ensures Take(n, Sort(order, a + b)) == Take(n, Sort(order, a + Take(n, Sort(order, b))))
  {
    var w := Take(n, Sort(order, b));
    SortAppend(order, a, b);
    SortAppend(order, a, w);
    TakeInsertAll(order, n, a, Sort(order, b));
    SortIsTheArrangement(order, b, Sort(order, b));
    OrderedTake(order, n, Sort(order, b));
    TakenRows(n, Sort(order, b));
    UnambiguousParts(multiset(w), multiset(b));
    OrderedIsSorted(order, w);
  }

  /** ... and, order of the parts being no matter, of its first. */
  lemma WindowOnLeft(order: Order, n: nat, a: seq<Row>, b: seq<Row>)
    requires Unambiguous(multiset(a + b))
    ensures Take(n, Sort(order, a + b)) == Take(n, Sort(order, Take(n, Sort(order, a)) + b))
  {
    var w := Take(n, Sort(order, a));
    assert multiset(a + b) == multiset(b + a) == multiset(a) + multiset(b);
    SortsAgree(order, a + b, b + a);
    UnambiguousParts(multiset(a), multiset(a + b));
    WindowOnRight(order, n, b, a);
    SortIsTheArrangement(order, a, Sort(order, a));
    TakenRows(n, Sort(order, a));
    assert multiset(w + b) == multiset(b + w) == multiset(w) + multiset(b);
    UnambiguousParts(multiset(w + b), multiset(a + b));
    SortsAgree(order, w + b, b + w);
  }

  lemma WindowRows(rows: seq<Row>, position: Option<Position>, order: Order, take: nat)
    requires Unambiguous(multiset(rows))
    ensures multiset(FindMany(rows, position, order, take)) <= multiset(Matching(rows, position, order)) <= multiset(rows)
  {
    var matching := Matching(rows, position, order);
    MatchingSelects(rows, position, order);
    UnambiguousParts(multiset(matching), multiset(rows));
    SortIsTheArrangement(order, matching, Sort(order, matching));
    TakenRows(take, Sort(order, matching));
  }

  lemma {:induction false} WindowsRows(tables: seq<seq<Row>>, position: Option<Position>, order: Order, take: nat)
    requires Unambiguous(multiset(Union(tables)))
    ensures multiset(Union(Windows(tables, position, order, take))) <= multiset(Matching(Union(tables), position, order))
  {
    if tables != [] {
      var first, rest := tables[0], Union(tables[1..]);
      assert multiset(Union(tables)) == multiset(first) + multiset(rest);
      UnambiguousParts(multiset(first), multiset(Union(tables)));
      UnambiguousParts(multiset(rest), multiset(Union(tables)));
      WindowsRows(tables[1..], position, order, take);
      WindowRows(first, position, order, take);
      MatchingAppend(first, rest, position, order);
      assert Windows(tables, position, order, take)[1..] == Windows(tables[1..], position, order, take);
    }
  }

  /** The first rows of the sorted union are the first rows of the sorted windows. */
  lemma {:induction false} WindowsSuffice(tables: seq<seq<Row>>, position: Option<Position>, order: Order, take: nat)
    requires Unambiguous(multiset(Union(tables)))
    ensures Take(take, Sort(order, Union(Windows(tables, position, order, take))))
         == FindMany(Union(tables), position, order, take)
  {
    if tables == [] {
    } else {
      var first, rest := tables[0], Union(tables[1..]);
      var m, ms := Matching(first, position, order), Matching(rest, position, order);
      var ws := Union(Windows(tables[1..], position, order, take));
      assert multiset(Union(tables)) == multiset(first) + multiset(rest);
      UnambiguousParts(multiset(first), multiset(Union(tables)));
      UnambiguousParts(multiset(rest), multiset(Union(tables)));
      MatchingAppend(first, rest, position, order);
      WindowRows(first, position, order, take);
      MatchingSelects(rest, position, order);
      WindowsRows(tables[1..], position, order, take);
      UnambiguousParts(multiset(m + ms), multiset(Union(tables)));
      UnambiguousParts(multiset(ms), multiset(Union(tables)));
      UnambiguousParts(multiset(ws), multiset(ms));
      UnambiguousParts(multiset(m + ws), multiset(m + ms));
      WindowsSuffice(tables[1..], position, order, take);
      // replace the rest by its window, then by the windows of its tables, then this table by its window
      WindowOnRight(order, take, m, ms);
      WindowOnRight(order, take, m, ws);
      WindowOnLeft(order, take, m, ws);
      assert Windows(tables, position, order, take)[1..] == Windows(tables[1..], position, order, take);
    }
  }

  /**
   * The merged page is the page of the union: same items, same `hasMore`, same next cursor, for any number
   * of tables whose positions are distinct across tables.
   */
  lemma MergedPageIsPageOfUnion(tables: seq<seq<Row>>, position: Option<Position>, limit: nat, order: Order)
    requires Unambiguous(multiset(Union(tables)))
    ensures MergedPage(tables, position, limit, order) == PageAfter(Union(tables), position, limit, order)
    ensures NextCursor(MergedPage(tables, position, limit, order)) == NextCursor(PageAfter(Union(tables), position, limit, order))
  {
    WindowsSuffice(tables, position, order, TakeForPage(limit));
    PageOfWindow(Sort(order, Union(Windows(tables, position, order, TakeForPage(limit)))), limit);
  }

  // ----- paging the merged list -----

  /** A client following the merged route's cursors; `snapshots[i]` is all the tables at page i. */
  ghost predicate MergedWalk(snapshots: seq<seq<seq<Row>>>, pages: seq<Page>, limit: nat, order: Order) {
    && |pages| == |snapshots| > 0
    && pages[0] == MergedPage(snapshots[0], None, limit, order)
    && forall i :: 0 < i < |pages| ==> MergedFollows(snapshots, pages, limit, order, i)
  }

  ghost predicate MergedFollows(snapshots: seq<seq<seq<Row>>>, pages: seq<Page>, limit: nat, order: Order, i: nat)
    requires |pages| == |snapshots| && 0 < i < |pages|
  {
    && NextCursor(pages[i - 1]).Some?
    && RequireCursor(NextCursor(pages[i - 1])).Some?
    && pages[i] == MergedPage(snapshots[i], RequireCursor(NextCursor(pages[i - 1])).value, limit, order)
  }

  function Unions(snapshots: seq<seq<seq<Row>>>): seq<seq<Row>> {
    seq(|snapshots|, i requires 0 <= i < |snapshots| => Union(snapshots[i]))
  }

  /** Following the merged route is following a single table that holds all the rows. */
  lemma MergedWalkIsAWalk(snapshots: seq<seq<seq<Row>>>, pages: seq<Page>, limit: nat, order: Order)
    requires MergedWalk(snapshots, pages, limit, order) && AllListable(Unions(snapshots))
    ensures Walk(Unions(snapshots), pages, limit, order)
  {
    var tables := Unions(snapshots);
    assert Listable(tables[0]);
    MergedPageIsPageOfUnion(snapshots[0], None, limit, order);
    forall i | 0 < i < |pages| ensures Follows(tables, pages, limit, order, i) {
      assert MergedFollows(snapshots, pages, limit, order, i);
      assert Listable(tables[i]);
      MergedPageIsPageOfUnion(snapshots[i], RequireCursor(NextCursor(pages[i - 1])).value, limit, order);
    }
  }

  /**
   * Ledger and history pages, read while rows come and go: no row twice, no row that was there throughout
   * missed once the walk ends, and with no writes exactly the sorted union.
   */
  lemma MergedWalkIsComplete(snapshots: seq<seq<seq<Row>>>, pages: seq<Page>, limit: nat, order: Order)
    requires MergedWalk(snapshots, pages, limit, order) && AllListable(Unions(snapshots)) && limit > 0
    ensures Ordered(order, Items(pages))
    ensures NextCursor(pages[|pages| - 1]).None? ==>
              forall r :: (forall i :: 0 <= i < |snapshots| ==> r in Union(snapshots[i])) ==> r in Items(pages)
    ensures NextCursor(pages[|pages| - 1]).None? && (forall i :: 0 <= i < |snapshots| ==> snapshots[i] == snapshots[0]) ==>
              Items(pages) == Sort(order, Union(snapshots[0]))
    ensures (forall i :: 0 <= i < |snapshots| ==> snapshots[i] == snapshots[0]) ==>
              (NextCursor(pages[|pages| - 1]).None? <==> |Union(snapshots[0])| <= |pages| * limit)
  {
    var tables := Unions(snapshots);
    MergedWalkIsAWalk(snapshots, pages, limit, order);
    NoRowTwice(tables, pages, limit, order);
    if forall i :: 0 <= i < |snapshots| ==> snapshots[i] == snapshots[0] {
      assert Listable(tables[0]);
      StaticWalk(tables[0], tables, pages, limit, order);
    }
    hide MergedWalk, Walk, Listable, Ordered, Items, NextCursor, Sort;
    if NextCursor(pages[|pages| - 1]).None? {
      forall r | forall i :: 0 <= i < |snapshots| ==> r in Union(snapshots[i]) ensures r in Items(pages) {
        NoRowSkipped(tables, pages, limit, order, r);
      }
    }
  }

  // ----- distinct positions are needed -----

  /** The tables with nothing written between `n` pages. */
  function Still(tables: seq<seq<Row>>, n: nat): seq<seq<seq<Row>>> {
    seq(n, i => tables)
  }

  /** Pages that follow one another over tables nobody writes to, from a given position on. */
  ghost predicate Chain(tables: seq<seq<Row>>, start: Option<Position>, pages: seq<Page>, limit: nat, order: Order) {
    && |pages| > 0
    && pages[0] == MergedPage(tables, start, limit, order)
    && forall i :: 0 < i < |pages| ==> Linked(tables, pages[i - 1], pages[i], limit, order)
  }

  ghost predicate Linked(tables: seq<seq<Row>>, page: Page, next: Page, limit: nat, order: Order) {
    && NextCursor(page).Some?
    && RequireCursor(NextCursor(page)).Some?
    && next == MergedPage(tables, RequireCursor(NextCursor(page)).value, limit, order)
  }

  lemma ChainIsWalk(tables: seq<seq<Row>>, pages: seq<Page>, limit: nat, order: Order)
    requires Chain(tables, None, pages, limit, order)
    ensures MergedWalk(Still(tables, |pages|), pages, limit, order)
  {
    hide MergedPage, NextCursor, RequireCursor;
    forall i | 0 < i < |pages| ensures MergedFollows(Still(tables, |pages|), pages, limit, order, i) {
      assert Linked(tables, pages[i - 1], pages[i], limit, order);
    }
  }

  lemma MatchingWindow(rows: seq<Row>, position: Option<Position>, order: Order, take: nat, r: Row)
    requires r in FindMany(rows, position, order, take)
    ensures r in rows && CursorFilter(position, order, r)
  {
    var matching := Matching(rows, position, order);
    InsertAllMultiset(order, matching, []);
    TakenRows(take, Sort(order, matching));
    assert r in multiset(Take(take, Sort(order, matching)));
    assert r in multiset(matching);
    MatchingSelects(rows, position, order);
  }

  lemma {:induction false} MatchingWindows(tables: seq<seq<Row>>, position: Option<Position>, order: Order, take: nat, r: Row)
    requires r in Union(Windows(tables, position, order, take))
    ensures r in Union(tables) && CursorFilter(position, order, r)
  {
    if tables != [] {
      hide FindMany, CursorFilter;
      assert Windows(tables, position, order, take)[1..] == Windows(tables[1..], position, order, take);
      if r in FindMany(tables[0], position, order, take) {
        MatchingWindow(tables[0], position, order, take, r);
      } else {
        MatchingWindows(tables[1..], position, order, take, r);
      }
    }
  }

  lemma MergedPageRows(tables: seq<seq<Row>>, position: Option<Position>, limit: nat, order: Order, r: Row)
    requires r in MergedPage(tables, position, limit, order).items
    ensures r in Union(tables) && CursorFilter(position, order, r)
  {
    hide CursorFilter, FindMany, Windows, Union;
    var windows := Union(Windows(tables, position, order, TakeForPage(limit)));
    InsertAllMultiset(order, windows, []);
    var all := Sort(order, windows);
    assert r in all;
    assert r in multiset(all) && r in multiset(windows);
    MatchingWindows(tables, position, order, TakeForPage(limit), r);
  }

  /** Each row of every table can be carried by a cursor. */
  ghost predicate Carriable(rows: seq<Row>) {
    forall r :: r in rows ==> r.id != "" && ValidTime(r.createdAt)
  }

  lemma {:induction false} MatchingShrinks(rows: seq<Row>, position: Option<Position>, order: Order, r: Row)
    requires CursorFilter(position, order, r)
    ensures |Matching(rows, Some(Pos(r)), order)| <= |Matching(rows, position, order)|
    ensures r in rows ==> |Matching(rows, Some(Pos(r)), order)| < |Matching(rows, position, order)|
  {
    if rows != [] {
      MatchingShrinks(rows[1..], position, order, r);
      LaterMatches(position, order, r, rows[0]);
      hide CursorFilter;
      if r in rows && rows[0] != r { assert r in rows[1..]; }
    }
  }

  lemma LaterMatches(position: Option<Position>, order: Order, r: Row, x: Row)
    requires CursorFilter(position, order, r)
    ensures CursorFilter(Some(Pos(r)), order, x) ==> CursorFilter(position, order, x)
    ensures !CursorFilter(Some(Pos(r)), order, r)
  {
    CursorFilterResumesAfter(Pos(r), order, x);
    CursorFilterResumesAfter(Pos(r), order, r);
    BeforeIsStrict(order, Pos(r));
    if position.Some? {
      CursorFilterResumesAfter(position.value, order, r);
      CursorFilterResumesAfter(position.value, order, x);
      if Before(order, Pos(r), Pos(x)) { BeforeIsTransitive(order, position.value, Pos(r), Pos(x)); }
    }
  }

  /** A page says to go on after its last row. */
  lemma NextStart(page: Page, r: Row)
    requires page.hasMore && |page.items| > 0 && r == page.items[|page.items| - 1] && r.id != "" && ValidTime(r.createdAt)
    ensures RequireCursor(NextCursor(page)) == Some(Some(Pos(r)))
  {
    hide EncodeCursor, RequireCursor;
    HandedOutCursor(r);
  }

  lemma ChainPrepend(tables: seq<seq<Row>>, start: Option<Position>, next: Option<Position>, rest: seq<Page>, order: Order)
    requires Chain(tables, next, rest, 1, order)
    requires RequireCursor(NextCursor(MergedPage(tables, start, 1, order))) == Some(next)
    requires NextCursor(MergedPage(tables, start, 1, order)).Some?
    ensures Chain(tables, start, [MergedPage(tables, start, 1, order)] + rest, 1, order)
  {
    hide MergedPage, NextCursor, RequireCursor;
    var pages := [MergedPage(tables, start, 1, order)] + rest;
    forall i | 0 < i < |pages| ensures Linked(tables, pages[i - 1], pages[i], 1, order) {
      if i > 1 { assert Linked(tables, rest[i - 2], rest[i - 1], 1, order); }
    }
  }

  lemma ItemsSnoc(pages: seq<Page>, last: Page)
    ensures Items(pages + [last]) == Items(pages) + last.items
  {
    assert (pages + [last])[..|pages|] == pages;
  }

  lemma {:induction false} ItemsCons(page: Page, rest: seq<Page>)
    ensures Items([page] + rest) == page.items + Items(rest)
  {
    if rest == [] {
      ItemsSnoc([], page);
      assert [] + [page] == [page] + rest && Items([]) == [];
    } else {
      hide Items;
      var n := |rest| - 1;
      ItemsCons(page, rest[..n]);
      assert rest == rest[..n] + [rest[n]];
      assert [page] + rest == ([page] + rest[..n]) + [rest[n]];
      ItemsSnoc([page] + rest[..n], rest[n]);
      ItemsSnoc(rest[..n], rest[n]);
      Associative(page.items, Items(rest[..n]), rest[n].items);
    }
  }

  lemma OneItem(tables: seq<seq<Row>>, start: Option<Position>, order: Order)
    ensures |MergedPage(tables, start, 1, order).items| <= 1
  {
    hide FindMany;
  }

  lemma PrependedInOrder(start: Option<Position>, order: Order, r: Row, rest: seq<Row>)
    requires CursorFilter(start, order, r) && Ordered(order, rest)
    requires forall x :: x in rest ==> CursorFilter(Some(Pos(r)), order, x)
    ensures Ordered(order, [r] + rest) && forall x :: x in [r] + rest ==> CursorFilter(start, order, x)
  {
    forall x | x in rest ensures Before(order, Pos(r), Pos(x)) && CursorFilter(start, order, x) {
      CursorFilterResumesAfter(Pos(r), order, x);
      LaterMatches(start, order, r, x);
    }
    OrderedCons(order, r, rest);
  }

  /**
   * Pages of one row reach the end, whatever ties there are, with rows in strictly increasing order: of the rows at
   * one position only one is returned.
   */
  lemma {:induction false} OneByOne(tables: seq<seq<Row>>, start: Option<Position>, order: Order) returns (pages: seq<Page>)
    requires Carriable(Union(tables))
    ensures Chain(tables, start, pages, 1, order) && NextCursor(pages[|pages| - 1]).None?
    ensures Ordered(order, Items(pages)) && forall r :: r in Items(pages) ==> CursorFilter(start, order, r)
    decreases |Matching(Union(tables), start, order)|
  {
    hide MergedPage, EncodeCursor, RequireCursor, CursorFilter, Matching, Linked, ValidTime;
    var page := MergedPage(tables, start, 1, order);
    OneItem(tables, start, order);
    forall r | r in page.items ensures r in Union(tables) && CursorFilter(start, order, r) {
      MergedPageRows(tables, start, 1, order, r);
    }
    if NextCursor(page).None? {
      pages := [page];
      ItemsCons(page, []);
      assert Items([]) == [] && [page] + [] == [page];
    } else {
      var r := page.items[0];
      assert page.items == [r] && r in page.items;
      MatchingShrinks(Union(tables), start, order, r);
      NextStart(page, r);
      var rest := OneByOne(tables, Some(Pos(r)), order);
      ChainPrepend(tables, start, Some(Pos(r)), rest, order);
      pages := [page] + rest;
      ItemsCons(page, rest);
      PrependedInOrder(start, order, r, Items(rest));
    }
  }

  lemma OrderedIsUnambiguous(order: Order, s: seq<Row>)
    requires Ordered(order, s)
    ensures Unambiguous(multiset(s))
  {
    OrderedCounts(order, s);
    forall r, q | r in multiset(s) && q in multiset(s) && Pos(r) == Pos(q) ensures r == q {
      assert r in s && q in s;
      var i :| 0 <= i < |s| && s[i] == r;
      var j :| 0 <= j < |s| && s[j] == q;
      BeforeIsStrict(order, Pos(r));
    }
  }

  /** A walk over tables nobody writes to that ends has returned every row, as often as there is one. */
  ghost predicate ReturnsAll(tables: seq<seq<Row>>, pages: seq<Page>, limit: nat, order: Order) {
    MergedWalk(Still(tables, |pages|), pages, limit, order) && NextCursor(pages[|pages| - 1]).None? ==>
      multiset(Items(pages)) == multiset(Union(tables))
  }

  ghost predicate AlwaysReturnsAll(tables: seq<seq<Row>>) {
    forall pages, limit, order :: limit > 0 ==> ReturnsAll(tables, pages, limit, order)
  }

  /**
   * Merged paging is complete exactly when positions are distinct across the tables: then every walk that ends
   * returns every row, at every page size and in both orders, and otherwise some walk that ends does not.
   */
  lemma MergedWalksCompleteIff(tables: seq<seq<Row>>)
    requires Carriable(Union(tables))
    ensures AlwaysReturnsAll(tables) <==> Unambiguous(multiset(Union(tables)))
  {
    if Unambiguous(multiset(Union(tables))) {
      forall pages, limit, order | limit > 0 ensures ReturnsAll(tables, pages, limit, order) {
        if MergedWalk(Still(tables, |pages|), pages, limit, order) && NextCursor(pages[|pages| - 1]).None? {
          StillWalkReturnsAll(tables, pages, limit, order);
        }
      }
    } else {
      var pages := OneByOne(tables, None, Asc);
      ChainIsWalk(tables, pages, 1, Asc);
      OrderedIsUnambiguous(Asc, Items(pages));
      assert !ReturnsAll(tables, pages, 1, Asc);
    }
  }

  lemma StillWalkReturnsAll(tables: seq<seq<Row>>, pages: seq<Page>, limit: nat, order: Order)
    requires Carriable(Union(tables)) && Unambiguous(multiset(Union(tables))) && limit > 0
    requires MergedWalk(Still(tables, |pages|), pages, limit, order) && NextCursor(pages[|pages| - 1]).None?
    ensures multiset(Items(pages)) == multiset(Union(tables))
  {
    hide MergedPage, MergedFollows, NextCursor;
    var snapshots := Still(tables, |pages|);
    assert AllListable(Unions(snapshots));
    MergedWalkIsComplete(snapshots, pages, limit, order);
    assert Items(pages) == Sort(order, Union(tables));
    InsertAllMultiset(order, Union(tables), []);
  }

  // ----- the tie, spelled out for the ledger -----

  lemma SortOne(order: Order, x: Row)
    ensures Sort(order, [x]) == [x]
  {
    var none: seq<Row> := [];
    assert [x][1..] == none;
    assert InsertAll(order, none, none) == none;
    assert Insert(order, x, none) == [x];
  }

  lemma SortTied(order: Order, a: Row, b: Row)
    requires Pos(a) == Pos(b)
    ensures Sort(order, [a, b]) == [a, b]
  {
    SortOne(order, b);
    BeforeIsStrict(order, Pos(a));
    assert [a, b][1..] == [b];
    assert Insert(order, a, [b]) == [a] + [b];
  }

  lemma OneRowWindow(x: Row, position: Option<Position>, order: Order)
    ensures FindMany([x], position, order, 2) == if CursorFilter(position, order, x) then [x] else []
  {
    SortOne(order, x);
    var none: seq<Row> := [];
    assert [x][1..] == none && Matching(none, position, order) == none;
    assert Sort(order, none) == none;
  }

  lemma TwoTables(a: Row, b: Row, position: Option<Position>, order: Order)
    ensures Union(Windows([[a], [b]], position, order, 2)) == FindMany([a], position, order, 2) + FindMany([b], position, order, 2)
  {
    var tables := [[a], [b]];
    var wa, wb := FindMany([a], position, order, 2), FindMany([b], position, order, 2);
    assert tables[1..] == [[b]] && tables[1..][1..] == [];
    assert Windows([[b]], position, order, 2) == [wb];
    assert Windows(tables, position, order, 2) == [wa, wb];
    assert [wa, wb][1..] == [wb] && [wb][1..] == [];
    assert Union([wb]) == wb;
  }

  lemma TiedFirstPage(a: Row, b: Row, order: Order)
    requires Pos(a) == Pos(b)
    ensures MergedPage([[a], [b]], None, 1, order) == Page([a], true)
  {
    OneRowWindow(a, None, order);
    OneRowWindow(b, None, order);
    TwoTables(a, b, None, order);
    assert [a] + [b] == [a, b];
    SortTied(order, a, b);
  }

  lemma TiedSecondPage(a: Row, b: Row, order: Order)
    requires Pos(a) == Pos(b)
    ensures MergedPage([[a], [b]], Some(Pos(a)), 1, order) == Page([], false)
  {
    BeforeIsStrict(order, Pos(a));
    CursorFilterResumesAfter(Pos(a), order, a);
    CursorFilterResumesAfter(Pos(a), order, b);
    OneRowWindow(a, Some(Pos(a)), order);
    OneRowWindow(b, Some(Pos(a)), order);
    TwoTables(a, b, Some(Pos(a)), order);
  }

  /**
   * Two tables with a row each at one position, under the ledger's stable sort: with pages of one row the walk
   * returns the first table's row, says that there is more, and ends without the second's.
   */
  lemma TiedRowIsSkipped(a: Row, b: Row, order: Order)
    requires a != b && Pos(a) == Pos(b) && a.id != "" && ValidTime(a.createdAt)
    ensures MergedWalk(Still([[a], [b]], 2), [Page([a], true), Page([], false)], 1, order)
    ensures b !in Items([Page([a], true), Page([], false)])
  {
    hide MergedPage, EncodeCursor, RequireCursor, Pos;
    var tables, pages := [[a], [b]], [Page([a], true), Page([], false)];
    TiedFirstPage(a, b, order);
    TiedSecondPage(a, b, order);
    HandedOutCursor(a);
    assert Linked(tables, pages[0], pages[1], 1, order);
    ChainIsWalk(tables, pages, 1, order);
    var none: seq<Page> := [];
    assert pages[..1] == [pages[0]] && pages[..1][..0] == none;
    assert Items([pages[0]]) == [a] by { assert [pages[0]][..0] == none && Items(none) == []; }
    assert Items(pages) == [a];
  }
}
