/** Rows in `(createdAt, id)` order: the comparison, sorting, and taking the first few of a sorted list. */
module Listing {
  import opened Basics

  datatype Order = Asc | Desc

  datatype Position = Position(createdAt: int, id: string)

  /** A listed row; `kind` is its table and `body` everything else the response carries. */
  datatype Row = Row(kind: string, createdAt: int, id: string, body: string)

  function Pos(r: Row): Position {
    Position(r.createdAt, r.id)
  }

  predicate PosLess(a: Position, b: Position) {
    a.createdAt < b.createdAt || (a.createdAt == b.createdAt && StringLess(a.id, b.id))
  }

  /** `a` comes strictly before `b` on a page in this order. */
  predicate Before(order: Order, a: Position, b: Position) {
    match order
    case Asc => PosLess(a, b)
    case Desc => PosLess(b, a)
  }

  lemma BeforeIsStrict(order: Order, a: Position)
    ensures !Before(order, a, a)
  {
    StringLessIrreflexive(a.id);
  }

  lemma BeforeIsTransitive(order: Order, a: Position, b: Position, c: Position)
    requires Before(order, a, b) && Before(order, b, c)
    ensures Before(order, a, c)
  {
    var x, y, z := if order.Asc? then a else c, b, if order.Asc? then c else a;
    if x.createdAt == y.createdAt == z.createdAt {
      StringLessTransitive(x.id, y.id, z.id);
    }
  }

  lemma BeforeIsTotal(order: Order, a: Position, b: Position)
    ensures a == b || Before(order, a, b) || Before(order, b, a)
    ensures !(Before(order, a, b) && Before(order, b, a))
  {
    StringLessTotal(a.id, b.id);
  }

  ghost predicate Ordered(order: Order, s: seq<Row>) {
    forall i, j :: 0 <= i < j < |s| ==> Before(order, Pos(s[i]), Pos(s[j]))
  }

  /** No row occurs twice and no two rows share a position. */
  ghost predicate Unambiguous(rows: multiset<Row>) {
    && (forall r :: r in rows ==> rows[r] == 1)
    && forall r, q :: r in rows && q in rows && Pos(r) == Pos(q) ==> r == q
  }

  /** `x` goes where nothing before it has to come after it, and before whatever ties with it. */
  function Insert(order: Order, x: Row, s: seq<Row>): seq<Row> {
    if s == [] || !Before(order, Pos(s[0]), Pos(x)) then [x] + s else [s[0]] + Insert(order, x, s[1..])
  }

  function InsertAll(order: Order, rows: seq<Row>, s: seq<Row>): seq<Row> {
    if rows == [] then s else Insert(order, rows[0], InsertAll(order, rows[1..], s))
  }

  /** A stable sort: rows at one position keep their order (see SortIsStable). */
  function Sort(order: Order, rows: seq<Row>): seq<Row> {
    InsertAll(order, rows, [])
  }

  function Take(n: nat, s: seq<Row>): (t: seq<Row>)
    ensures |t| == if |s| < n then |s| else n
  {
    if |s| <= n then s else s[..n]
  }

  lemma {:induction false} InsertMultiset(order: Order, x: Row, s: seq<Row>)
    ensures multiset(Insert(order, x, s)) == multiset{x} + multiset(s)
  {
    if s != [] {
      InsertMultiset(order, x, s[1..]);
      assert s == [s[0]] + s[1..];
    }
  }

  lemma {:induction false} InsertAllMultiset(order: Order, rows: seq<Row>, s: seq<Row>)
    ensures multiset(InsertAll(order, rows, s)) == multiset(rows) + multiset(s)
  {
    if rows != [] {
      InsertAllMultiset(order, rows[1..], s);
      InsertMultiset(order, rows[0], InsertAll(order, rows[1..], s));
      assert rows == [rows[0]] + rows[1..];
    }
  }

  lemma OrderedTail(order: Order, s: seq<Row>)
    requires Ordered(order, s) && s != []
    ensures Ordered(order, s[1..])
  {
  }

  /** An ordered list is ordered after putting before it something smaller than all of it. */
  lemma OrderedCons(order: Order, x: Row, s: seq<Row>)
    requires Ordered(order, s) && forall y :: y in s ==> Before(order, Pos(x), Pos(y))
    ensures Ordered(order, [x] + s)
  {
    var t := [x] + s;
    forall i, j | 0 <= i < j < |t| ensures Before(order, Pos(t[i]), Pos(t[j])) {
      assert t[j] == s[j - 1];
      if i > 0 { assert t[i] == s[i - 1]; }
    }
  }

  lemma {:induction false} InsertOrdered(order: Order, x: Row, s: seq<Row>)
    requires Ordered(order, s) && forall y :: y in s ==> Pos(y) != Pos(x)
    ensures Ordered(order, Insert(order, x, s))
  {
    if s == [] {
    } else if !Before(order, Pos(s[0]), Pos(x)) {
      BeforeIsTotal(order, Pos(x), Pos(s[0]));
      forall y | y in s ensures Before(order, Pos(x), Pos(y)) {
        if y != s[0] { BeforeIsTransitive(order, Pos(x), Pos(s[0]), Pos(y)); }
      }
      OrderedCons(order, x, s);
    } else {
      OrderedTail(order, s);
      InsertOrdered(order, x, s[1..]);
      InsertMultiset(order, x, s[1..]);
      var t := Insert(order, x, s[1..]);
      forall y | y in t ensures Before(order, Pos(s[0]), Pos(y)) {
        assert y in multiset(t);
      }
      OrderedCons(order, s[0], t);
    }
  }

  lemma UnambiguousParts(a: multiset<Row>, b: multiset<Row>)
    requires Unambiguous(b) && a <= b
    ensures Unambiguous(a)
  {
  }

  lemma {:induction false} InsertAllOrdered(order: Order, rows: seq<Row>, s: seq<Row>)
    requires Ordered(order, s) && Unambiguous(multiset(rows) + multiset(s))
    ensures Ordered(order, InsertAll(order, rows, s))
  {
    if rows != [] {
      var x, rest := rows[0], rows[1..];
      assert rows == [x] + rest;
      UnambiguousParts(multiset(rest) + multiset(s), multiset(rows) + multiset(s));
      InsertAllOrdered(order, rest, s);
      InsertAllMultiset(order, rest, s);
      var t := InsertAll(order, rest, s);
      assert x in multiset(rows) + multiset(s) && x !in multiset(t);
      forall y | y in t ensures Pos(y) != Pos(x) {
        assert y in multiset(t) && y in multiset(rows) + multiset(s);
      }
      InsertOrdered(order, x, t);
    }
  }

  lemma SameHead(order: Order, s: seq<Row>, t: seq<Row>)
    requires Ordered(order, s) && Ordered(order, t) && multiset(s) == multiset(t) && s != []
    ensures t != [] && s[0] == t[0]
  {
    assert s[0] in multiset(t);
    assert t[0] in multiset(s);
    if s[0] != t[0] {
      assert Before(order, Pos(t[0]), Pos(s[0]));
      assert Before(order, Pos(s[0]), Pos(t[0]));
      BeforeIsTotal(order, Pos(s[0]), Pos(t[0]));
    }
  }

  /** Two ordered arrangements of the same rows are the same list. */
  lemma {:induction false} OrderedUnique(order: Order, s: seq<Row>, t: seq<Row>)
    requires Ordered(order, s) && Ordered(order, t) && multiset(s) == multiset(t)
    ensures s == t
  {
    if s == [] {
      assert |multiset(t)| == 0;
    } else {
      SameHead(order, s, t);
      OrderedTail(order, s);
      OrderedTail(order, t);
      assert s == [s[0]] + s[1..] && t == [t[0]] + t[1..];
      assert multiset(s[1..]) == multiset(s) - multiset{s[0]};
      assert multiset(t[1..]) == multiset(t) - multiset{t[0]};
      OrderedUnique(order, s[1..], t[1..]);
    }
  }

  /** `Sort` gives the one ordered arrangement of its rows, so any correct sort gives the same list. */
  lemma SortIsTheArrangement(order: Order, rows: seq<Row>, s: seq<Row>)
    requires Unambiguous(multiset(rows))
    ensures s == Sort(order, rows) <==> Ordered(order, s) && multiset(s) == multiset(rows)
  {
    assert multiset(rows) + multiset([]) == multiset(rows);
    InsertAllOrdered(order, rows, []);
    InsertAllMultiset(order, rows, []);
    if Ordered(order, s) && multiset(s) == multiset(rows) {
      OrderedUnique(order, s, Sort(order, rows));
    }
  }

  lemma SortsAgree(order: Order, a: seq<Row>, b: seq<Row>)
    requires Unambiguous(multiset(a)) && multiset(a) == multiset(b)
    ensures Sort(order, a) == Sort(order, b)
  {
    SortIsTheArrangement(order, a, Sort(order, a));
    SortIsTheArrangement(order, b, Sort(order, a));
  }

  lemma {:induction false} InsertAllAppend(order: Order, a: seq<Row>, b: seq<Row>, s: seq<Row>)
    ensures InsertAll(order, a + b, s) == InsertAll(order, a, InsertAll(order, b, s))
  {
    if a == [] {
      assert a + b == b;
    } else {
      assert (a + b)[1..] == a[1..] + b;
      InsertAllAppend(order, a[1..], b, s);
    }
  }

  lemma SortAppend(order: Order, a: seq<Row>, b: seq<Row>)
    ensures Sort(order, a + b) == InsertAll(order, a, Sort(order, b))
  {
    InsertAllAppend(order, a, b, []);
  }

  /** The rows at one position, in the order they have. */
  function RowsAt(p: Position, rows: seq<Row>): seq<Row> {
    if rows == [] then []
    else (if Pos(rows[0]) == p then [rows[0]] else []) + RowsAt(p, rows[1..])
  }

  lemma {:induction false} InsertIsStable(order: Order, p: Position, x: Row, s: seq<Row>)
    ensures RowsAt(p, Insert(order, x, s)) == RowsAt(p, [x] + s)
  {
    assert ([x] + s)[1..] == s;
    if s != [] && Before(order, Pos(s[0]), Pos(x)) {
      InsertIsStable(order, p, x, s[1..]);
      BeforeIsStrict(order, Pos(x));
      var t := Insert(order, x, s[1..]);
      assert ([s[0]] + t)[1..] == t && ([x] + s[1..])[1..] == s[1..];
    }
  }

  /** Sorting is stable: rows that tie stay in the order they came in, as `Array.prototype.sort` keeps them. */
  lemma {:induction false} SortIsStable(order: Order, p: Position, rows: seq<Row>)
    ensures RowsAt(p, Sort(order, rows)) == RowsAt(p, rows)
  {
    if rows != [] {
      SortIsStable(order, p, rows[1..]);
      InsertIsStable(order, p, rows[0], Sort(order, rows[1..]));
      assert ([rows[0]] + Sort(order, rows[1..]))[1..] == Sort(order, rows[1..]);
    }
  }

  // ----- the first n -----

  /** Only the first `n` of a list matter to the first `n` after an insertion. */
  lemma {:induction false} TakeInsert(order: Order, n: nat, x: Row, s: seq<Row>)
    ensures Take(n, Insert(order, x, s)) == Take(n, Insert(order, x, Take(n, s)))
  {
    if n == 0 || |s| <= n {
    } else if !Before(order, Pos(s[0]), Pos(x)) {
      assert Take(n, s)[0] == s[0];
      assert Take(n, [x] + s) == [x] + s[..n - 1];
      assert Take(n, [x] + Take(n, s)) == [x] + s[..n - 1];
    } else {
      TakeInsert(order, n - 1, x, s[1..]);
      assert Take(n, s)[0] == s[0] && Take(n, s)[1..] == Take(n - 1, s[1..]);
      TakeCons(n, s[0], Insert(order, x, s[1..]));
      TakeCons(n, s[0], Insert(order, x, Take(n - 1, s[1..])));
    }
  }

  lemma TakeCons(n: nat, x: Row, s: seq<Row>)
    requires n > 0
    ensures Take(n, [x] + s) == [x] + Take(n - 1, s)
  {
  }

  lemma {:induction false} TakeInsertAll(order: Order, n: nat, rows: seq<Row>, s: seq<Row>)
    ensures Take(n, InsertAll(order, rows, s)) == Take(n, InsertAll(order, rows, Take(n, s)))
  {
    if rows == [] {
      assert Take(n, Take(n, s)) == Take(n, s);
    } else {
      TakeInsertAll(order, n, rows[1..], s);
      TakeInsert(order, n, rows[0], InsertAll(order, rows[1..], s));
      TakeInsert(order, n, rows[0], InsertAll(order, rows[1..], Take(n, s)));
    }
  }
}
