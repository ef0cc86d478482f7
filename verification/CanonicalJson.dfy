/**
 * Hashing request bodies (src/plugins/idempotency.ts): `canonicalize`, `JSON.stringify`, and the digest of the
 * result. Objects keep the order of their keys, as JavaScript's do, so that forgetting it is something to prove.
 */
module CanonicalJson {
  import opened Basics
  import opened Numerals
  import Utf8

  /**
   * A parsed JSON value. `Leaf` is null, a boolean or a number, given by what `JSON.stringify` prints for it:
   * 0 and -0 are one leaf, and so are null and a number too large for a double.
   */
  datatype Json = Leaf(printed: string) | Text(text: string) | Arr(items: Items) | Obj(entries: Entries)
  datatype Items = NoItems | Item(head: Json, tail: Items)
  datatype Entries = End | Entry(key: string, value: Json, rest: Entries)

  function MapOf(es: Entries): map<string, Json> {
    match es
    case End => map[]
    case Entry(k, v, rest) => MapOf(rest)[k := v]
  }

  /** Punctuation is not part of a leaf. */
  predicate IsPlain(c: char) {
    c !in {'"', '[', ']', '{', '}', ',', ':'}
  }

  /** What JSON.parse can return: leaves print as something, and no object has a key twice. */
  predicate WellFormed(j: Json) {
    match j
    case Leaf(printed) => |printed| > 0 && forall i :: 0 <= i < |printed| ==> IsPlain(printed[i])
    case Text(_) => true
    case Arr(items) => WellFormedItems(items)
    case Obj(es) => WellFormedEntries(es)
  }

  predicate WellFormedItems(items: Items) {
    match items
    case NoItems => true
    case Item(head, tail) => WellFormed(head) && WellFormedItems(tail)
  }

  predicate WellFormedEntries(es: Entries) {
    match es
    case End => true
    case Entry(k, v, rest) => k !in MapOf(rest) && WellFormed(v) && WellFormedEntries(rest)
  }

  // ----- the order of `Array.prototype.sort` -----

  /** A character's place in the order of UTF-16 code units, where surrogate pairs come before U+E000. */
  function UnitRank(c: char): int {
    var code := c as int;
    if code < 0xE000 then code
    else if code >= 0x1_0000 then code - 0x2000
    else code + 0x10_0000
  }

  lemma UnitRankInjective(a: char, b: char)
    ensures UnitRank(a) == UnitRank(b) <==> a == b
  {
  }

  predicate CodeUnitLess(a: string, b: string) {
    if b == "" then false
    else if a == "" then true
    else if a[0] != b[0] then UnitRank(a[0]) < UnitRank(b[0])
    else CodeUnitLess(a[1..], b[1..])
  }

  lemma {:induction false} CodeUnitTransitive(a: string, b: string, c: string)
    requires CodeUnitLess(a, b) && CodeUnitLess(b, c)
    ensures CodeUnitLess(a, c)
  {
    hide UnitRank;
    if a != "" {
      UnitRankInjective(a[0], c[0]);
      if a[0] == b[0] && b[0] == c[0] { CodeUnitTransitive(a[1..], b[1..], c[1..]); }
    }
  }

  lemma {:induction false} CodeUnitIrreflexive(a: string)
    ensures !CodeUnitLess(a, a)
  {
    if a != "" { CodeUnitIrreflexive(a[1..]); }
  }

  lemma {:induction false} CodeUnitTotal(a: string, b: string)
    ensures a == b || CodeUnitLess(a, b) || CodeUnitLess(b, a)
    ensures !(CodeUnitLess(a, b) && CodeUnitLess(b, a))
  {
    hide UnitRank;
    if a != "" && b != "" {
      UnitRankInjective(a[0], b[0]);
      if a[0] == b[0] {
        CodeUnitTotal(a[1..], b[1..]);
        assert a == [a[0]] + a[1..] && b == [b[0]] + b[1..];
      }
    }
  }

  predicate UnitsLess(a: seq<int>, b: seq<int>) {
    if b == [] then false
    else if a == [] then true
    else if a[0] != b[0] then a[0] < b[0]
    else UnitsLess(a[1..], b[1..])
  }

  lemma {:induction false} UnitsLessAfter(head: seq<int>, a: seq<int>, b: seq<int>)
    ensures UnitsLess(head + a, head + b) <==> UnitsLess(a, b)
  {
    if head == [] {
      assert head + a == a && head + b == b;
    } else {
      assert (head + a)[1..] == head[1..] + a && (head + b)[1..] == head[1..] + b;
      UnitsLessAfter(head[1..], a, b);
    }
  }

  lemma DifferentUnits(c: char, d: char, a: seq<int>, b: seq<int>)
    requires c != d
    ensures UnitsLess(Utf8.Units(c) + a, Utf8.Units(d) + b) <==> UnitRank(c) < UnitRank(d)
  {
    var x, y := Utf8.Units(c) + a, Utf8.Units(d) + b;
    if x[0] == y[0] {
      assert |Utf8.Units(c)| == 2 && |Utf8.Units(d)| == 2;
      assert x[1..][0] == Utf8.Units(c)[1] && y[1..][0] == Utf8.Units(d)[1];
    }
  }

  /** Names are sorted as `sort` sorts them: by their UTF-16 code units. */
  lemma {:induction false} SortsByCodeUnits(a: string, b: string)
    ensures CodeUnitLess(a, b) <==> UnitsLess(Utf8.Utf16(a), Utf8.Utf16(b))
  {
    if a != "" && b != "" {
      hide UnitsLess, UnitRank;
      if a[0] == b[0] {
        SortsByCodeUnits(a[1..], b[1..]);
        UnitsLessAfter(Utf8.Units(a[0]), Utf8.Utf16(a[1..]), Utf8.Utf16(b[1..]));
      } else {
        DifferentUnits(a[0], b[0], Utf8.Utf16(a[1..]), Utf8.Utf16(b[1..]));
      }
    }
  }

  // ----- canonicalize -----

  /** Names that are array indices; an object lists them first, in numeric order. */
  predicate IsIndex(k: string) {
    |k| > 0 && AllDigits(k) && (|k| > 1 ==> k[0] != '0') && NatOf(k) < 0xFFFF_FFFF
  }

  /** They are the numerals below 2^32 - 1. */
  lemma IndicesAreNumerals(k: string)
    ensures IsIndex(k) <==> exists n: nat :: n < 0xFFFF_FFFF && k == Digits(n)
  {
    if IsIndex(k) { DigitsOfNat(k); }
    forall n: nat | n < 0xFFFF_FFFF && k == Digits(n) ensures IsIndex(k) {
      NatOfDigits(n);
    }
  }

  /** A new property among those an object has: an index before the larger ones, any other name at the end. */
  function AddProperty(o: Entries, k: string, v: Json): Entries {
    match o
    case End => Entry(k, v, End)
    case Entry(k2, v2, rest) =>
      if IsIndex(k) && (!IsIndex(k2) || NatOf(k) < NatOf(k2)) then Entry(k, v, o)
      else Entry(k2, v2, AddProperty(rest, k, v))
  }

  /** `result[key] = value` for a new key. Assigning to `__proto__` sets the prototype and adds no property. */
  function Assign(o: Entries, k: string, v: Json): Entries {
    if IsProto(k) then o else AddProperty(o, k, v)
  }

  function AssignAll(o: Entries, es: Entries): Entries
    decreases es
  {
    match es
    case End => o
    case Entry(k, v, rest) => AssignAll(Assign(o, k, v), rest)
  }

  function InsertByKey(k: string, v: Json, es: Entries): Entries {
    match es
    case End => Entry(k, v, End)
    case Entry(k2, v2, rest) =>
      if CodeUnitLess(k, k2) then Entry(k, v, es) else Entry(k2, v2, InsertByKey(k, v, rest))
  }

  function Canonicalize(j: Json): Json {
    match j
    case Arr(items) => Arr(CanonicalItems(items))
    case Obj(es) => Obj(AssignAll(End, SortedEntries(es)))
    case _ => j
  }

  function CanonicalItems(items: Items): Items {
    match items
    case NoItems => NoItems
    case Item(head, tail) => Item(Canonicalize(head), CanonicalItems(tail))
  }

  /** The entries by sorted key, each value canonicalized. */
  function SortedEntries(es: Entries): Entries {
    match es
    case End => End
    case Entry(k, v, rest) => InsertByKey(k, Canonicalize(v), SortedEntries(rest))
  }

  // ----- what a value means -----

  /** A JSON value whose objects are unordered: two values are equal up to reordering when they mean the same. */
  datatype Value = Atom(printed: string) | Words(text: string) | Sequence(values: seq<Value>) | Record(fields: map<string, Value>)

  /** The meaning of a value; with `proto` false, as it is when properties named `__proto__` do not count. */
  function Meaning(j: Json, proto: bool): Value {
    match j
    case Leaf(printed) => Atom(printed)
    case Text(text) => Words(text)
    case Arr(items) => Sequence(ItemMeanings(items, proto))
    case Obj(es) => Record(Fields(es, proto))
  }

  function ItemMeanings(items: Items, proto: bool): seq<Value> {
    match items
    case NoItems => []
    case Item(head, tail) => [Meaning(head, proto)] + ItemMeanings(tail, proto)
  }

  function Fields(es: Entries, proto: bool): map<string, Value> {
    match es
    case End => map[]
    case Entry(k, v, rest) =>
      if IsProto(k) && !proto then Fields(rest, proto) else Fields(rest, proto)[k := Meaning(v, proto)]
  }

  lemma {:induction false} FieldsOfMap(es: Entries, proto: bool, k: string)
    requires WellFormedEntries(es)
    ensures k in Fields(es, proto) <==> k in MapOf(es) && (proto || !IsProto(k))
    ensures k in Fields(es, proto) ==> Fields(es, proto)[k] == Meaning(MapOf(es)[k], proto)
  {
    hide IsProto;
    match es
    case End =>
    case Entry(_, _, rest) => FieldsOfMap(rest, proto, k);
  }

  lemma {:induction false} WellFormedValues(es: Entries, k: string)
    requires WellFormedEntries(es) && k in MapOf(es)
    ensures WellFormed(MapOf(es)[k])
  {
    if es.key != k { WellFormedValues(es.rest, k); }
  }

  // ----- sorting and assigning, as maps -----

  predicate BelowAll(k: string, es: Entries) {
    es.Entry? ==> CodeUnitLess(k, es.key) && BelowAll(k, es.rest)
  }

  predicate Sorted(es: Entries) {
    es.Entry? ==> BelowAll(es.key, es.rest) && Sorted(es.rest)
  }

  lemma {:induction false} BelowAllOf(k: string, es: Entries, other: string)
    requires BelowAll(k, es) && other in MapOf(es)
    ensures CodeUnitLess(k, other)
  {
    if es.key != other { BelowAllOf(k, es.rest, other); }
  }

  lemma {:induction false} BelowTransitive(k: string, k2: string, es: Entries)
    requires CodeUnitLess(k, k2) && BelowAll(k2, es)
    ensures BelowAll(k, es)
  {
    if es.Entry? {
      CodeUnitTransitive(k, k2, es.key);
      BelowTransitive(k, k2, es.rest);
    }
  }

  lemma {:induction false} InsertedBelow(low: string, k: string, v: Json, es: Entries)
    requires CodeUnitLess(low, k) && BelowAll(low, es)
    ensures BelowAll(low, InsertByKey(k, v, es))
  {
    hide CodeUnitLess;
    if es.Entry? { InsertedBelow(low, k, v, es.rest); }
  }

  lemma {:induction false} InsertSorts(k: string, v: Json, es: Entries)
    requires Sorted(es) && WellFormedEntries(es) && WellFormed(v) && k !in MapOf(es)
    ensures Sorted(InsertByKey(k, v, es)) && WellFormedEntries(InsertByKey(k, v, es))
    ensures MapOf(InsertByKey(k, v, es)) == MapOf(es)[k := v]
  {
    hide CodeUnitLess, WellFormed;
    if es.Entry? {
      CodeUnitTotal(k, es.key);
      if CodeUnitLess(k, es.key) {
        BelowTransitive(k, es.key, es.rest);
      } else {
        InsertSorts(k, v, es.rest);
        InsertedBelow(es.key, k, v, es.rest);
      }
    }
  }

  lemma EmptyMap(es: Entries)
    ensures MapOf(es) == map[] <==> es.End?
  {
    if es.Entry? { assert es.key in MapOf(es); }
  }

  /** Sorted entries are determined by the map they make. */
  lemma {:induction false} SortedUnique(a: Entries, b: Entries)
    requires Sorted(a) && Sorted(b) && MapOf(a) == MapOf(b)
    ensures a == b
  {
    hide CodeUnitLess;
    EmptyMap(a);
    EmptyMap(b);
    if a.Entry? {
      assert a.key in MapOf(b) && b.key in MapOf(a);
      if a.key != b.key {
        BelowAllOf(a.key, a.rest, b.key);
        BelowAllOf(b.key, b.rest, a.key);
        CodeUnitTotal(a.key, b.key);
        assert false;
      }
      TailMap(a);
      TailMap(b);
      SortedUnique(a.rest, b.rest);
    }
  }

  lemma TailMap(a: Entries)
    requires a.Entry? && Sorted(a)
    ensures MapOf(a.rest) == MapOf(a) - {a.key} && MapOf(a)[a.key] == a.value
  {
    if a.key in MapOf(a.rest) {
      BelowAllOf(a.key, a.rest, a.key);
      CodeUnitIrreflexive(a.key);
    }
    assert MapOf(a.rest) == MapOf(a) - {a.key};
  }

  lemma {:induction false} AddPropertyMap(o: Entries, k: string, v: Json)
    requires WellFormedEntries(o) && WellFormed(v) && k !in MapOf(o)
    ensures WellFormedEntries(AddProperty(o, k, v)) && MapOf(AddProperty(o, k, v)) == MapOf(o)[k := v]
  {
    hide IsIndex, NatOf, WellFormed;
    if o.Entry? { AddPropertyMap(o.rest, k, v); }
  }

  lemma {:induction false} AssignAllMap(o: Entries, es: Entries)
    requires WellFormedEntries(o) && WellFormedEntries(es) && MapOf(o).Keys !! MapOf(es).Keys
    ensures WellFormedEntries(AssignAll(o, es))
    ensures forall k :: k in MapOf(AssignAll(o, es)) <==> k in MapOf(o) || (k in MapOf(es) && !IsProto(k))
    ensures forall k :: k in MapOf(AssignAll(o, es)) ==>
              MapOf(AssignAll(o, es))[k] == if k in MapOf(o) then MapOf(o)[k] else MapOf(es)[k]
    decreases es
  {
    hide WellFormed, IsProto;
    if es.Entry? {
      if IsProto(es.key) {
        AssignAllMap(o, es.rest);
      } else {
        AddPropertyMap(o, es.key, es.value);
        AssignAllMap(AddProperty(o, es.key, es.value), es.rest);
      }
    }
  }

  function WithoutProto(es: Entries): Entries {
    match es
    case End => End
    case Entry(k, v, rest) => if IsProto(k) then WithoutProto(rest) else Entry(k, v, WithoutProto(rest))
  }

  lemma {:induction false} AssignAllSkipsProto(o: Entries, es: Entries)
    ensures AssignAll(o, es) == AssignAll(o, WithoutProto(es))
    decreases es
  {
    hide IsProto;
    if es.Entry? { AssignAllSkipsProto(Assign(o, es.key, es.value), es.rest); }
  }

  lemma {:induction false} WithoutProtoBelow(k: string, es: Entries)
    requires BelowAll(k, es)
    ensures BelowAll(k, WithoutProto(es))
  {
    hide IsProto, CodeUnitLess;
    if es.Entry? { WithoutProtoBelow(k, es.rest); }
  }

  lemma {:induction false} WithoutProtoSorted(es: Entries)
    requires Sorted(es) && WellFormedEntries(es)
    ensures Sorted(WithoutProto(es))
    ensures forall k :: k in MapOf(WithoutProto(es)) <==> k in MapOf(es) && !IsProto(k)
    ensures forall k :: k in MapOf(WithoutProto(es)) ==> MapOf(WithoutProto(es))[k] == MapOf(es)[k]
  {
    hide IsProto, CodeUnitLess, WellFormed;
    if es.Entry? {
      WithoutProtoSorted(es.rest);
      WithoutProtoBelow(es.key, es.rest);
    }
  }

  // ----- canonical forms -----

  lemma {:induction false} CanonicalIsWellFormed(j: Json)
    requires WellFormed(j)
    ensures WellFormed(Canonicalize(j))
  {
    match j
    case Arr(items) => CanonicalItemsWellFormed(items);
    case Obj(es) =>
      SortedEntriesOf(es);
      AssignAllMap(End, SortedEntries(es));
    case _ =>
  }

  lemma {:induction false} CanonicalItemsWellFormed(items: Items)
    requires WellFormedItems(items)
    ensures WellFormedItems(CanonicalItems(items))
  {
    if items.Item? {
      CanonicalIsWellFormed(items.head);
      CanonicalItemsWellFormed(items.tail);
    }
  }

  lemma {:induction false} SortedEntriesOf(es: Entries)
    requires WellFormedEntries(es)
    ensures Sorted(SortedEntries(es)) && WellFormedEntries(SortedEntries(es))
    ensures MapOf(SortedEntries(es)).Keys == MapOf(es).Keys
    ensures forall k :: k in MapOf(es) ==> MapOf(SortedEntries(es))[k] == Canonicalize(MapOf(es)[k])
  {
    if es.Entry? {
      SortedEntriesOf(es.rest);
      CanonicalIsWellFormed(es.value);
      InsertSorts(es.key, Canonicalize(es.value), SortedEntries(es.rest));
    }
  }

  /** The properties of a canonical object: those of the object, canonicalized, without `__proto__`. */
  lemma CanonicalProperties(es: Entries)
    requires WellFormedEntries(es)
    ensures var c := MapOf(Canonicalize(Obj(es)).entries);
            && (forall k :: k in c <==> k in MapOf(es) && !IsProto(k))
            && (forall k :: k in c ==> c[k] == Canonicalize(MapOf(es)[k]))
  {
    hide IsProto, WellFormedEntries, AssignAll;
    SortedEntriesOf(es);
    assert WellFormedEntries(End) && MapOf(End) == map[] by { EndIsEmpty(); }
    AssignAllMap(End, SortedEntries(es));
  }

  lemma EndIsEmpty()
    ensures WellFormedEntries(End) && MapOf(End) == map[]
  {
  }

  // ----- the order of the keys -----

  /** JavaScript lists indices first, in numeric order; a canonical form lists the other names by code units. */
  predicate KeyBefore(a: string, b: string) {
    if IsIndex(a) then IsIndex(b) ==> NatOf(a) < NatOf(b) else !IsIndex(b) && CodeUnitLess(a, b)
  }

  predicate BeforeAll(k: string, es: Entries) {
    es.Entry? ==> KeyBefore(k, es.key) && BeforeAll(k, es.rest)
  }

  predicate KeysInOrder(es: Entries) {
    es.Entry? ==> BeforeAll(es.key, es.rest) && KeysInOrder(es.rest)
  }

  /** Every object in the value lists its keys in this order. */
  predicate InOrder(j: Json) {
    match j
    case Arr(items) => ItemsInOrder(items)
    case Obj(es) => KeysInOrder(es) && ValuesInOrder(es)
    case _ => true
  }

  predicate ItemsInOrder(items: Items) {
    items.Item? ==> InOrder(items.head) && ItemsInOrder(items.tail)
  }

  predicate ValuesInOrder(es: Entries) {
    es.Entry? ==> InOrder(es.value) && ValuesInOrder(es.rest)
  }

  /** The names in `o` that are no indices come before `k`. */
  predicate NamesBelow(o: Entries, k: string) {
    o.Entry? ==> (!IsIndex(o.key) ==> CodeUnitLess(o.key, k)) && NamesBelow(o.rest, k)
  }

  predicate NamesBelowAll(o: Entries, es: Entries) {
    es.Entry? ==> NamesBelow(o, es.key) && NamesBelowAll(o, es.rest)
  }

  lemma {:induction false} BeforeTransitive(a: string, b: string, es: Entries)
    requires KeyBefore(a, b) && BeforeAll(b, es)
    ensures BeforeAll(a, es)
  {
    hide IsIndex;
    if es.Entry? {
      if !IsIndex(a) { CodeUnitTransitive(a, b, es.key); }
      BeforeTransitive(a, b, es.rest);
    }
  }

  lemma {:induction false} AddedBefore(low: string, k: string, v: Json, o: Entries)
    requires KeyBefore(low, k) && BeforeAll(low, o)
    ensures BeforeAll(low, AddProperty(o, k, v))
  {
    hide KeyBefore;
    if o.Entry? { AddedBefore(low, k, v, o.rest); }
  }

  lemma OtherIndex(a: string, b: string)
    requires IsIndex(a) && IsIndex(b) && NatOf(a) == NatOf(b)
    ensures a == b
  {
    DigitsOfNat(a);
    DigitsOfNat(b);
  }

  lemma {:induction false} AddKeepsOrder(o: Entries, k: string, v: Json)
    requires KeysInOrder(o) && k !in MapOf(o) && NamesBelow(o, k)
    ensures KeysInOrder(AddProperty(o, k, v))
  {
    if o.Entry? {
      if IsIndex(k) && IsIndex(o.key) && NatOf(k) == NatOf(o.key) { OtherIndex(k, o.key); }
      hide IsIndex, CodeUnitLess, NatOf;
      if IsIndex(k) && (!IsIndex(o.key) || NatOf(k) < NatOf(o.key)) {
        BeforeTransitive(k, o.key, o.rest);
      } else {
        AddKeepsOrder(o.rest, k, v);
        AddedBefore(o.key, k, v, o.rest);
      }
    }
  }

  lemma {:induction false} AddKeepsBelow(o: Entries, k: string, v: Json, es: Entries)
    requires NamesBelowAll(o, es) && BelowAll(k, es)
    ensures NamesBelowAll(AddProperty(o, k, v), es)
  {
    hide IsIndex, CodeUnitLess, NatOf;
    if es.Entry? {
      AddKeepsBelow(o, k, v, es.rest);
      AddedNamesBelow(o, k, v, es.key);
    }
  }

  lemma {:induction false} AddedNamesBelow(o: Entries, k: string, v: Json, k2: string)
    requires NamesBelow(o, k2) && CodeUnitLess(k, k2)
    ensures NamesBelow(AddProperty(o, k, v), k2)
  {
    hide IsIndex, CodeUnitLess, NatOf;
    if o.Entry? { AddedNamesBelow(o.rest, k, v, k2); }
  }

  lemma {:induction false} AssignAllInOrder(o: Entries, es: Entries)
    requires WellFormedEntries(o) && WellFormedEntries(es) && MapOf(o).Keys !! MapOf(es).Keys
    requires KeysInOrder(o) && Sorted(es) && NamesBelowAll(o, es)
    ensures KeysInOrder(AssignAll(o, es))
    decreases es
  {
    hide WellFormed, IsProto, KeysInOrder, AddProperty, CodeUnitLess, NamesBelow;
    if es.Entry? {
      if IsProto(es.key) {
        AssignAllInOrder(o, es.rest);
      } else {
        AddKeepsOrder(o, es.key, es.value);
        AddKeepsBelow(o, es.key, es.value, es.rest);
        AddPropertyMap(o, es.key, es.value);
        AssignAllInOrder(AddProperty(o, es.key, es.value), es.rest);
      }
    }
  }

  lemma {:induction false} AddKeepsValues(o: Entries, k: string, v: Json)
    requires ValuesInOrder(o) && InOrder(v)
    ensures ValuesInOrder(AddProperty(o, k, v))
  {
    hide IsIndex, NatOf, InOrder;
    if o.Entry? { AddKeepsValues(o.rest, k, v); }
  }

  lemma {:induction false} AssignAllKeepsValues(o: Entries, es: Entries)
    requires ValuesInOrder(o) && ValuesInOrder(es)
    ensures ValuesInOrder(AssignAll(o, es))
    decreases es
  {
    hide IsProto, InOrder, AddProperty;
    if es.Entry? {
      AddKeepsValues(o, es.key, es.value);
      AssignAllKeepsValues(Assign(o, es.key, es.value), es.rest);
    }
  }

  lemma {:induction false} InsertKeepsValues(k: string, v: Json, es: Entries)
    requires ValuesInOrder(es) && InOrder(v)
    ensures ValuesInOrder(InsertByKey(k, v, es))
  {
    hide CodeUnitLess, InOrder;
    if es.Entry? { InsertKeepsValues(k, v, es.rest); }
  }

  lemma {:induction false} NothingBelow(es: Entries)
    ensures NamesBelowAll(End, es)
  {
    if es.Entry? { NothingBelow(es.rest); }
  }

  /** The objects of a canonical form list their indices first, in numeric order, and then the other names by code units. */
  lemma {:induction false} CanonicalIsInOrder(j: Json)
    requires WellFormed(j)
    ensures InOrder(Canonicalize(j))
  {
    match j
    case Arr(items) => CanonicalItemsInOrder(items);
    case Obj(es) =>
      SortedEntriesOf(es);
      SortedValuesInOrder(es);
      NothingBelow(SortedEntries(es));
      EndIsEmpty();
      AssignAllInOrder(End, SortedEntries(es));
      AssignAllKeepsValues(End, SortedEntries(es));
    case _ =>
  }

  lemma {:induction false} CanonicalItemsInOrder(items: Items)
    requires WellFormedItems(items)
    ensures ItemsInOrder(CanonicalItems(items))
  {
    if items.Item? {
      CanonicalIsInOrder(items.head);
      CanonicalItemsInOrder(items.tail);
    }
  }

  lemma {:induction false} SortedValuesInOrder(es: Entries)
    requires WellFormedEntries(es)
    ensures ValuesInOrder(SortedEntries(es))
  {
    if es.Entry? {
      SortedValuesInOrder(es.rest);
      CanonicalIsInOrder(es.value);
      InsertKeepsValues(es.key, Canonicalize(es.value), SortedEntries(es.rest));
    }
  }

  /** Canonicalizing keeps the meaning, up to properties named `__proto__`. */
  lemma {:induction false} CanonicalMeans(j: Json)
    requires WellFormed(j)
    ensures Meaning(Canonicalize(j), false) == Meaning(j, false)
  {
    match j
    case Arr(items) => CanonicalItemsMean(items);
    case Obj(es) =>
      CanonicalEntriesMean(es);
      CanonicalFields(es);
    case _ =>
  }

  lemma {:induction false} CanonicalItemsMean(items: Items)
    requires WellFormedItems(items)
    ensures ItemMeanings(CanonicalItems(items), false) == ItemMeanings(items, false)
  {
    if items.Item? {
      CanonicalMeans(items.head);
      CanonicalItemsMean(items.tail);
    }
  }

  lemma {:induction false} CanonicalEntriesMean(es: Entries)
    requires WellFormedEntries(es)
    ensures forall k :: k in MapOf(es) ==> Meaning(Canonicalize(MapOf(es)[k]), false) == Meaning(MapOf(es)[k], false)
  {
    if es.Entry? {
      hide Meaning, Canonicalize;
      CanonicalMeans(es.value);
      CanonicalEntriesMean(es.rest);
    }
  }

  lemma CanonicalFields(es: Entries)
    requires WellFormedEntries(es)
    requires forall k :: k in MapOf(es) ==> Meaning(Canonicalize(MapOf(es)[k]), false) == Meaning(MapOf(es)[k], false)
    ensures Fields(Canonicalize(Obj(es)).entries, false) == Fields(es, false)
  {
    var c := Canonicalize(Obj(es)).entries;
    assert WellFormedEntries(c) by { CanonicalIsWellFormed(Obj(es)); }
    CanonicalProperties(es);
    hide Meaning, Canonicalize, IsProto, WellFormedEntries, Fields, MapOf;
    forall k ensures (k in Fields(c, false) <==> k in Fields(es, false))
                     && (k in Fields(c, false) ==> Fields(c, false)[k] == Fields(es, false)[k])
    {
      FieldsOfMap(c, false, k);
      FieldsOfMap(es, false, k);
    }
  }

  /** Values that mean the same have one canonical form. */
  lemma {:induction false} OneCanonicalForm(x: Json, y: Json)
    requires WellFormed(x) && WellFormed(y) && Meaning(x, false) == Meaning(y, false)
    ensures Canonicalize(x) == Canonicalize(y)
    decreases x
  {
    match x
    case Arr(items) => OneCanonicalItems(items, y.items);
    case Obj(es) =>
      SameFields(es, y.entries);
      OneCanonicalEntries(es, MapOf(y.entries));
      SameSortedEntries(es, y.entries);
    case _ =>
  }

  lemma {:induction false} OneCanonicalItems(a: Items, b: Items)
    requires WellFormedItems(a) && WellFormedItems(b) && ItemMeanings(a, false) == ItemMeanings(b, false)
    ensures CanonicalItems(a) == CanonicalItems(b)
    decreases a
  {
    hide Meaning, Canonicalize, WellFormed;
    if a.Item? {
      assert ItemMeanings(a, false)[0] == ItemMeanings(b, false)[0];
      assert ItemMeanings(a, false)[1..] == ItemMeanings(a.tail, false);
      assert ItemMeanings(b, false)[1..] == ItemMeanings(b.tail, false);
      OneCanonicalForm(a.head, b.head);
      OneCanonicalItems(a.tail, b.tail);
    }
  }

  /** Same fields, as maps of entries: the same keys, and values that mean the same. */
  lemma SameFields(es: Entries, fs: Entries)
    requires WellFormedEntries(es) && WellFormedEntries(fs) && Fields(es, false) == Fields(fs, false)
    ensures forall k :: (k in MapOf(es) && !IsProto(k)) <==> (k in MapOf(fs) && !IsProto(k))
    ensures forall k :: k in MapOf(es) && !IsProto(k) ==>
              WellFormed(MapOf(fs)[k]) && Meaning(MapOf(es)[k], false) == Meaning(MapOf(fs)[k], false)
  {
    hide Meaning, IsProto, WellFormedEntries, WellFormed, Fields, MapOf;
    forall k ensures (k in MapOf(es) && !IsProto(k)) <==> (k in MapOf(fs) && !IsProto(k)) {
      FieldsOfMap(es, false, k);
      FieldsOfMap(fs, false, k);
    }
    forall k | k in MapOf(es) && !IsProto(k)
      ensures WellFormed(MapOf(fs)[k]) && Meaning(MapOf(es)[k], false) == Meaning(MapOf(fs)[k], false)
    {
      FieldsOfMap(es, false, k);
      FieldsOfMap(fs, false, k);
      WellFormedValues(fs, k);
    }
  }

  lemma {:induction false} OneCanonicalEntries(es: Entries, other: map<string, Json>)
    requires WellFormedEntries(es)
    requires forall k :: k in MapOf(es) && !IsProto(k) ==>
               k in other && WellFormed(other[k]) && Meaning(MapOf(es)[k], false) == Meaning(other[k], false)
    ensures forall k :: k in MapOf(es) && !IsProto(k) ==> Canonicalize(MapOf(es)[k]) == Canonicalize(other[k])
    decreases es
  {
    hide Meaning, Canonicalize, IsProto, WellFormed;
    if es.Entry? {
      assert forall k :: k in MapOf(es.rest) ==> k in MapOf(es) && MapOf(es)[k] == MapOf(es.rest)[k];
      OneCanonicalEntries(es.rest, other);
      assert MapOf(es)[es.key] == es.value;
      if !IsProto(es.key) { OneCanonicalForm(es.value, other[es.key]); }
    }
  }

  lemma SameSortedEntries(es: Entries, fs: Entries)
    requires WellFormedEntries(es) && WellFormedEntries(fs)
    requires forall k :: (k in MapOf(es) && !IsProto(k)) <==> (k in MapOf(fs) && !IsProto(k))
    requires forall k :: k in MapOf(es) && !IsProto(k) ==> Canonicalize(MapOf(es)[k]) == Canonicalize(MapOf(fs)[k])
    ensures AssignAll(End, SortedEntries(es)) == AssignAll(End, SortedEntries(fs))
  {
    hide Canonicalize, IsProto, WellFormedEntries, AssignAll, MapOf, SortedEntries, Sorted, WithoutProto;
    var a, b := SortedEntries(es), SortedEntries(fs);
    SortedEntriesOf(es);
    SortedEntriesOf(fs);
    WithoutProtoSorted(a);
    WithoutProtoSorted(b);
    assert MapOf(WithoutProto(a)) == MapOf(WithoutProto(b));
    SortedUnique(WithoutProto(a), WithoutProto(b));
    AssignAllSkipsProto(End, a);
    AssignAllSkipsProto(End, b);
  }

  /**
   * Two bodies have one canonical form exactly when they mean the same: equal up to the order of object keys,
   * at every depth and with arrays in order, and up to properties named `__proto__`.
   */
  lemma CanonicalFormsAgreeIff(x: Json, y: Json)
    requires WellFormed(x) && WellFormed(y)
    ensures Canonicalize(x) == Canonicalize(y) <==> Meaning(x, false) == Meaning(y, false)
  {
    hide Canonicalize, Meaning, WellFormed;
    CanonicalMeans(x);
    CanonicalMeans(y);
    if Meaning(x, false) == Meaning(y, false) { OneCanonicalForm(x, y); }
  }

  lemma CanonicalizeIsIdempotent(x: Json)
    requires WellFormed(x)
    ensures Canonicalize(Canonicalize(x)) == Canonicalize(x)
  {
    hide Canonicalize, Meaning, WellFormed;
    CanonicalIsWellFormed(x);
    CanonicalMeans(x);
    OneCanonicalForm(Canonicalize(x), x);
  }

  // ----- what is lost -----

  /** No object, at any depth, has a property of its own named `__proto__`. */
  predicate ProtoFree(j: Json) {
    match j
    case Arr(items) => ProtoFreeItems(items)
    case Obj(es) => ProtoFreeEntries(es)
    case _ => true
  }

  predicate ProtoFreeItems(items: Items) {
    items.Item? ==> ProtoFree(items.head) && ProtoFreeItems(items.tail)
  }

  predicate ProtoFreeEntries(es: Entries) {
    es.Entry? ==> !IsProto(es.key) && ProtoFree(es.value) && ProtoFreeEntries(es.rest)
  }

  lemma {:induction false} ProtoFreeIff(j: Json)
    requires WellFormed(j)
    ensures ProtoFree(j) <==> Meaning(j, true) == Meaning(j, false)
  {
    match j
    case Arr(items) => ProtoFreeItemsIff(items);
    case Obj(es) => ProtoFreeEntriesIff(es);
    case _ =>
  }

  lemma {:induction false} ProtoFreeItemsIff(items: Items)
    requires WellFormedItems(items)
    ensures ProtoFreeItems(items) <==> ItemMeanings(items, true) == ItemMeanings(items, false)
  {
    if items.Item? {
      hide Meaning, ProtoFree, WellFormed;
      ProtoFreeIff(items.head);
      ProtoFreeItemsIff(items.tail);
      var a, b := ItemMeanings(items, true), ItemMeanings(items, false);
      assert a[0] == Meaning(items.head, true) && b[0] == Meaning(items.head, false);
      assert a[1..] == ItemMeanings(items.tail, true) && b[1..] == ItemMeanings(items.tail, false);
    }
  }

  lemma {:induction false} ProtoFreeEntriesIff(es: Entries)
    requires WellFormedEntries(es)
    ensures ProtoFreeEntries(es) <==> Fields(es, true) == Fields(es, false)
  {
    if es.Entry? {
      hide Meaning, ProtoFree, WellFormed, IsProto;
      ProtoFreeIff(es.value);
      ProtoFreeEntriesIff(es.rest);
      FieldsOfMap(es, true, es.key);
      FieldsOfMap(es, false, es.key);
      FieldsOfMap(es.rest, true, es.key);
      FieldsOfMap(es.rest, false, es.key);
      if !IsProto(es.key) {
        assert Fields(es.rest, true) == Fields(es, true) - {es.key};
        assert Fields(es.rest, false) == Fields(es, false) - {es.key};
      }
    }
  }

  lemma {:induction false} AssignedIsProtoFree(o: Entries, es: Entries)
    requires ProtoFreeEntries(o)
    requires forall k :: k in MapOf(es) && !IsProto(k) ==> ProtoFree(MapOf(es)[k])
    requires WellFormedEntries(es)
    ensures ProtoFreeEntries(AssignAll(o, es))
    decreases es
  {
    hide IsProto, ProtoFree, WellFormed;
    if es.Entry? {
      assert forall k :: k in MapOf(es.rest) ==> k in MapOf(es) && MapOf(es)[k] == MapOf(es.rest)[k];
      assert MapOf(es)[es.key] == es.value;
      if !IsProto(es.key) { AddedIsProtoFree(o, es.key, es.value); }
      AssignedIsProtoFree(Assign(o, es.key, es.value), es.rest);
    }
  }

  lemma {:induction false} AddedIsProtoFree(o: Entries, k: string, v: Json)
    requires ProtoFreeEntries(o) && !IsProto(k) && ProtoFree(v)
    ensures ProtoFreeEntries(AddProperty(o, k, v))
  {
    hide IsIndex, NatOf, IsProto, ProtoFree;
    if o.Entry? { AddedIsProtoFree(o.rest, k, v); }
  }

  lemma {:induction false} CanonicalIsProtoFree(j: Json)
    requires WellFormed(j)
    ensures ProtoFree(Canonicalize(j))
  {
    match j
    case Arr(items) => CanonicalItemsProtoFree(items);
    case Obj(es) =>
      CanonicalEntriesProtoFree(es);
      SortedEntriesOf(es);
      AssignedIsProtoFree(End, SortedEntries(es));
    case _ =>
  }

  lemma {:induction false} CanonicalItemsProtoFree(items: Items)
    requires WellFormedItems(items)
    ensures ProtoFreeItems(CanonicalItems(items))
  {
    if items.Item? {
      CanonicalIsProtoFree(items.head);
      CanonicalItemsProtoFree(items.tail);
    }
  }

  lemma {:induction false} CanonicalEntriesProtoFree(es: Entries)
    requires WellFormedEntries(es)
    ensures forall k :: k in MapOf(es) ==> ProtoFree(Canonicalize(MapOf(es)[k]))
  {
    if es.Entry? {
      hide Canonicalize, ProtoFree;
      CanonicalIsProtoFree(es.value);
      CanonicalEntriesProtoFree(es.rest);
    }
  }

  /** The canonical form means exactly what the body does if and only if the body has no `__proto__` of its own. */
  lemma CanonicalKeepsMeaningIff(x: Json)
    requires WellFormed(x)
    ensures Meaning(Canonicalize(x), true) == Meaning(x, true) <==> ProtoFree(x)
  {
    hide Canonicalize, Meaning, WellFormed, ProtoFree;
    CanonicalIsWellFormed(x);
    CanonicalMeans(x);
    CanonicalIsProtoFree(x);
    ProtoFreeIff(x);
    ProtoFreeIff(Canonicalize(x));
    if Meaning(Canonicalize(x), true) == Meaning(x, true) {
      assert Meaning(Canonicalize(x), false) == Meaning(x, true);
    }
  }

  /**
   * Bodies as the HTTP layer lets them through, without `__proto__`: one canonical form exactly when they are
   * equal up to the order of object keys, at every depth and with arrays in order.
   */
  lemma ArrivingFormsAgreeIff(x: Json, y: Json)
    requires WellFormed(x) && WellFormed(y) && ProtoFree(x) && ProtoFree(y)
    ensures Canonicalize(x) == Canonicalize(y) <==> Meaning(x, true) == Meaning(y, true)
  {
    hide Canonicalize, Meaning, WellFormed, ProtoFree;
    CanonicalFormsAgreeIff(x, y);
    ProtoFreeIff(x);
    ProtoFreeIff(y);
  }

  /** Of the bare function: a value and the same value with a `__proto__` added have one canonical form. */
  lemma ProtoIsInvisible(es: Entries, v: Json)
    requires WellFormedEntries(es) && WellFormed(v) && "__proto__" !in MapOf(es)
    ensures Canonicalize(Obj(Entry("__proto__", v, es))) == Canonicalize(Obj(es))
  {
    OneCanonicalForm(Obj(Entry("__proto__", v, es)), Obj(es));
  }
}
