/** Reading an anchor. */
module AnchorSchemas {
  // Reading an anchor's `GET /transaction` response: parse, drop the optional fields that are malformed, parse again
  // (src/services/anchor-schemas.ts). What makes a single field's value valid is a parameter.

  import opened Basics
  import opened AnchorStatus
  import opened Text

  /** A JSON value, as far as the envelope is concerned: `Other` is an array, a string, a number or a boolean. */
  datatype Json = Null | Object(fields: map<string, Json>) | Other(text: string)

  type Path = seq<string>

  /** The schema of each field: where in a value the problems are, none when it is valid, and what it parses to. */
  datatype Validators = Validators(issues: (string, Json) -> seq<Path>, output: (string, Json) -> Json)

  // ----- the schema -----

  const REQUIRED := ["id", "kind", "status"]
  const SHAPE := REQUIRED + [
    "status_eta", "more_info_url", "amount_in", "amount_in_asset", "amount_out", "amount_out_asset", "amount_fee",
    "amount_fee_asset", "started_at", "updated_at", "completed_at", "stellar_transaction_id",
    "external_transaction_id", "message", "refunded", "refunds"]

  predicate IsRequired(field: string) {
    field in REQUIRED
  }

  predicate InShape(field: string) {
    field in SHAPE
  }

  predicate IsOptional(field: string) {
    InShape(field) && !IsRequired(field)
  }

  /** Problems with one field: a required one must be there, an optional one may be absent or null. */
  function FieldIssues(v: Validators, tx: map<string, Json>, field: string): seq<Path> {
    if field !in tx then (if IsRequired(field) then [[]] else [])
    else if tx[field].Null? && !IsRequired(field) then []
    else v.issues(field, tx[field])
  }

  predicate FieldValid(v: Validators, tx: map<string, Json>, field: string) {
    FieldIssues(v, tx, field) == []
  }

  function Parsed(v: Validators, field: string, value: Json): Json {
    if value.Null? && !IsRequired(field) then Null else v.output(field, value)
  }

  function Under(prefix: Path, paths: seq<Path>): seq<Path> {
    if paths == [] then [] else [prefix + paths[0]] + Under(prefix, paths[1..])
  }

  function TransactionIssues(v: Validators, tx: map<string, Json>, shape: seq<string>): seq<Path> {
    if shape == [] then []
    else Under(["transaction", shape[0]], FieldIssues(v, tx, shape[0])) + TransactionIssues(v, tx, shape[1..])
  }

  datatype Safe = Data(transaction: map<string, Json>) | Issues(paths: seq<Path>)

  /** `sep24TransactionResponseSchema.safeParse`: unknown fields are stripped. */
  function SafeParse(v: Validators, body: Json): Safe {
    if !body.Object? then Issues([[]])
    else if "transaction" !in body.fields || !body.fields["transaction"].Object? then Issues([["transaction"]])
    else
      var tx := body.fields["transaction"].fields;
      var issues := TransactionIssues(v, tx, SHAPE);
      if issues == [] then Data(map f | f in tx && InShape(f) :: Parsed(v, f, tx[f])) else Issues(issues)
  }

  // ----- dropping -----

  function OptionalFieldOf(path: Path): Option<string> {
    if |path| < 2 || path[0] != "transaction" then None
    else if IsOptional(path[1]) then Some(path[1])
    else None
  }

  function DroppedBy(path: Path): seq<string> {
    match OptionalFieldOf(path)
    case Some(field) => [field]
    case None => []
  }

  /** The non-null results of `issues.map(optionalFieldOf)`. */
  function Dropped(paths: seq<Path>): seq<string> {
    if paths == [] then [] else DroppedBy(paths[0]) + Dropped(paths[1..])
  }

  /** `[...new Set(s)]`: every element once, where it first stood. */
  function Unique<T(==)>(s: seq<T>): seq<T> {
    if s == [] then []
    else
      var front := Unique(s[..|s| - 1]);
      if s[|s| - 1] in front then front else front + [s[|s| - 1]]
  }

  datatype Result =
    | Success(transaction: map<string, Json>, droppedFields: seq<Path>)
    | Failure(fields: seq<Path>)

  /** The envelope is an object with a `transaction` object whose required fields are valid. */
  ghost predicate Readable(v: Validators, body: Json) {
    && body.Object? && "transaction" in body.fields && body.fields["transaction"].Object?
    && forall f :: IsRequired(f) ==> FieldValid(v, body.fields["transaction"].fields, f)
  }

  function MalformedOne(v: Validators, tx: map<string, Json>, field: string): seq<string> {
    if IsOptional(field) && !FieldValid(v, tx, field) then [field] else []
  }

  /** The optional fields that are there and malformed, in schema order. */
  function Malformed(v: Validators, tx: map<string, Json>, shape: seq<string>): seq<string> {
    if shape == [] then []
    else MalformedOne(v, tx, shape[0]) + Malformed(v, tx, shape[1..])
  }

  /** A transaction read field by field: every valid field parsed, everything else left out. */
  function ValidFields(v: Validators, tx: map<string, Json>): map<string, Json> {
    map f | f in tx && InShape(f) && FieldValid(v, tx, f) :: Parsed(v, f, tx[f])
  }

  // ----- issues and fields -----

  lemma {:induction false} UnderPrefix(field: string, paths: seq<Path>)
    ensures |Under(["transaction", field], paths)| == |paths|
    ensures forall p :: p in Under(["transaction", field], paths) ==> |p| >= 2 && p[0] == "transaction" && p[1] == field
  {
    if paths != [] { UnderPrefix(field, paths[1..]); }
  }

  lemma HeadAndTail<T>(a: seq<T>, b: seq<T>)
    requires a != []
    ensures a == [a[0]] + a[1..] && a + b == [a[0]] + (a[1..] + b)
  {
  }

  lemma DroppedCons(path: Path, rest: seq<Path>)
    ensures Dropped([path] + rest) == DroppedBy(path) + Dropped(rest)
  {
    assert ([path] + rest)[1..] == rest;
  }

  lemma {:induction false} DroppedConcat(a: seq<Path>, b: seq<Path>)
    ensures Dropped(a + b) == Dropped(a) + Dropped(b)
  {
    if a == [] {
      assert a + b == b;
    } else {
      hide Dropped, DroppedBy;
      DroppedConcat(a[1..], b);
      HeadAndTail(a, b);
      DroppedCons(a[0], a[1..]);
      DroppedCons(a[0], a[1..] + b);
      Associative(DroppedBy(a[0]), Dropped(a[1..]), Dropped(b));
    }
  }

  lemma {:induction false} DroppedOfField(field: string, paths: seq<Path>)
    requires forall p :: p in paths ==> |p| >= 2 && p[0] == "transaction" && p[1] == field
    ensures |Dropped(paths)| == if IsOptional(field) then |paths| else 0
    ensures forall f :: f in Dropped(paths) ==> f == field
  {
    hide IsOptional;
    if paths != [] { DroppedOfField(field, paths[1..]); }
  }

  lemma {:induction false} DroppedIsShorter(paths: seq<Path>)
    ensures |Dropped(paths)| <= |paths|
  {
    if paths != [] { DroppedIsShorter(paths[1..]); }
  }

  /** What the issues of a transaction say about its fields. */
  lemma {:induction false} IssuesTellFields(v: Validators, tx: map<string, Json>, shape: seq<string>)
    requires forall f :: f in shape ==> InShape(f)
    ensures TransactionIssues(v, tx, shape) == [] <==> forall f :: f in shape ==> FieldValid(v, tx, f)
    ensures |Dropped(TransactionIssues(v, tx, shape))| == |TransactionIssues(v, tx, shape)|
       <==> forall f :: f in shape && IsRequired(f) ==> FieldValid(v, tx, f)
  {
    hide FieldIssues, Under, Dropped, InShape, IsRequired;
    if shape == [] {
      assert Dropped([]) == [] by { DroppedIsShorter([]); }
    } else {
      var field, rest := shape[0], TransactionIssues(v, tx, shape[1..]);
      var head := Under(["transaction", field], FieldIssues(v, tx, field));
      IssuesTellFields(v, tx, shape[1..]);
      UnderPrefix(field, FieldIssues(v, tx, field));
      DroppedOfField(field, head);
      DroppedConcat(head, rest);
      DroppedIsShorter(rest);
      assert head == [] <==> FieldValid(v, tx, field);
      assert TransactionIssues(v, tx, shape) == head + rest;
      hide TransactionIssues, FieldValid, IsOptional;
      assert forall f :: f in shape <==> f == field || f in shape[1..];
    }
  }

  lemma {:induction false} UniqueElements<T>(s: seq<T>)
    ensures forall x :: x in Unique(s) <==> x in s
  {
    if s != [] {
      var front, last := s[..|s| - 1], s[|s| - 1];
      UniqueElements(front);
      assert Unique(s) == if last in Unique(front) then Unique(front) else Unique(front) + [last];
      assert s == front + [last];
      hide Unique;
      assert forall x :: x in s <==> x in front || x == last;
    }
  }

  lemma {:induction false} UniqueIsDistinct<T>(s: seq<T>)
    ensures Distinct(Unique(s))
  {
    if s != [] {
      UniqueIsDistinct(s[..|s| - 1]);
    }
  }

  lemma UniqueAppend<T>(s: seq<T>, x: T)
    ensures Unique(s + [x]) == if x in s then Unique(s) else Unique(s) + [x]
  {
    assert (s + [x])[..|s|] == s;
    UniqueElements(s);
  }

  lemma {:induction false} UniqueAppendSame<T>(s: seq<T>, x: T, same: seq<T>)
    requires same != [] && forall i :: 0 <= i < |same| ==> same[i] == x
    ensures Unique(s + same) == if x in s then Unique(s) else Unique(s) + [x]
  {
    hide Unique;
    var n := |same| - 1;
    assert s + same == (s + same[..n]) + [x];
    UniqueAppend(s + same[..n], x);
    if n > 0 {
      UniqueAppendSame(s, x, same[..n]);
      assert (s + same[..n])[|s|] == x;
    } else {
      assert s + same[..n] == s;
    }
  }

  lemma {:induction false} MalformedIn(v: Validators, tx: map<string, Json>, shape: seq<string>)
    ensures forall f :: f in Malformed(v, tx, shape) <==> f in shape && IsOptional(f) && !FieldValid(v, tx, f)
  {
    if shape != [] { MalformedIn(v, tx, shape[1..]); }
  }

  lemma {:induction false} MalformedConcat(v: Validators, tx: map<string, Json>, a: seq<string>, b: seq<string>)
    ensures Malformed(v, tx, a + b) == Malformed(v, tx, a) + Malformed(v, tx, b)
  {
    hide MalformedOne;
    if a == [] {
      assert a + b == b;
    } else {
      MalformedConcat(v, tx, a[1..], b);
      assert (a + b)[1..] == a[1..] + b;
    }
  }

  lemma {:induction false} IssuesConcat(v: Validators, tx: map<string, Json>, a: seq<string>, b: seq<string>)
    ensures TransactionIssues(v, tx, a + b) == TransactionIssues(v, tx, a) + TransactionIssues(v, tx, b)
  {
    hide FieldIssues, Under;
    if a == [] {
      assert a + b == b;
    } else {
      IssuesConcat(v, tx, a[1..], b);
      assert (a + b)[1..] == a[1..] + b;
    }
  }

  /** One more field adds itself to the dropped ones, once, if it is optional and malformed. */
  lemma DropOneMore(v: Validators, tx: map<string, Json>, fields: seq<string>, field: string)
    requires field !in fields
    ensures var more := Dropped(Under(["transaction", field], FieldIssues(v, tx, field)));
            Unique(fields + more) == Unique(fields) + MalformedOne(v, tx, field)
  {
    hide FieldIssues, Dropped, Under, Unique, IsOptional;
    var paths := Under(["transaction", field], FieldIssues(v, tx, field));
    UnderPrefix(field, FieldIssues(v, tx, field));
    DroppedOfField(field, paths);
    var more := Dropped(paths);
    if more != [] {
      forall i | 0 <= i < |more| ensures more[i] == field { assert more[i] in more; }
      UniqueAppendSame(fields, field, more);
    } else {
      assert fields + more == fields;
    }
  }

  lemma IssuesOfOne(v: Validators, tx: map<string, Json>, field: string)
    ensures TransactionIssues(v, tx, [field]) == Under(["transaction", field], FieldIssues(v, tx, field))
    ensures Malformed(v, tx, [field]) == MalformedOne(v, tx, field)
  {
  }

  /** The deduplicated dropped fields are the malformed optional ones, in schema order. */
  lemma {:induction false} DroppedAreMalformed(v: Validators, tx: map<string, Json>, shape: seq<string>)
    requires Distinct(shape)
    ensures Unique(Dropped(TransactionIssues(v, tx, shape))) == Malformed(v, tx, shape)
  {
    if shape != [] {
      hide FieldIssues, Under, Dropped, Unique, TransactionIssues, Malformed, MalformedOne, FieldValid, IsOptional;
      var n := |shape| - 1;
      var front, field := shape[..n], shape[n];
      var fields := Dropped(TransactionIssues(v, tx, front));
      DroppedAreMalformed(v, tx, front);
      assert shape == front + [field];
      IssuesConcat(v, tx, front, [field]);
      MalformedConcat(v, tx, front, [field]);
      IssuesOfOne(v, tx, field);
      DroppedConcat(TransactionIssues(v, tx, front), TransactionIssues(v, tx, [field]));
      MalformedIn(v, tx, front);
      UniqueElements(fields);
      DropOneMore(v, tx, fields, field);
    }
  }

  lemma ShapeIsDistinct()
    ensures Distinct(SHAPE)
  {
  }

  /** The issues of the first parse. */
  function FirstIssues(v: Validators, body: Json): seq<Path> {
    match SafeParse(v, body)
    case Data(_) => []
    case Issues(paths) => paths
  }

  ghost function TransactionOf(v: Validators, body: Json): map<string, Json>
    requires Readable(v, body)
  {
    body.fields["transaction"].fields
  }

  lemma RequiredAreInShape(field: string)
    requires IsRequired(field)
    ensures InShape(field)
  {
    var i :| 0 <= i < |REQUIRED| && REQUIRED[i] == field;
    assert SHAPE[i] == field;
  }

  lemma RequiredInShape(v: Validators, tx: map<string, Json>)
    ensures (forall f :: f in SHAPE && IsRequired(f) ==> FieldValid(v, tx, f)) <==> (forall f :: IsRequired(f) ==> FieldValid(v, tx, f))
  {
    hide FieldValid;
    forall f | IsRequired(f) ensures f in SHAPE { RequiredAreInShape(f); }
  }

  /** Every issue is on an optional field exactly when the response is readable. */
  lemma AllDroppedIff(v: Validators, body: Json)
    ensures |Dropped(FirstIssues(v, body))| == |FirstIssues(v, body)| <==> Readable(v, body)
  {
    if body.Object? && "transaction" in body.fields && body.fields["transaction"].Object? {
      var tx := body.fields["transaction"].fields;
      IssuesTellFields(v, tx, SHAPE);
      RequiredInShape(v, tx);
      assert FirstIssues(v, body) == TransactionIssues(v, tx, SHAPE);
    }
  }

  /** Once the malformed optional fields are gone nothing is left to complain about. */
  lemma SecondParseSucceeds(v: Validators, tx: map<string, Json>, gone: set<string>)
    requires forall f :: IsRequired(f) ==> FieldValid(v, tx, f)
    requires forall f :: f in gone <==> IsOptional(f) && !FieldValid(v, tx, f)
    ensures SafeParse(v, Object(map["transaction" := Object(tx - gone)])) == Data(ValidFields(v, tx))
  {
    var left := tx - gone;
    forall f | InShape(f) ensures FieldValid(v, left, f) && (f in left <==> f in tx && FieldValid(v, tx, f)) {
      StillValid(v, tx, gone, f);
    }
    IssuesTellFields(v, left, SHAPE);
    hide FieldValid, TransactionIssues, IsRequired, IsOptional, Parsed;
    ReadsTheSame(v, tx, left);
    hide InShape, ValidFields;
  }

  lemma ReadsTheSame(v: Validators, tx: map<string, Json>, left: map<string, Json>)
    requires left.Keys <= tx.Keys && forall f :: f in left ==> left[f] == tx[f]
    requires forall f :: InShape(f) ==> (f in left <==> f in tx && FieldValid(v, tx, f))
    ensures (map f | f in left && InShape(f) :: Parsed(v, f, left[f])) == ValidFields(v, tx)
  {
    hide InShape, FieldValid, Parsed;
  }

  lemma StillValid(v: Validators, tx: map<string, Json>, gone: set<string>, f: string)
    requires IsRequired(f) ==> FieldValid(v, tx, f)
    requires f in gone <==> IsOptional(f) && !FieldValid(v, tx, f)
    requires InShape(f)
    ensures FieldValid(v, tx - gone, f) && (f in tx - gone <==> f in tx && FieldValid(v, tx, f))
  {
    hide IsRequired, InShape;
  }

  /** The fields dropped after a first parse with issues, and the second parse without them. */
  lemma DropAndReparse(v: Validators, body: Json)
    requires Readable(v, body) && SafeParse(v, body).Issues?
    ensures var tx := TransactionOf(v, body);
            var gone := Unique(Dropped(SafeParse(v, body).paths));
            && gone == Malformed(v, tx, SHAPE)
            && SafeParse(v, Object(map["transaction" := Object(tx - (set f | f in gone))])) == Data(ValidFields(v, tx))
  {
    var tx := TransactionOf(v, body);
    assert SafeParse(v, body).paths == TransactionIssues(v, tx, SHAPE);
    hide SafeParse, FieldIssues, Dropped, Unique, TransactionIssues, Malformed, FieldValid, InShape, IsOptional, IsRequired;
    ShapeIsDistinct();
    DroppedAreMalformed(v, tx, SHAPE);
    MalformedIn(v, tx, SHAPE);
    var gone := set f | f in Malformed(v, tx, SHAPE);
    forall f ensures f in gone <==> IsOptional(f) && !FieldValid(v, tx, f) {
      OptionalAreInShape(f);
    }
    SecondParseSucceeds(v, tx, gone);
  }

  lemma OptionalAreInShape(f: string)
    ensures IsOptional(f) ==> f in SHAPE
  {
  }

  function DottedAll(fields: seq<string>): (paths: seq<Path>)
    ensures |paths| == |fields| && forall i :: 0 <= i < |paths| ==> paths[i] == ["transaction", fields[i]]
  {
    if fields == [] then [] else [["transaction", fields[0]]] + DottedAll(fields[1..])
  }

  /** The first parse complains of the body, of its transaction, or of fields: then of each one's own problems, under its name. */
  lemma IssuesNameFields(v: Validators, body: Json)
    ensures !body.Object? ==> FirstIssues(v, body) == [[]]
    ensures body.Object? && ("transaction" !in body.fields || !body.fields["transaction"].Object?) ==>
      FirstIssues(v, body) == [["transaction"]]
    ensures body.Object? && "transaction" in body.fields && body.fields["transaction"].Object? ==>
      var tx := body.fields["transaction"].fields;
      forall p :: p in FirstIssues(v, body) <==>
        exists f, q :: InShape(f) && p == ["transaction", f] + q && q in FieldIssues(v, tx, f)
  {
    if body.Object? && "transaction" in body.fields && body.fields["transaction"].Object? {
      var tx := body.fields["transaction"].fields;
      assert FirstIssues(v, body) == TransactionIssues(v, tx, SHAPE);
      hide FirstIssues, TransactionIssues, FieldIssues;
      forall p ensures p in TransactionIssues(v, tx, SHAPE) <==>
        exists f, q :: InShape(f) && p == ["transaction", f] + q && q in FieldIssues(v, tx, f)
      {
        IssueOfField(v, tx, SHAPE, p);
      }
    }
  }

  lemma {:induction false} IssueOfField(v: Validators, tx: map<string, Json>, shape: seq<string>, p: Path)
    ensures p in TransactionIssues(v, tx, shape) <==>
      exists f, q :: f in shape && p == ["transaction", f] + q && q in FieldIssues(v, tx, f)
  {
    hide FieldIssues, Under;
    if shape != [] {
      var field := shape[0];
      IssueOfField(v, tx, shape[1..], p);
      UnderElements(["transaction", field], FieldIssues(v, tx, field), p);
      assert forall f :: f in shape <==> f == field || f in shape[1..];
    }
  }

  lemma {:induction false} UnderElements(prefix: Path, paths: seq<Path>, p: Path)
    ensures p in Under(prefix, paths) <==> exists q :: q in paths && p == prefix + q
  {
    if paths != [] {
      UnderElements(prefix, paths[1..], p);
      assert forall q :: q in paths <==> q == paths[0] || q in paths[1..];
    }
  }

  /**
   * `parseSep24TransactionResponse`. It succeeds exactly when the envelope and the required fields are
   * valid; the transaction it returns is then the response read field by field with precisely the malformed
   * optional fields left out, and those are reported in schema order. A failure reports every issue of the
   * first parse: the second never fails.
   */
  method ParseSep24TransactionResponse(v: Validators, body: Json) returns (result: Result)
    ensures result.Success? <==> Readable(v, body)
    ensures result.Success? ==>
      && result.transaction == ValidFields(v, TransactionOf(v, body))
      && |result.droppedFields| == |Malformed(v, TransactionOf(v, body), SHAPE)|
      && forall i :: 0 <= i < |result.droppedFields| ==>
           result.droppedFields[i] == ["transaction", Malformed(v, TransactionOf(v, body), SHAPE)[i]]
    ensures result.Failure? ==>
      && result.fields == Unique(FirstIssues(v, body))
      && Distinct(result.fields) && forall p :: p in result.fields <==> p in FirstIssues(v, body)
  {
    hide SafeParse, FieldIssues, Dropped, Unique, TransactionIssues, Malformed, ValidFields, DottedAll, FieldValid;
    var first := SafeParse(v, body);
    AllDroppedIff(v, body);
    if first.Data? {
      NothingDropped(v, body);
      return Success(first.transaction, []);
    }
    var dropped := Dropped(first.paths);
    if |dropped| != |first.paths| {
      UniqueElements(first.paths);
      UniqueIsDistinct(first.paths);
      return Failure(Unique(first.paths));
    }
    var droppedFields := Unique(dropped);
    var transaction := body.fields["transaction"].fields;
    var i := 0;
    while i < |droppedFields|
      invariant 0 <= i <= |droppedFields|
      invariant transaction == TransactionOf(v, body) - (set f | f in droppedFields[..i])
    {
      transaction := transaction - {droppedFields[i]};
      i := i + 1;
    }
    assert droppedFields[..i] == droppedFields;
    DropAndReparse(v, body);
    var second := SafeParse(v, Object(map["transaction" := Object(transaction)]));
    result := match second
      case Data(read) => Success(read, DottedAll(droppedFields))
      case Issues(paths) => Failure(Unique(paths));
  }

  lemma EmptyOrInhabited(s: seq<string>)
    ensures s == [] || exists f :: f in s
  {
    if s != [] { assert s[0] in s; }
  }

  lemma NoIssues(v: Validators, tx: map<string, Json>)
    requires TransactionIssues(v, tx, SHAPE) == []
    ensures forall f :: InShape(f) || IsRequired(f) ==> FieldValid(v, tx, f)
    ensures Malformed(v, tx, SHAPE) == []
  {
    hide FieldValid, TransactionIssues, Malformed, IsRequired;
    IssuesTellFields(v, tx, SHAPE);
    RequiredInShape(v, tx);
    MalformedIn(v, tx, SHAPE);
    EmptyOrInhabited(Malformed(v, tx, SHAPE));
  }

  /** A response without issues has no malformed fields, so reading it field by field reads all of it. */
  lemma NothingDropped(v: Validators, body: Json)
    requires SafeParse(v, body).Data?
    ensures Readable(v, body) && SafeParse(v, body).transaction == ValidFields(v, TransactionOf(v, body))
    ensures DottedAll(Malformed(v, TransactionOf(v, body), SHAPE)) == []
  {
    hide FieldValid, TransactionIssues, Malformed, IsRequired, InShape, Parsed;
    NoIssues(v, body.fields["transaction"].fields);
  }

  /** The nineteen fields. */
  lemma FieldNames(f: string)
    ensures IsRequired(f) <==> f in {"id", "kind", "status"}
    ensures IsOptional(f) <==> f in {
      "status_eta", "more_info_url", "amount_in", "amount_in_asset", "amount_out", "amount_out_asset",
      "amount_fee", "amount_fee_asset", "started_at", "updated_at", "completed_at",
      "stellar_transaction_id", "external_transaction_id", "message", "refunded", "refunds"}
  {
    OptionalNames(f);
  }

  lemma OptionalNames(f: string)
    ensures InShape(f) <==> IsRequired(f) || f in SHAPE[3..]
    ensures f in SHAPE[3..] ==> !IsRequired(f)
  {
    assert SHAPE == REQUIRED + SHAPE[3..];
    ShapeIsDistinct();
    forall i | 3 <= i < |SHAPE| ensures !IsRequired(SHAPE[i]) {
      assert SHAPE[0] == "id" && SHAPE[1] == "kind" && SHAPE[2] == "status";
    }
  }

  /**
   * Field by field: a field of the response is kept exactly when the schema has it and it is a required one without
   * issues or an optional one that is null or without issues; it is null or what its validator makes of it.
   */
  lemma KeptFields(v: Validators, tx: map<string, Json>, f: string)
    ensures f in ValidFields(v, tx) <==>
      f in tx && (IsRequired(f) || IsOptional(f)) && (v.issues(f, tx[f]) == [] || (IsOptional(f) && tx[f].Null?))
    ensures f in ValidFields(v, tx) ==>
      ValidFields(v, tx)[f] == if tx[f].Null? && IsOptional(f) then Null else v.output(f, tx[f])
  {
    OptionalNames(f);
    hide IsRequired, InShape;
  }

  // ----- statuses -----

  /** What a status resolves to; looking a name up in a plain object can also find what every object inherits. */
  datatype Meaning = Known(name: string) | Inherited(property: string)
  datatype Resolved = Recognized(meaning: Meaning, legacy: bool) | Unrecognized

  /** The inherited properties whose names have no upper-case letter. */
  const INHERITED := {"constructor", "__proto__"}

  /** `isSep24TransactionStatus`, which trims and lower-cases for itself. */
  predicate IsSep24Status(raw: string) {
    raw != "" && ParseStatus(Normalize(raw)).Some?
  }

  /** `LEGACY_STATUS_MAP[normalized]`. */
  function LegacyStatus(normalized: string): Option<Meaning> {
    if normalized == "pending_user_transfer_complete" || normalized == "pending_external" then Some(Known("pending_anchor"))
    else if normalized in INHERITED then Some(Inherited(normalized))
    else None
  }

  function ResolveSep24Status(raw: string): Resolved {
    var normalized := Normalize(raw);
    if IsSep24Status(normalized) then Recognized(Known(normalized), false)
    else
      match LegacyStatus(normalized)
      case Some(meaning) => Recognized(meaning, true)
      case None => Unrecognized
  }

  /** The statuses Mergepay understands, up to case and surrounding space: the current ones, and two deprecated ones. */
  ghost predicate Understood(raw: string, status: Status, legacy: bool) {
    if legacy then status == PendingAnchor && Normalize(raw) in {"pending_user_transfer_complete", "pending_external"}
    else Normalize(raw) == Name(status)
  }

  ghost predicate ResolvesTo(raw: string, status: Status, legacy: bool) {
    ResolveSep24Status(raw) == Recognized(Known(Name(status)), legacy)
  }

  lemma NamedStatus(raw: string, status: Status)
    ensures Normalize(raw) == Name(status) <==> ParseStatus(Normalize(raw)) == Some(status)
    ensures IsSep24Status(Normalize(raw)) <==> ParseStatus(Normalize(raw)).Some?
  {
    NormalizeIsIdempotent(raw);
    ParsesExactlyNames(Normalize(raw), status);
    hide ParseStatus, Name, Normalize;
    assert ParseStatus("") == None by { NotCurrent(""); }
  }

  /**
   * A string resolves to a status exactly when it is understood as that status, and is reported as legacy exactly
   * when its name is a deprecated one. What is not understood resolves to nothing, with two exceptions: the names
   * that the map's own object inherits.
   */
  lemma ResolvesAsUnderstood(raw: string)
    ensures forall status, legacy :: ResolvesTo(raw, status, legacy) <==> Understood(raw, status, legacy)
    ensures (forall status, legacy :: !Understood(raw, status, legacy)) ==>
      ResolveSep24Status(raw) ==
        if Normalize(raw) in {"constructor", "__proto__"} then Recognized(Inherited(Normalize(raw)), true) else Unrecognized
  {
    LegacyNamesAreNotCurrent();
    hide ParseStatus, Name, Normalize, IsSep24Status;
    var normalized := Normalize(raw);
    forall status, legacy ensures ResolvesTo(raw, status, legacy) <==> Understood(raw, status, legacy) {
      ResolvesToIff(raw, status, legacy);
    }
    NamedStatus(raw, PendingAnchor);
    if ParseStatus(normalized).Some? {
      NamedStatus(raw, ParseStatus(normalized).value);
      assert Understood(raw, ParseStatus(normalized).value, false);
    }
    assert normalized in {"pending_user_transfer_complete", "pending_external"} ==> Understood(raw, PendingAnchor, true);
  }

  lemma ResolvesToIff(raw: string, status: Status, legacy: bool)
    ensures ResolvesTo(raw, status, legacy) <==> Understood(raw, status, legacy)
  {
    LegacyNamesAreNotCurrent();
    NamedStatus(raw, status);
    hide ParseStatus, Name, Normalize, IsSep24Status;
    NamesDifferUnless(status);
  }

  lemma NamesDifferUnless(status: Status)
    ensures Name(status) == "pending_anchor" <==> status == PendingAnchor
  {
    ParsesExactlyNames("pending_anchor", status);
    ParsesExactlyNames("pending_anchor", PendingAnchor);
  }

  lemma NamesByLengthAndLetter(s: Status)
    ensures |Name(s)| !in {0, 11, 30} && Name(s)[0] != '_'
    ensures |Name(s)| == 16 ==> Name(s)[8] == 'r'
  {
  }

  lemma LegacyNamesAreNotCurrent()
    ensures ParseStatus("pending_user_transfer_complete") == None && ParseStatus("pending_external") == None
    ensures ParseStatus("constructor") == None && ParseStatus("__proto__") == None
  {
    hide Name, ParseStatus;
    NotCurrent("pending_user_transfer_complete");
    NotCurrent("pending_external");
    NotCurrent("constructor");
    NotCurrent("__proto__");
  }

  lemma NotCurrent(name: string)
    requires |name| in {0, 11, 30} || (|name| == 16 && name[8] != 'r') || (|name| > 0 && name[0] == '_')
    ensures ParseStatus(name) == None
  {
    hide Name, ParseStatus;
    if ParseStatus(name).Some? {
      ParsesExactlyNames(name, ParseStatus(name).value);
      NamesByLengthAndLetter(ParseStatus(name).value);
    }
  }
}
