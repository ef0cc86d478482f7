/** Copies fit for a log line. */
module Sanitizer {
  // Copying an arbitrary object graph, cyclic or not, into a bounded tree that is fit for a log line
  // (`sanitizeForLog` in src/lib/serializers.ts).

  import opened Basics
  import opened SensitiveKeys

  // ----- the heap -----

  type NodeId = nat

  /** `Other` is null, a boolean, a function: whatever is neither a number, a string nor an object. */
  datatype Value = Undefined | Number(printed: string) | Str(text: string) | Other(printed: string) | Ref(node: NodeId)

  datatype Entry = Entry(key: string, value: Value)

  /** An error is what its properties read as, and what `String(error)` gives. */
  datatype Node =
    | DateNode(iso: string)
    | ErrorNode(props: map<string, Value>, shown: string)
    | ArrayNode(items: seq<Value>)
    | ObjectNode(entries: seq<Entry>)

  type Heap = map<NodeId, Node>

  predicate Known(heap: Heap, v: Value) {
    v.Ref? ==> v.node in heap
  }

  predicate KnownChildren(heap: Heap, node: Node) {
    match node
    case DateNode(_) => true
    case ErrorNode(props, _) => forall k :: k in props ==> Known(heap, props[k])
    case ArrayNode(items) => forall i :: 0 <= i < |items| ==> Known(heap, items[i])
    case ObjectNode(entries) => forall i :: 0 <= i < |entries| ==> Known(heap, entries[i].value)
  }

  /** Every reference leads to a node. Nothing is said about cycles. */
  predicate Closed(heap: Heap) {
    forall n :: n in heap ==> KnownChildren(heap, heap[n])
  }

  function Prop(props: map<string, Value>, name: string): Value {
    if name in props then props[name] else Undefined
  }

  // ----- the tree -----

  /** A leaf is never a reference. */
  datatype Tree = Leaf(value: Value) | List(items: seq<Tree>) | Record(fields: seq<Labelled>)
  datatype Labelled = Labelled(key: string, tree: Tree)

  const REDACTED := Leaf(Str("[REDACTED]"))
  const TRUNCATED := Leaf(Str("[TRUNCATED]"))
  const CIRCULAR := Leaf(Str("[CIRCULAR]"))
  const MAX_DETAIL_DEPTH := 4

  // ----- errors -----

  /** `errorHeadline`. */
  function Headline(props: map<string, Value>, shown: string): seq<Labelled> {
    var name := if Prop(props, "name").Str? && Prop(props, "name").text != "" then Prop(props, "name") else Str("Error");
    var message := if Prop(props, "message").Str? then Prop(props, "message") else Str(shown);
    var stack := if Prop(props, "stack").Str? then Prop(props, "stack") else Str("");
    [Labelled("type", Leaf(name)), Labelled("name", Leaf(name)), Labelled("message", Leaf(message)), Labelled("stack", Leaf(stack))]
  }

  /** A field carried over when it is a non-empty string. */
  function TextField(props: map<string, Value>, name: string): seq<Labelled> {
    if Prop(props, name).Str? && Prop(props, name).text != "" then [Labelled(name, Leaf(Prop(props, name)))] else []
  }

  /** `statusCode`, or else `status`, when it is a number. */
  function StatusField(props: map<string, Value>): seq<Labelled> {
    if Prop(props, "statusCode").Number? then [Labelled("statusCode", Leaf(Prop(props, "statusCode")))]
    else if Prop(props, "status").Number? then [Labelled("statusCode", Leaf(Prop(props, "status")))]
    else []
  }

  /** What an error shows besides its details. */
  function PlainFields(props: map<string, Value>): seq<Labelled> {
    TextField(props, "code") + StatusField(props) + TextField(props, "requestId") + TextField(props, "correlationId")
    + TextField(props, "operation")
  }

  // ----- what the copy is -----

  function Room(path: seq<NodeId>): nat {
    if |path| < MAX_DETAIL_DEPTH then MAX_DETAIL_DEPTH - |path| else 0
  }

  /** The copy of `v` below the containers of `path`, outermost first: how deep it is and what it may not re-enter. */
  function Sanitized(heap: Heap, path: seq<NodeId>, v: Value): Tree
    requires Closed(heap) && Known(heap, v)
    decreases Room(path), 1, 0
  {
    if !v.Ref? then Leaf(v)
    else if heap[v.node].DateNode? then Leaf(Str(heap[v.node].iso))
    else if |path| >= MAX_DETAIL_DEPTH then TRUNCATED
    else if v.node in path then CIRCULAR
    else Expanded(heap, path + [v.node], heap[v.node])
  }

  function Expanded(heap: Heap, path: seq<NodeId>, node: Node): Tree
    requires Closed(heap) && KnownChildren(heap, node) && !node.DateNode?
    decreases Room(path), 3, 0
  {
    match node
    case ErrorNode(props, shown) => Record(Headline(props, shown) + PlainFields(props) + Details(heap, path, Prop(props, "details")))
    case ArrayNode(items) => List(Items(heap, path, items))
    case ObjectNode(entries) => Record(Fields(heap, path, entries))
  }

  function Details(heap: Heap, path: seq<NodeId>, details: Value): seq<Labelled>
    requires Closed(heap) && Known(heap, details)
    decreases Room(path), 2, 0
  {
    if details.Undefined? then [] else [Labelled("details", Sanitized(heap, path, details))]
  }

  function Items(heap: Heap, path: seq<NodeId>, items: seq<Value>): (trees: seq<Tree>)
    requires Closed(heap) && forall i :: 0 <= i < |items| ==> Known(heap, items[i])
    ensures |trees| == |items|
    ensures forall i :: 0 <= i < |items| ==> trees[i] == Sanitized(heap, path, items[i])
    decreases Room(path), 2, |items|
  {
    if items == [] then []
    else Items(heap, path, items[..|items| - 1]) + [Sanitized(heap, path, items[|items| - 1])]
  }

  /** A `__proto__` entry sets the copy's prototype and is no field of it. */
  function Fields(heap: Heap, path: seq<NodeId>, entries: seq<Entry>): seq<Labelled>
    requires Closed(heap) && forall i :: 0 <= i < |entries| ==> Known(heap, entries[i].value)
    decreases Room(path), 2, |entries|
  {
    if entries == [] then []
    else
      var e := entries[|entries| - 1];
      Fields(heap, path, entries[..|entries| - 1])
      + if IsProto(e.key) then []
        else [Labelled(e.key, if IsSensitiveKey(e.key) then REDACTED else Sanitized(heap, path, e.value))]
  }

  // ----- the traversal -----

  function Elements(path: seq<NodeId>): set<NodeId> {
    set n | n in path
  }

  lemma ElementsGrow(path: seq<NodeId>, n: NodeId)
    ensures Elements(path + [n]) == Elements(path) + {n}
  {
  }

  class LogSanitizer {
    var seen: set<NodeId>

    constructor ()
      ensures seen == {}
    {
      seen := {};
    }

    /**
     * `sanitizeForLog` with its cycle guard `seen`. On a call `depth` and `seen` describe the containers of
     * `path`; the guard comes back as it was, and the result is the copy below that path.
     */
    method SanitizeForLog(heap: Heap, value: Value, depth: nat, ghost path: seq<NodeId>) returns (result: Tree)
      requires Closed(heap) && Known(heap, value)
      requires depth == |path| && seen == Elements(path)
      modifies this
      ensures seen == old(seen)
      ensures result == Sanitized(heap, path, value)
      decreases Room(path), 1, 0
    {
      if !value.Ref? { return Leaf(value); }
      var node := heap[value.node];
      if node.DateNode? { return Leaf(Str(node.iso)); }
      if depth >= MAX_DETAIL_DEPTH { return TRUNCATED; }
      if value.node in seen { return CIRCULAR; }
      seen := seen + {value.node};
      ghost var inner := path + [value.node];
      ElementsGrow(path, value.node);
      assert KnownChildren(heap, node);
      if node.ErrorNode? {
        var fields := ApplicationErrorFields(heap, node.props, depth + 1, inner);
        result := Record(Headline(node.props, node.shown) + fields);
        assert result == Expanded(heap, inner, node);
      } else if node.ArrayNode? {
        var items: seq<Tree> := [];
        for i := 0 to |node.items|
          invariant seen == Elements(inner)
          invariant items == Items(heap, inner, node.items[..i])
        {
          var item := SanitizeForLog(heap, node.items[i], depth + 1, inner);
          assert node.items[..i + 1][..i] == node.items[..i];
          items := items + [item];
        }
        assert node.items[..|node.items|] == node.items;
        result := List(items);
      } else {
        var sanitized: seq<Labelled> := [];
        for i := 0 to |node.entries|
          invariant seen == Elements(inner)
          invariant sanitized == Fields(heap, inner, node.entries[..i])
        {
          var key := node.entries[i].key;
          assert node.entries[..i + 1][..i] == node.entries[..i];
          var item := REDACTED;
          if !IsSensitiveKey(key) {
            item := SanitizeForLog(heap, node.entries[i].value, depth + 1, inner);
          }
          if !IsProto(key) {
            sanitized := sanitized + [Labelled(key, item)];
          }
        }
        assert node.entries[..|node.entries|] == node.entries;
        result := Record(sanitized);
      }
      seen := seen - {value.node};
    }

    method ApplicationErrorFields(heap: Heap, props: map<string, Value>, depth: nat, ghost path: seq<NodeId>)
        returns (fields: seq<Labelled>)
      requires Closed(heap) && forall k :: k in props ==> Known(heap, props[k])
      requires depth == |path| && seen == Elements(path)
      modifies this
      ensures seen == old(seen)
      ensures fields == PlainFields(props) + Details(heap, path, Prop(props, "details"))
      decreases Room(path), 2, 0
    {
      fields := TextField(props, "code");
      var statusCode := if Prop(props, "statusCode").Number? then Prop(props, "statusCode")
                        else if Prop(props, "status").Number? then Prop(props, "status") else Undefined;
      if !statusCode.Undefined? { fields := fields + [Labelled("statusCode", Leaf(statusCode))]; }
      fields := fields + TextField(props, "requestId");
      fields := fields + TextField(props, "correlationId");
      fields := fields + TextField(props, "operation");
      assert fields == PlainFields(props);
      var details := Prop(props, "details");
      if !details.Undefined? {
        var copy := SanitizeForLog(heap, details, depth, path);
        fields := fields + [Labelled("details", copy)];
      }
    }
  }

  // ----- what every copy is like -----

  /** At most `levels` containers deep, no credential shown, no reference left. */
  predicate Fit(t: Tree, levels: nat) {
    match t
    case Leaf(v) => !v.Ref?
    case List(items) => levels > 0 && forall i :: 0 <= i < |items| ==> Fit(items[i], levels - 1)
    case Record(fields) =>
      levels > 0 && forall i :: 0 <= i < |fields| ==> FitKey(fields[i]) && Fit(fields[i].tree, levels - 1)
  }

  predicate FitKey(f: Labelled) {
    !IsProto(f.key) && (IsSensitiveKey(f.key) ==> f.tree == Leaf(Str("[REDACTED]")))
  }

  ghost predicate FitFields(fields: seq<Labelled>, levels: nat) {
    forall i :: 0 <= i < |fields| ==> FitKey(fields[i]) && Fit(fields[i].tree, levels)
  }

  lemma FitConcat(a: seq<Labelled>, b: seq<Labelled>, levels: nat)
    requires FitFields(a, levels) && FitFields(b, levels)
    ensures FitFields(a + b, levels)
  {
  }

  /** Leaves under the names of an error's fields, none of them the details. */
  ghost predicate PlainLeaves(fields: seq<Labelled>) {
    forall i :: 0 <= i < |fields| ==> PlainLeaf(fields[i])
  }

  predicate PlainLeaf(f: Labelled) {
    f.tree.Leaf? && !f.tree.value.Ref? && IsErrorField(f.key) && f.key != "details"
  }

  lemma PlainLeavesConcat(a: seq<Labelled>, b: seq<Labelled>)
    requires PlainLeaves(a) && PlainLeaves(b)
    ensures PlainLeaves(a + b)
  {
    hide PlainLeaf;
  }

  lemma TextFieldIsPlain(props: map<string, Value>, name: string)
    requires IsErrorField(name) && name != "details"
    ensures PlainLeaves(TextField(props, name))
  {
    hide Prop, IsErrorField;
  }

  /** What an error shows besides its details are plain leaves. */
  lemma ErrorShowsPlainLeaves(props: map<string, Value>, shown: string)
    ensures PlainLeaves(Headline(props, shown) + PlainFields(props))
  {
    ErrorFieldNames();
    hide Prop, IsErrorField, TextField;
    assert |"details"| == 7 && "message"[0] != "details"[0];
    assert PlainLeaves(Headline(props, shown)) && PlainLeaves(StatusField(props));
    TextFieldIsPlain(props, "code");
    TextFieldIsPlain(props, "requestId");
    TextFieldIsPlain(props, "correlationId");
    TextFieldIsPlain(props, "operation");
    hide PlainLeaves, Headline, StatusField;
    var code, status, request := TextField(props, "code"), StatusField(props), TextField(props, "requestId");
    var correlation, operation := TextField(props, "correlationId"), TextField(props, "operation");
    PlainLeavesConcat(code, status);
    PlainLeavesConcat(code + status, request);
    PlainLeavesConcat(code + status + request, correlation);
    PlainLeavesConcat(code + status + request + correlation, operation);
    PlainLeavesConcat(Headline(props, shown), PlainFields(props));
  }

  lemma PlainLeavesAreFit(fields: seq<Labelled>, levels: nat)
    requires PlainLeaves(fields)
    ensures FitFields(fields, levels)
  {
    hide IsSensitiveKey, IsProto, IsErrorField;
    forall i | 0 <= i < |fields| ensures FitKey(fields[i]) && Fit(fields[i].tree, levels) {
      assert PlainLeaf(fields[i]);
      ErrorFieldsAreNotSensitive(fields[i].key);
    }
  }

  /** A reference that the copy follows. */
  predicate Enters(heap: Heap, path: seq<NodeId>, v: Value)
    requires Known(heap, v)
  {
    v.Ref? && !heap[v.node].DateNode? && |path| < MAX_DETAIL_DEPTH && v.node !in path
  }

  lemma EnteredIsExpanded(heap: Heap, path: seq<NodeId>, v: Value)
    requires Closed(heap) && Known(heap, v)
    ensures Enters(heap, path, v) ==>
      KnownChildren(heap, heap[v.node]) && Sanitized(heap, path, v) == Expanded(heap, path + [v.node], heap[v.node])
    ensures !Enters(heap, path, v) ==> Sanitized(heap, path, v).Leaf? && !Sanitized(heap, path, v).value.Ref?
  {
    hide Expanded, KnownChildren;
  }

  /**
   * The copy of any graph, whatever its cycles, is finite and fit to log: containers nest at most four deep,
   * and every key that names a credential holds `[REDACTED]`.
   */
  lemma {:induction false} CopyIsFit(heap: Heap, path: seq<NodeId>, v: Value)
    requires Closed(heap) && Known(heap, v) && |path| <= MAX_DETAIL_DEPTH
    ensures Fit(Sanitized(heap, path, v), MAX_DETAIL_DEPTH - |path|)
    decreases Room(path), 1, 0
  {
    hide Closed, KnownChildren, Sanitized, FitKey, Items, Fields;
    EnteredIsExpanded(heap, path, v);
    if Enters(heap, path, v) {
      var inner, node := path + [v.node], heap[v.node];
      match node
      case ErrorNode(props, shown) => ErrorIsFit(heap, inner, props, shown);
      case ArrayNode(items) => ItemsAreFit(heap, inner, items);
      case ObjectNode(entries) => FieldsAreFit(heap, inner, entries);
    }
  }

  lemma {:induction false} ItemsAreFit(heap: Heap, path: seq<NodeId>, items: seq<Value>)
    requires Closed(heap) && 0 < |path| <= MAX_DETAIL_DEPTH && KnownChildren(heap, ArrayNode(items))
    ensures Fit(Expanded(heap, path, ArrayNode(items)), MAX_DETAIL_DEPTH - |path| + 1)
    decreases Room(path), 3, 0
  {
    hide Closed, Sanitized, FitKey;
    forall i | 0 <= i < |items| ensures Fit(Items(heap, path, items)[i], MAX_DETAIL_DEPTH - |path|) {
      CopyIsFit(heap, path, items[i]);
    }
  }

  lemma DetailsAreFit(heap: Heap, path: seq<NodeId>, details: Value, levels: nat)
    requires Closed(heap) && Known(heap, details) && Fit(Sanitized(heap, path, details), levels)
    ensures FitFields(Details(heap, path, details), levels)
  {
    ErrorFieldNames();
    ErrorFieldsAreNotSensitive("details");
    hide IsSensitiveKey, Sanitized, IsProto, Fit, IsErrorField, Closed;
  }

  lemma {:induction false} ErrorIsFit(heap: Heap, path: seq<NodeId>, props: map<string, Value>, shown: string)
    requires Closed(heap) && KnownChildren(heap, ErrorNode(props, shown)) && 0 < |path| <= MAX_DETAIL_DEPTH
    ensures Fit(Expanded(heap, path, ErrorNode(props, shown)), MAX_DETAIL_DEPTH - |path| + 1)
    decreases Room(path), 3, 0
  {
    hide Closed, Sanitized, FitKey, Headline, PlainFields, Details, PlainLeaves;
    var levels := MAX_DETAIL_DEPTH - |path|;
    var details := Prop(props, "details");
    ErrorShowsPlainLeaves(props, shown);
    PlainLeavesAreFit(Headline(props, shown) + PlainFields(props), levels);
    CopyIsFit(heap, path, details);
    DetailsAreFit(heap, path, details, levels);
    FitConcat(Headline(props, shown) + PlainFields(props), Details(heap, path, details), levels);
  }

  lemma {:induction false} FieldsAreFit(heap: Heap, path: seq<NodeId>, entries: seq<Entry>)
    requires Closed(heap) && 0 < |path| <= MAX_DETAIL_DEPTH && KnownChildren(heap, ObjectNode(entries))
    ensures Fit(Expanded(heap, path, ObjectNode(entries)), MAX_DETAIL_DEPTH - |path| + 1)
    decreases Room(path), 3, 0
  {
    hide Closed, FitKey;
    EntriesAreFit(heap, path, entries);
  }

  lemma {:induction false} EntriesAreFit(heap: Heap, path: seq<NodeId>, entries: seq<Entry>)
    requires Closed(heap) && 0 < |path| <= MAX_DETAIL_DEPTH && forall i :: 0 <= i < |entries| ==> Known(heap, entries[i].value)
    ensures FitFields(Fields(heap, path, entries), MAX_DETAIL_DEPTH - |path|)
    decreases Room(path), 2, |entries|
  {
    if entries != [] {
      hide Closed, IsSensitiveKey, IsProto, Sanitized;
      var front, e := entries[..|entries| - 1], entries[|entries| - 1];
      EntriesAreFit(heap, path, front);
      CopyIsFit(heap, path, e.value);
    }
  }

  // ----- sanitizing a copy -----

  /** In heap `h`, `v` is the tree `t` laid out as objects and arrays, shared or not. */
  ghost predicate Represents(h: Heap, v: Value, t: Tree)
    decreases t
  {
    match t
    case Leaf(u) => v == u && !u.Ref?
    case List(items) =>
      && v.Ref? && v.node in h && h[v.node].ArrayNode? && |h[v.node].items| == |items|
      && forall i :: 0 <= i < |items| ==> Represents(h, h[v.node].items[i], items[i])
    case Record(fields) =>
      && v.Ref? && v.node in h && h[v.node].ObjectNode? && |h[v.node].entries| == |fields|
      && forall i :: 0 <= i < |fields| ==> RepresentsField(h, h[v.node].entries[i], fields[i])
  }

  ghost predicate RepresentsField(h: Heap, e: Entry, f: Labelled)
    decreases f
  {
    e.key == f.key && Represents(h, e.value, f.tree)
  }

  lemma {:induction false} OneTree(h: Heap, v: Value, t: Tree, t': Tree)
    requires Represents(h, v, t) && Represents(h, v, t')
    ensures t == t'
    decreases t
  {
    match t
    case Leaf(_) =>
    case List(items) =>
      forall i | 0 <= i < |items| ensures items[i] == t'.items[i] {
        OneTree(h, h[v.node].items[i], items[i], t'.items[i]);
      }
    case Record(fields) =>
      forall i | 0 <= i < |fields| ensures fields[i] == t'.fields[i] {
        assert RepresentsField(h, h[v.node].entries[i], fields[i]) && RepresentsField(h, h[v.node].entries[i], t'.fields[i]);
        OneTree(h, h[v.node].entries[i].value, fields[i].tree, t'.fields[i].tree);
      }
  }

  /** The trees that the containers on the path represent, each of them around `t`. */
  ghost predicate Around(h: Heap, path: seq<NodeId>, above: seq<Tree>, t: Tree) {
    |above| == |path| && forall k :: 0 <= k < |path| ==> Represents(h, Ref(path[k]), above[k]) && t < above[k]
  }

  lemma NotOnPath(h: Heap, path: seq<NodeId>, above: seq<Tree>, v: Value, t: Tree)
    requires Around(h, path, above, t) && v.Ref? && Represents(h, v, t)
    ensures v.node !in path
  {
    forall k | 0 <= k < |path| ensures path[k] != v.node {
      if path[k] == v.node { OneTree(h, v, t, above[k]); }
    }
  }

  lemma AroundChild(h: Heap, path: seq<NodeId>, above: seq<Tree>, v: Value, t: Tree, child: Tree)
    requires Around(h, path, above, t) && v.Ref? && Represents(h, v, t) && child < t
    ensures Around(h, path + [v.node], above + [t], child)
  {
  }

  lemma {:induction false} CopyOfTree(h: Heap, path: seq<NodeId>, above: seq<Tree>, v: Value, t: Tree)
    requires Closed(h) && Known(h, v) && |path| <= MAX_DETAIL_DEPTH && Fit(t, MAX_DETAIL_DEPTH - |path|)
    requires Represents(h, v, t) && Around(h, path, above, t)
    ensures Sanitized(h, path, v) == t
    decreases t
  {
    if t.Leaf? {
    } else {
      NotOnPath(h, path, above, v, t);
      EnteredIsExpanded(h, path, v);
      if t.List? {
        CopyOfList(h, path, above, v, t);
      } else {
        CopyOfRecord(h, path, above, v, t);
      }
    }
  }

  lemma {:induction false} CopyOfList(h: Heap, path: seq<NodeId>, above: seq<Tree>, v: Value, t: Tree)
    requires t.List? && Closed(h) && Known(h, v) && |path| < MAX_DETAIL_DEPTH && Fit(t, MAX_DETAIL_DEPTH - |path|)
    requires Represents(h, v, t) && Around(h, path, above, t) && KnownChildren(h, h[v.node])
    ensures Expanded(h, path + [v.node], h[v.node]) == t
    decreases t, 0
  {
    hide Closed, Sanitized, Around;
    var inner, items := path + [v.node], h[v.node].items;
    forall i | 0 <= i < |items| ensures Items(h, inner, items)[i] == t.items[i] {
      assert Represents(h, items[i], t.items[i]);
      AroundChild(h, path, above, v, t, t.items[i]);
      CopyOfTree(h, inner, above + [t], items[i], t.items[i]);
    }
  }

  lemma {:induction false} CopyOfRecord(h: Heap, path: seq<NodeId>, above: seq<Tree>, v: Value, t: Tree)
    requires t.Record? && Closed(h) && Known(h, v) && |path| < MAX_DETAIL_DEPTH && Fit(t, MAX_DETAIL_DEPTH - |path|)
    requires Represents(h, v, t) && Around(h, path, above, t) && KnownChildren(h, h[v.node])
    ensures Expanded(h, path + [v.node], h[v.node]) == t
    decreases t, 0
  {
    hide Closed, Sanitized, Around;
    var inner, entries := path + [v.node], h[v.node].entries;
    forall i | 0 <= i < |entries| ensures CopiesTo(h, inner, entries[i], t.fields[i]) {
      assert RepresentsField(h, entries[i], t.fields[i]) && FitKey(t.fields[i]);
      AroundChild(h, path, above, v, t, t.fields[i].tree);
      CopyOfTree(h, inner, above + [t], entries[i].value, t.fields[i].tree);
    }
    FieldsRebuilt(h, inner, entries, t.fields);
  }

  ghost predicate CopiesTo(h: Heap, path: seq<NodeId>, e: Entry, f: Labelled)
    requires Closed(h) && Known(h, e.value)
  {
    e.key == f.key && !IsProto(f.key) && f.tree == if IsSensitiveKey(e.key) then REDACTED else Sanitized(h, path, e.value)
  }

  lemma SplitLast<T>(s: seq<T>)
    requires s != []
    ensures s == s[..|s| - 1] + [s[|s| - 1]]
  {
  }

  lemma LastField(h: Heap, path: seq<NodeId>, entries: seq<Entry>, f: Labelled)
    requires Closed(h) && entries != [] && forall i :: 0 <= i < |entries| ==> Known(h, entries[i].value)
    requires CopiesTo(h, path, entries[|entries| - 1], f)
    ensures Fields(h, path, entries) == Fields(h, path, entries[..|entries| - 1]) + [f]
  {
    hide Closed, Sanitized, IsSensitiveKey, IsProto;
  }

  lemma {:induction false} FieldsRebuilt(h: Heap, path: seq<NodeId>, entries: seq<Entry>, fields: seq<Labelled>)
    requires Closed(h) && |entries| == |fields| && forall i :: 0 <= i < |entries| ==> Known(h, entries[i].value)
    requires forall i :: 0 <= i < |entries| ==> CopiesTo(h, path, entries[i], fields[i])
    ensures Fields(h, path, entries) == fields
    decreases |entries|
  {
    if entries != [] {
      hide Closed, Fields, CopiesTo, Known;
      var n := |entries| - 1;
      FieldsRebuilt(h, path, entries[..n], fields[..n]);
      LastField(h, path, entries, fields[n]);
      SplitLast(fields);
    }
  }

  /** Sanitizing a sanitized value changes nothing, wherever the copy now lives. */
  lemma SanitizingAgainChangesNothing(heap: Heap, v: Value, h: Heap, w: Value)
    requires Closed(heap) && Known(heap, v) && Closed(h) && Known(h, w)
    requires Represents(h, w, Sanitized(heap, [], v))
    ensures Sanitized(h, [], w) == Sanitized(heap, [], v)
  {
    hide Closed, Sanitized, Represents;
    CopyIsFit(heap, [], v);
    CopyOfTree(h, [], [], w, Sanitized(heap, [], v));
  }

  // ----- where the marks are -----

  /** One step into an object graph, or into a copy. */
  datatype Step = Index(i: nat) | Key(key: string)

  function Lookup(entries: seq<Entry>, key: string): Option<Value> {
    if entries == [] then None
    else if Lookup(entries[..|entries| - 1], key).Some? then Lookup(entries[..|entries| - 1], key)
    else if entries[|entries| - 1].key == key then Some(entries[|entries| - 1].value)
    else None
  }

  function LookupField(fields: seq<Labelled>, key: string): Option<Tree> {
    if fields == [] then None
    else if LookupField(fields[..|fields| - 1], key).Some? then LookupField(fields[..|fields| - 1], key)
    else if fields[|fields| - 1].key == key then Some(fields[|fields| - 1].tree)
    else None
  }

  /** What a step from `v` leads to; of an error, only the details are followed. */
  function Child(heap: Heap, v: Value, step: Step): Option<Value>
    requires Known(heap, v)
  {
    if !v.Ref? then None
    else
      match (heap[v.node], step)
      case (ArrayNode(items), Index(i)) => if i < |items| then Some(items[i]) else None
      case (ObjectNode(entries), Key(key)) => Lookup(entries, key)
      case (ErrorNode(props, _), Key(key)) =>
        if key == "details" && !Prop(props, "details").Undefined? then Some(Prop(props, "details")) else None
      case _ => None
  }

  function TreeChild(t: Tree, step: Step): Option<Tree> {
    match (t, step)
    case (List(items), Index(i)) => if i < |items| then Some(items[i]) else None
    case (Record(fields), Key(key)) => LookupField(fields, key)
    case _ => None
  }

  lemma {:induction false} LookupKnown(heap: Heap, entries: seq<Entry>, key: string)
    requires forall i :: 0 <= i < |entries| ==> Known(heap, entries[i].value)
    ensures Lookup(entries, key).Some? ==> Known(heap, Lookup(entries, key).value)
  {
    hide Known;
    if entries != [] { LookupKnown(heap, entries[..|entries| - 1], key); }
  }

  lemma ChildKnown(heap: Heap, v: Value, step: Step)
    requires Closed(heap) && Known(heap, v)
    ensures Child(heap, v, step).Some? ==> Known(heap, Child(heap, v, step).value)
  {
    if v.Ref? {
      assert KnownChildren(heap, heap[v.node]);
      if heap[v.node].ObjectNode? && step.Key? { LookupKnown(heap, heap[v.node].entries, step.key); }
    }
  }

  /** The raw walk along `steps`: the nodes it passes through, outermost first, and where it ends. */
  function Walk(heap: Heap, v: Value, steps: seq<Step>): (end: Option<(seq<NodeId>, Value)>)
    requires Closed(heap) && Known(heap, v)
    ensures end.Some? ==> |end.value.0| == |steps| && Known(heap, end.value.1)
  {
    if steps == [] then Some(([], v))
    else
      match Walk(heap, v, steps[..|steps| - 1])
      case None => None
      case Some((nodes, u)) =>
        ChildKnown(heap, u, steps[|steps| - 1]);
        match Child(heap, u, steps[|steps| - 1])
        case None => None
        case Some(w) => Some((nodes + [u.node], w))
  }

  function TreeAt(t: Tree, steps: seq<Step>): Option<Tree> {
    if steps == [] then Some(t)
    else
      match TreeAt(t, steps[..|steps| - 1])
      case None => None
      case Some(u) => TreeChild(u, steps[|steps| - 1])
  }

  /** A step that the copy makes too: no credential, and not the prototype. */
  predicate Open(step: Step) {
    step.Key? ==> !IsSensitiveKey(step.key) && !IsProto(step.key)
  }

  // ----- lookups in the copy -----

  lemma {:induction false} LookupInFields(heap: Heap, path: seq<NodeId>, entries: seq<Entry>, key: string)
    requires Closed(heap) && forall i :: 0 <= i < |entries| ==> Known(heap, entries[i].value)
    ensures LookupField(Fields(heap, path, entries), key) ==
      if IsProto(key) || Lookup(entries, key).None? then None
      else (LookupKnown(heap, entries, key);
            Some(if IsSensitiveKey(key) then REDACTED else Sanitized(heap, path, Lookup(entries, key).value)))
    decreases |entries|
  {
    LookupKnown(heap, entries, key);
    if entries != [] {
      hide Closed, Sanitized, IsSensitiveKey, IsProto;
      var n := |entries| - 1;
      LookupInFields(heap, path, entries[..n], key);
      LookupKnown(heap, entries[..n], key);
      LookupAppended(heap, path, entries, key);
    }
  }

  lemma LookupAppended(heap: Heap, path: seq<NodeId>, entries: seq<Entry>, key: string)
    requires Closed(heap) && entries != [] && forall i :: 0 <= i < |entries| ==> Known(heap, entries[i].value)
    ensures var n := |entries| - 1;
            var front := LookupField(Fields(heap, path, entries[..n]), key);
            LookupField(Fields(heap, path, entries), key) ==
              if front.Some? then front
              else if IsProto(entries[n].key) || entries[n].key != key then None
              else Some(if IsSensitiveKey(key) then REDACTED else Sanitized(heap, path, entries[n].value))
  {
    hide Closed, Sanitized, IsSensitiveKey, IsProto;
    var n := |entries| - 1;
    var front, all := Fields(heap, path, entries[..n]), Fields(heap, path, entries);
    if IsProto(entries[n].key) {
      assert all == front;
    } else {
      assert all[..|all| - 1] == front;
    }
  }

  lemma {:induction false} LookupPlainLeaf(fields: seq<Labelled>, key: string)
    requires PlainLeaves(fields)
    ensures LookupField(fields, key).Some? ==> LookupField(fields, key).value.Leaf? && key != "details"
  {
    hide IsErrorField;
    if fields != [] { LookupPlainLeaf(fields[..|fields| - 1], key); }
  }

  lemma LookupAfterPlain(fields: seq<Labelled>, details: Labelled, key: string)
    requires PlainLeaves(fields) && details.key == "details"
    ensures key == "details" ==> LookupField(fields + [details], key) == Some(details.tree)
    ensures key != "details" && LookupField(fields + [details], key).Some? ==> LookupField(fields + [details], key).value.Leaf?
  {
    assert (fields + [details])[..|fields|] == fields;
    LookupPlainLeaf(fields, key);
  }

  lemma LookupInError(heap: Heap, path: seq<NodeId>, props: map<string, Value>, shown: string, key: string)
    requires Closed(heap) && KnownChildren(heap, ErrorNode(props, shown))
    ensures var details, found := Prop(props, "details"), TreeChild(Expanded(heap, path, ErrorNode(props, shown)), Key(key));
            && (key == "details" && !details.Undefined? ==> found == Some(Sanitized(heap, path, details)))
            && (key != "details" || details.Undefined? ==> found.Some? ==> found.value.Leaf?)
  {
    hide Closed, Sanitized, Headline, PlainFields, PlainLeaves, LookupField;
    var fields, details := Headline(props, shown) + PlainFields(props), Prop(props, "details");
    ErrorShowsPlainLeaves(props, shown);
    if details.Undefined? {
      LookupPlainLeaf(fields, key);
      assert fields + Details(heap, path, details) == fields;
    } else {
      LookupAfterPlain(fields, Labelled("details", Sanitized(heap, path, details)), key);
    }
  }

  // ----- what an error shows -----

  lemma {:induction false} LookupConcat(a: seq<Labelled>, b: seq<Labelled>, key: string)
    ensures LookupField(a + b, key) == if LookupField(a, key).Some? then LookupField(a, key) else LookupField(b, key)
  {
    if b == [] {
      assert a + b == a;
    } else {
      assert (a + b)[..|a + b| - 1] == a + b[..|b| - 1];
      LookupConcat(a, b[..|b| - 1], key);
    }
  }

  lemma LookupOne(name: string, t: Tree, key: string)
    ensures LookupField([Labelled(name, t)], key) == if key == name then Some(t) else None
    ensures LookupField([], key) == None
  {
  }

  /** A string property that is not empty. */
  predicate HasText(props: map<string, Value>, name: string) {
    name in props && props[name].Str? && props[name].text != ""
  }

  lemma LookupInTextField(props: map<string, Value>, name: string, key: string)
    ensures LookupField(TextField(props, name), key) == if key == name && HasText(props, name) then Some(Leaf(props[name])) else None
  {
    LookupOne(name, Leaf(Prop(props, name)), key);
    hide LookupField;
  }

  /** What an error shows under a key besides its details. */
  ghost predicate ShowsPlain(props: map<string, Value>, shown: string, key: string, found: Option<Tree>) {
    if key == "message" then found == Some(Leaf(if "message" in props && props["message"].Str? then props["message"] else Str(shown)))
    else if key == "stack" then found == Some(Leaf(if "stack" in props && props["stack"].Str? then props["stack"] else Str("")))
    else if key == "type" || key == "name" then found == Some(Leaf(if HasText(props, "name") then props["name"] else Str("Error")))
    else if key == "statusCode" then
      found == if "statusCode" in props && props["statusCode"].Number? then Some(Leaf(props["statusCode"]))
               else if "status" in props && props["status"].Number? then Some(Leaf(props["status"]))
               else None
    else if key in {"code", "requestId", "correlationId", "operation"} then
      found == if HasText(props, key) then Some(Leaf(props[key])) else None
    else found == None
  }

  lemma LookupInHeadline(props: map<string, Value>, shown: string, key: string)
    ensures if key in {"type", "name", "message", "stack"} then ShowsPlain(props, shown, key, LookupField(Headline(props, shown), key))
            else LookupField(Headline(props, shown), key) == None
  {
    var h := Headline(props, shown);
    assert h == [h[0]] + [h[1]] + [h[2]] + [h[3]];
    LookupOne(h[0].key, h[0].tree, key);
    LookupOne(h[1].key, h[1].tree, key);
    LookupOne(h[2].key, h[2].tree, key);
    LookupOne(h[3].key, h[3].tree, key);
    hide LookupField;
    LookupConcat([h[0]], [h[1]], key);
    LookupConcat([h[0]] + [h[1]], [h[2]], key);
    LookupConcat([h[0]] + [h[1]] + [h[2]], [h[3]], key);
  }

  lemma LookupInPlainFields(props: map<string, Value>, shown: string, key: string)
    ensures if key in {"code", "statusCode", "requestId", "correlationId", "operation"}
            then ShowsPlain(props, shown, key, LookupField(PlainFields(props), key))
            else LookupField(PlainFields(props), key) == None
  {
    var code, status, request := TextField(props, "code"), StatusField(props), TextField(props, "requestId");
    var correlation, operation := TextField(props, "correlationId"), TextField(props, "operation");
    LookupOne("statusCode", Leaf(if Prop(props, "statusCode").Number? then Prop(props, "statusCode") else Prop(props, "status")), key);
    LookupInTextField(props, "code", key);
    LookupInTextField(props, "requestId", key);
    LookupInTextField(props, "correlationId", key);
    LookupInTextField(props, "operation", key);
    hide LookupField, TextField;
    LookupConcat(code, status, key);
    LookupConcat(code + status, request, key);
    LookupConcat(code + status + request, correlation, key);
    LookupConcat(code + status + request + correlation, operation, key);
  }

  /**
   * The copy of an error, field by field: its message or else what it prints as, its stack, its name under `name`
   * and `type`, a numeric status, the four identifying texts it carries, the copy of its details, and nothing else.
   */
  lemma ErrorShowsItsFields(heap: Heap, path: seq<NodeId>, v: Value, key: string)
    requires Closed(heap) && Known(heap, v) && Enters(heap, path, v) && heap[v.node].ErrorNode?
    ensures var node, found := heap[v.node], TreeChild(Sanitized(heap, path, v), Key(key));
            if key != "details" then ShowsPlain(node.props, node.shown, key, found)
            else if key in node.props && !node.props[key].Undefined?
              then found == (DetailsKnown(heap, v); Some(Sanitized(heap, path + [v.node], node.props[key])))
            else found == None
  {
    var props, shown := heap[v.node].props, heap[v.node].shown;
    EnteredIsExpanded(heap, path, v);
    DetailsKnown(heap, v);
    var details := Details(heap, path + [v.node], Prop(props, "details"));
    if Prop(props, "details").Undefined? {
      LookupOne("details", CIRCULAR, key);
    } else {
      LookupOne("details", Sanitized(heap, path + [v.node], Prop(props, "details")), key);
    }
    hide Closed, Sanitized, LookupField, Headline, PlainFields;
    LookupInHeadline(props, shown, key);
    LookupInPlainFields(props, shown, key);
    LookupConcat(Headline(props, shown), PlainFields(props), key);
    LookupConcat(Headline(props, shown) + PlainFields(props), details, key);
  }

  lemma DetailsKnown(heap: Heap, v: Value)
    requires Closed(heap) && Known(heap, v) && v.Ref? && heap[v.node].ErrorNode?
    ensures forall k :: k in heap[v.node].props ==> Known(heap, heap[v.node].props[k])
  {
    assert KnownChildren(heap, heap[v.node]);
  }

  // ----- the copy along a walk -----

  /** A part of the copy that is the copy of the child. */
  ghost predicate CopiedChild(heap: Heap, inner: seq<NodeId>, child: Option<Value>, step: Step, t: Tree)
    requires Closed(heap) && (child.Some? ==> Known(heap, child.value))
  {
    child.Some? && Open(step) && t == Sanitized(heap, inner, child.value)
  }

  predicate Censored(step: Step, t: Tree) {
    step.Key? && IsSensitiveKey(step.key) && t == Leaf(Str("[REDACTED]"))
  }

  lemma ChildOfCopy(heap: Heap, path: seq<NodeId>, v: Value, step: Step)
    requires Closed(heap) && Known(heap, v) && Enters(heap, path, v)
    requires var child := Child(heap, v, step); child.Some? ==> Known(heap, child.value)
    ensures var inner, child, part := path + [v.node], Child(heap, v, step), TreeChild(Sanitized(heap, path, v), step);
            && (child.Some? && Open(step) ==> part == Some(Sanitized(heap, inner, child.value)))
            && (part.Some? ==>
                  || CopiedChild(heap, inner, child, step, part.value)
                  || Censored(step, part.value)
                  || (heap[v.node].ErrorNode? && part.value.Leaf?))
  {
    EnteredIsExpanded(heap, path, v);
    hide Closed, Sanitized, IsSensitiveKey, IsProto, LookupField, Lookup;
    var inner, node := path + [v.node], heap[v.node];
    match node
    case ErrorNode(props, shown) =>
      if step.Key? {
        LookupInError(heap, inner, props, shown, step.key);
        DetailsIsOpen();
      }
    case ArrayNode(items) =>
    case ObjectNode(entries) =>
      if step.Key? {
        LookupInFields(heap, inner, entries, step.key);
      }
  }

  lemma DetailsIsOpen()
    ensures Open(Key("details"))
  {
    ErrorFieldNames();
    ErrorFieldsAreNotSensitive("details");
  }

  ghost predicate AllOpen(steps: seq<Step>) {
    forall i :: 0 <= i < |steps| ==> Open(steps[i])
  }

  /** A walk that the copy follows to its end: no step censored, no node met twice before the end, not too deep. */
  ghost predicate Followed(heap: Heap, v: Value, steps: seq<Step>)
    requires Closed(heap) && Known(heap, v)
  {
    && Walk(heap, v, steps).Some? && AllOpen(steps)
    && Distinct(Walk(heap, v, steps).value.0) && |steps| <= MAX_DETAIL_DEPTH
  }

  lemma FollowedFront(heap: Heap, v: Value, steps: seq<Step>)
    requires Closed(heap) && Known(heap, v) && Followed(heap, v, steps) && steps != []
    ensures var front := steps[..|steps| - 1];
            && Followed(heap, v, front)
            && var (nodes, u) := Walk(heap, v, front).value;
            && u.Ref? && u.node !in nodes && |nodes| < MAX_DETAIL_DEPTH
            && Child(heap, u, steps[|steps| - 1]).Some?
            && Walk(heap, v, steps).value == (nodes + [u.node], Child(heap, u, steps[|steps| - 1]).value)
            && Open(steps[|steps| - 1])
  {
    hide Closed, Open;
    var front := steps[..|steps| - 1];
    var (nodes, u) := Walk(heap, v, front).value;
    var all := nodes + [u.node];
    assert Distinct(all);
    forall i, j | 0 <= i < j < |nodes| ensures nodes[i] != nodes[j] {
      assert all[i] == nodes[i] && all[j] == nodes[j];
    }
    forall i | 0 <= i < |nodes| ensures nodes[i] != u.node {
      assert all[i] == nodes[i] && all[|nodes|] == u.node;
    }
  }

  /** Along a walk the copy shows the copy of what is reached, below the nodes passed through. */
  lemma {:induction false} CopyAlongWalk(heap: Heap, v: Value, steps: seq<Step>)
    requires Closed(heap) && Known(heap, v) && Followed(heap, v, steps)
    ensures var (nodes, w) := Walk(heap, v, steps).value;
            TreeAt(Sanitized(heap, [], v), steps) == Some(Sanitized(heap, nodes, w))
  {
    if steps != [] {
      FollowedFront(heap, v, steps);
      hide Closed, Sanitized, Followed, Walk, Child, TreeChild, Open;
      var front := steps[..|steps| - 1];
      CopyAlongWalk(heap, v, front);
      var (nodes, u) := Walk(heap, v, front).value;
      assert Enters(heap, nodes, u) by { DatesHaveNoChildren(heap, u, steps[|steps| - 1]); }
      ChildKnown(heap, u, steps[|steps| - 1]);
      ChildOfCopy(heap, nodes, u, steps[|steps| - 1]);
    }
  }

  lemma DatesHaveNoChildren(heap: Heap, u: Value, step: Step)
    requires Known(heap, u) && Child(heap, u, step).Some?
    ensures u.Ref? && !heap[u.node].DateNode?
  {
  }

  /** At the end of any walk a date shows its ISO text, at any depth, and whatever is no object shows itself. */
  lemma LeavesAlongWalk(heap: Heap, v: Value, steps: seq<Step>)
    requires Closed(heap) && Known(heap, v) && Followed(heap, v, steps)
    ensures var (w, shown) := (Walk(heap, v, steps).value.1, TreeAt(Sanitized(heap, [], v), steps));
            && (!w.Ref? ==> shown == Some(Leaf(w)))
            && (w.Ref? && heap[w.node].DateNode? ==> shown == Some(Leaf(Str(heap[w.node].iso))))
  {
    CopyAlongWalk(heap, v, steps);
    hide Closed, Walk, TreeAt, Followed;
  }

  lemma MarksAt(heap: Heap, path: seq<NodeId>, v: Value)
    requires Closed(heap) && Known(heap, v) && v.Ref? && !heap[v.node].DateNode?
    ensures var shown := Sanitized(heap, path, v);
            && (shown == Leaf(Str("[CIRCULAR]")) <==> |path| < MAX_DETAIL_DEPTH && v.node in path)
            && (shown == Leaf(Str("[TRUNCATED]")) <==> |path| >= MAX_DETAIL_DEPTH)
            && (!shown.Leaf? <==> |path| < MAX_DETAIL_DEPTH && v.node !in path)
  {
    EnteredIsExpanded(heap, path, v);
    assert "[CIRCULAR]"[1] != "[TRUNCATED]"[1];
    hide Closed, KnownChildren;
  }

  /**
   * Where the marks are: a container reached by a walk shows as `[CIRCULAR]` exactly when it is among its own
   * ancestors on that walk, less than four deep, as `[TRUNCATED]` exactly four deep, and is copied otherwise.
   */
  lemma MarksAreExact(heap: Heap, v: Value, steps: seq<Step>)
    requires Closed(heap) && Known(heap, v) && Followed(heap, v, steps)
    requires var w := Walk(heap, v, steps).value.1; w.Ref? && !heap[w.node].DateNode?
    ensures var (nodes, w) := Walk(heap, v, steps).value;
            var shown := TreeAt(Sanitized(heap, [], v), steps);
            && (shown == Some(Leaf(Str("[CIRCULAR]"))) <==> |steps| < 4 && w.node in nodes)
            && (shown == Some(Leaf(Str("[TRUNCATED]"))) <==> |steps| == 4)
            && (shown.Some? && !shown.value.Leaf? <==> |steps| < 4 && w.node !in nodes)
  {
    CopyAlongWalk(heap, v, steps);
    var (nodes, w) := Walk(heap, v, steps).value;
    MarksAt(heap, nodes, w);
    assert |steps| <= MAX_DETAIL_DEPTH;
    hide Closed, Known, Walk, TreeAt, Followed, Sanitized;
  }

  /** Text that an error shows in its own words. */
  ghost predicate ErrorText(heap: Heap, v: Value, steps: seq<Step>, t: Tree)
    requires Closed(heap) && Known(heap, v) && steps != []
  {
    var front := Walk(heap, v, steps[..|steps| - 1]);
    t.Leaf? && front.Some? && front.value.1.Ref? && heap[front.value.1.node].ErrorNode?
  }

  ghost predicate OnWalk(heap: Heap, v: Value, steps: seq<Step>, t: Tree)
    requires Closed(heap) && Known(heap, v)
  {
    Followed(heap, v, steps) && t == Sanitized(heap, Walk(heap, v, steps).value.0, Walk(heap, v, steps).value.1)
  }

  /**
   * The copy shows nothing else: every part of it lies on a walk, or is a censored field, or is text that an
   * error shows of itself. So a `[CIRCULAR]` that no string, error or date contains is an ancestor met again.
   */
  lemma {:induction false} EveryPartIsExplained(heap: Heap, v: Value, steps: seq<Step>, t: Tree)
    requires Closed(heap) && Known(heap, v) && TreeAt(Sanitized(heap, [], v), steps) == Some(t)
    ensures OnWalk(heap, v, steps, t) || (steps != [] && (Censored(steps[|steps| - 1], t) || ErrorText(heap, v, steps, t)))
  {
    if steps != [] {
      var front, step := steps[..|steps| - 1], steps[|steps| - 1];
      var u := TreeAt(Sanitized(heap, [], v), front).value;
      EveryPartIsExplained(heap, v, front, u);
      assert TreeChild(u, step) == Some(t) && !u.Leaf?;
      assert OnWalk(heap, v, front, u);
      PartIsExplained(heap, v, steps, u, t);
    }
  }

  lemma PartIsExplained(heap: Heap, v: Value, steps: seq<Step>, u: Tree, t: Tree)
    requires Closed(heap) && Known(heap, v) && steps != [] && OnWalk(heap, v, steps[..|steps| - 1], u)
    requires TreeChild(u, steps[|steps| - 1]) == Some(t)
    ensures OnWalk(heap, v, steps, t) || Censored(steps[|steps| - 1], t) || ErrorText(heap, v, steps, t)
  {
    var front, step := steps[..|steps| - 1], steps[|steps| - 1];
    var (nodes, w) := Walk(heap, v, front).value;
    EnteredIsExpanded(heap, nodes, w);
    assert Enters(heap, nodes, w);
    ChildKnown(heap, w, step);
    ChildOfCopy(heap, nodes, w, step);
    if CopiedChild(heap, nodes + [w.node], Child(heap, w, step), step, t) {
      WalkOnward(heap, v, steps);
    }
  }

  lemma WalkOnward(heap: Heap, v: Value, steps: seq<Step>)
    requires Closed(heap) && Known(heap, v) && steps != []
    requires Followed(heap, v, steps[..|steps| - 1]) && Open(steps[|steps| - 1])
    requires var (nodes, u) := Walk(heap, v, steps[..|steps| - 1]).value;
             Enters(heap, nodes, u) && Child(heap, u, steps[|steps| - 1]).Some?
    ensures Followed(heap, v, steps)
  {
    hide Closed, Open, Child;
    var front := steps[..|steps| - 1];
    var (nodes, u) := Walk(heap, v, front).value;
    assert Distinct(nodes + [u.node]);
  }
}
