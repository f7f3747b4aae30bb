/**
 The evaluator for compiled compliance rules: JSON values, the JSON-Logic node shapes the rule
 compiler emits, and evaluation with its outcomes "missing fact", "unsupported node" and (where
 the original raises a type or attribute error that nobody catches) "crash".
 */
module JsonLogic {
  import opened Prelude
  import opened Strings
  import opened Sorting

  datatype Json =
    | Null
    | Bool(b: bool)
    | Num(n: real)
    | Str(s: string)
    | Arr(items: seq<Json>)
    | Obj(fields: seq<Field>)

  /** One key of a dictionary with its value; dictionaries keep insertion order. */
  datatype Field = Field(key: string, value: Json)

  predicate HasKey(fields: seq<Field>, key: string) {
    fields != [] && (fields[0].key == key || HasKey(fields[1..], key))
  }

  function Get(fields: seq<Field>, key: string): (v: Json)
    requires HasKey(fields, key)
  {
    if fields[0].key == key then fields[0].value else Get(fields[1..], key)
  }

  predicate Truthy(v: Json) {
    match v
    case Null => false
    case Bool(b) => b
    case Num(n) => n != 0.0
    case Str(s) => s != ""
    case Arr(items) => items != []
    case Obj(fields) => fields != []
  }

  // ----- Comparison -----

  /** Booleans are the integers 0 and 1. */
  predicate Numeric(v: Json) {
    v.Bool? || v.Num?
  }

  function AsNumber(v: Json): real
    requires Numeric(v)
  {
    match v
    case Bool(b) => if b then 1.0 else 0.0
    case Num(n) => n
  }

  predicate PyEqual(a: Json, b: Json)
    decreases a
  {
    match a
    case Null => b.Null?
    case Bool(_) => Numeric(b) && AsNumber(a) == AsNumber(b)
    case Num(_) => Numeric(b) && AsNumber(a) == AsNumber(b)
    case Str(s) => b.Str? && s == b.s
    case Arr(items) =>
      b.Arr? && |items| == |b.items| && forall i :: 0 <= i < |items| ==> PyEqual(items[i], b.items[i])
    case Obj(fields) =>
      b.Obj? && |fields| == |b.fields|
      && forall i :: 0 <= i < |fields| ==>
           HasKey(b.fields, fields[i].key) && PyEqual(fields[i].value, Get(b.fields, fields[i].key))
  }

  datatype Op = Ge | Gt | Le | Lt

  predicate HoldsReal(op: Op, a: real, b: real) {
    match op case Ge => a >= b case Gt => a > b case Le => a <= b case Lt => a < b
  }

  predicate HoldsString(op: Op, a: string, b: string) {
    match op
    case Ge => StringLeq(b, a)
    case Gt => StringLeq(b, a) && a != b
    case Le => StringLeq(a, b)
    case Lt => StringLeq(a, b) && a != b
  }

  /** An order comparison; `None` where the operands have no order (a type error). */
  function Compare(op: Op, a: Json, b: Json): Option<bool>
    decreases a, 1
  {
    if Numeric(a) && Numeric(b) then Some(HoldsReal(op, AsNumber(a), AsNumber(b)))
    else if a.Str? && b.Str? then Some(HoldsString(op, a.s, b.s))
    else if a.Arr? && b.Arr? then CompareLists(op, a.items, b.items)
    else None
  }

  function CompareLists(op: Op, a: seq<Json>, b: seq<Json>): Option<bool>
    decreases a, 0
  {
    if a == [] || b == [] then Some(HoldsReal(op, |a| as real, |b| as real))
    else if PyEqual(a[0], b[0]) then CompareLists(op, a[1..], b[1..])
    else Compare(op, a[0], b[0])
  }

  predicate Substring(s: string, t: string) {
    s <= t || (t != [] && Substring(s, t[1..]))
  }

  /** `needle in haystack`; `None` for a type error. */
  function Member(needle: Json, haystack: Json): Option<bool> {
    match haystack
    case Arr(items) => Some(exists i :: 0 <= i < |items| && PyEqual(needle, items[i]))
    case Str(t) => if needle.Str? then Some(Substring(needle.s, t)) else None
    case Obj(fields) => if needle.Arr? || needle.Obj? then None else Some(needle.Str? && HasKey(fields, needle.s))
    case _ => None
  }

  // ----- Evaluation -----

  datatype Outcome = Value(v: Json) | Missing(path: string) | Unsupported | Crash

  datatype Items = Values(vs: seq<Json>) | Stopped(outcome: Outcome)

  /** `path.split(".")`. */
  function Split(path: string): (parts: seq<string>)
    ensures parts != []
  {
    if path == "" then [""]
    else
      var rest := Split(path[1..]);
      if path[0] == '.' then [""] + rest else [[path[0]] + rest[0]] + rest[1..]
  }

  function Resolve(parts: seq<string>, node: Json): Option<Json> {
    if parts == [] then Some(node)
    else if node.Obj? && HasKey(node.fields, parts[0]) then Resolve(parts[1..], Get(node.fields, parts[0]))
    else None
  }

  function Fact(path: string, data: Json): Option<Json> {
    Resolve(Split(path), data)
  }

  method ResolveVar(path: string, data: Json) returns (r: Outcome)
    ensures r == match Fact(path, data) { case Some(v) => Value(v) case None => Missing(path) }
  {
    var node := data;
    var parts := Split(path);
    for i := 0 to |parts|
      invariant Resolve(parts[i..], node) == Fact(path, data)
    {
      assert parts[i..][1..] == parts[i + 1..];
      if !node.Obj? || !HasKey(node.fields, parts[i]) {
        return Missing(path);
      }
      node := Get(node.fields, parts[i]);
    }
    return Value(node);
  }

  function Lift(r: Option<bool>): Outcome {
    match r case Some(b) => Value(Bool(b)) case None => Crash
  }

  const BINARY := ["in", "==", ">=", ">", "<=", "<"]

  function Apply(operator: string, left: Json, right: Json): Outcome {
    if operator == "in" then Lift(Member(left, right))
    else if operator == "==" then Value(Bool(PyEqual(left, right)))
    else if operator == ">=" then Lift(Compare(Ge, left, right))
    else if operator == ">" then Lift(Compare(Gt, left, right))
    else if operator == "<=" then Lift(Compare(Le, left, right))
    else if operator == "<" then Lift(Compare(Lt, left, right))
    else Unsupported
  }

  function Eval(node: Json, data: Json): Outcome
    decreases node, 1
  {
    match node
    case Arr(items) =>
      (match EvalItems(items, data) case Values(vs) => Value(Arr(vs)) case Stopped(o) => o)
    case Obj(fields) =>
      if |fields| != 1 then Unsupported
      else
        var Field(operator, operands) := fields[0];
        if operator == "var" then
          if !operands.Str? then Crash
          else (match Fact(operands.s, data) case Some(v) => Value(v) case None => Missing(operands.s))
        else if operator == "and" then
          if !operands.Arr? then Unsupported else EvalAll(operands.items, data)
        else if operator in BINARY then
          if !(operands.Arr? && |operands.items| == 2) then Unsupported
          else
            var left := Eval(operands.items[0], data);
            if !left.Value? then left
            else
              var right := Eval(operands.items[1], data);
              if !right.Value? then right else Apply(operator, left.v, right.v)
        else Unsupported
    case _ => Value(node)
  }

  /** A list literal: every item in turn, up to the first that has no value. */
  function EvalItems(items: seq<Json>, data: Json): (r: Items)
    ensures r.Stopped? ==> !r.outcome.Value?
    decreases items, 0
  {
    if items == [] then Values([])
    else
      var first := Eval(items[0], data);
      if !first.Value? then Stopped(first)
      else
        match EvalItems(items[1..], data)
        case Values(vs) => Values([first.v] + vs)
        case Stopped(o) => Stopped(o)
  }

  /** `all(...)`: in turn, up to the first that is not true. */
  function EvalAll(children: seq<Json>, data: Json): Outcome
    decreases children, 0
  {
    if children == [] then Value(Bool(true))
    else
      var first := Eval(children[0], data);
      if !first.Value? then first
      else if !Truthy(first.v) then Value(Bool(false))
      else EvalAll(children[1..], data)
  }

  // ----- Shapes -----

  /** A value, a list, or a dictionary of one operator with the operands it takes. */
  predicate WellShaped(node: Json) {
    node.Obj? ==>
      && |node.fields| == 1
      && var Field(operator, operands) := node.fields[0];
         || operator == "var"
         || (operator == "and" && operands.Arr?)
         || (operator in ["==", "in", ">=", ">", "<=", "<"] && operands.Arr? && |operands.items| == 2)
  }

  /** Well shaped itself and in every operand that evaluation may reach. */
  predicate ShapedThroughout(node: Json)
    decreases node
  {
    && WellShaped(node)
    && match node
       case Arr(items) => forall i :: 0 <= i < |items| ==> ShapedThroughout(items[i])
       case Obj(fields) =>
         var Field(operator, operands) := fields[0];
         operator == "var" || forall i :: 0 <= i < |operands.items| ==> ShapedThroughout(operands.items[i])
       case _ => true
  }

  /** Any other node is not supported, whatever the facts: several operators or none, an unknown one, or wrong operands. */
  lemma IllShapedIsUnsupported(node: Json, data: Json)
    requires !WellShaped(node)
    ensures Eval(node, data) == Unsupported
  {
  }

  /** And nothing else is: a rule well shaped throughout never evaluates to "unsupported". */
  lemma {:induction false} ShapedIsSupported(node: Json, data: Json)
    requires ShapedThroughout(node)
    ensures !Eval(node, data).Unsupported?
    decreases node, 1
  {
    hide Fact, Compare, PyEqual, Member;
    match node
    case Arr(items) => ShapedItems(items, data);
    case Obj(fields) =>
      var Field(operator, operands) := fields[0];
      if operator == "and" {
        ShapedAll(operands.items, data);
      } else if operator != "var" {
        ShapedIsSupported(operands.items[0], data);
        ShapedIsSupported(operands.items[1], data);
      }
    case _ =>
  }

  lemma {:induction false} ShapedItems(items: seq<Json>, data: Json)
    requires forall i :: 0 <= i < |items| ==> ShapedThroughout(items[i])
    ensures var r := EvalItems(items, data); r.Stopped? ==> !r.outcome.Unsupported?
    decreases items, 0
  {
    if items != [] {
      ShapedIsSupported(items[0], data);
      ShapedItems(items[1..], data);
    }
  }

  lemma {:induction false} ShapedAll(children: seq<Json>, data: Json)
    requires forall i :: 0 <= i < |children| ==> ShapedThroughout(children[i])
    ensures !EvalAll(children, data).Unsupported?
    decreases children, 0
  {
    if children != [] {
      ShapedIsSupported(children[0], data);
      ShapedAll(children[1..], data);
    }
  }

  /** The values that do not count as true. */
  lemma FalseValues(v: Json)
    ensures !Truthy(v) <==> v in {Null, Bool(false), Num(0.0), Str(""), Arr([]), Obj([])}
  {
  }

  /** Strings compare in code point order. */
  lemma StringsCompare(x: string, y: string)
    ensures Apply("==", Str(x), Str(y)) == Value(Bool(x == y))
    ensures Apply("<=", Str(x), Str(y)) == Value(Bool(StringLeq(x, y)))
    ensures Apply(">=", Str(x), Str(y)) == Value(Bool(StringLeq(y, x)))
    ensures Apply("<", Str(x), Str(y)) == Value(Bool(!StringLeq(y, x)))
    ensures Apply(">", Str(x), Str(y)) == Value(Bool(!StringLeq(x, y)))
  {
    StringLeqTotal(x, y);
    hide StringLeq;
  }

  ghost predicate OccursAt(s: string, t: string, i: nat) {
    i + |s| <= |t| && t[i..i + |s|] == s
  }

  lemma {:induction false} SubstringExactly(s: string, t: string)
    ensures Substring(s, t) <==> exists i: nat :: OccursAt(s, t, i)
  {
    if s <= t {
      assert OccursAt(s, t, 0);
    } else if t != [] {
      SubstringExactly(s, t[1..]);
      if i: nat :| OccursAt(s, t[1..], i) {
        assert t[1..][i..i + |s|] == t[i + 1..i + 1 + |s|];
        assert OccursAt(s, t, i + 1);
      }
      if i: nat :| OccursAt(s, t, i) {
        assert i > 0;
        assert t[1..][i - 1..i - 1 + |s|] == t[i..i + |s|];
        assert OccursAt(s, t[1..], i - 1);
      }
    }
  }

  /** `in` by kind of haystack: an equal item, a substring, a key; anything else is a type error. */
  lemma MembershipExactly(needle: Json, haystack: Json)
    ensures haystack.Arr? ==>
              (Apply("in", needle, haystack) == Value(Bool(true)) <==> exists v :: v in haystack.items && PyEqual(needle, v))
              && Apply("in", needle, haystack).Value?
    ensures haystack.Str? && needle.Str? ==>
              (Apply("in", needle, haystack) == Value(Bool(true)) <==> exists i: nat :: OccursAt(needle.s, haystack.s, i))
              && Apply("in", needle, haystack).Value?
    ensures haystack.Obj? && needle.Str? ==>
              Apply("in", needle, haystack) == Value(Bool(HasKey(haystack.fields, needle.s)))
    ensures haystack.Null? || Numeric(haystack) || (haystack.Str? && !needle.Str?) ==> Apply("in", needle, haystack) == Crash
  {
    hide PyEqual, HasKey, Substring;
    if haystack.Str? && needle.Str? {
      SubstringExactly(needle.s, haystack.s);
    }
    if haystack.Arr? {
      if v :| v in haystack.items && PyEqual(needle, v) {
        var i :| 0 <= i < |haystack.items| && haystack.items[i] == v;
      }
    }
  }

  /** Lists compare by their first difference, or by length if there is none. */
  lemma {:induction false} ListsCompareAtFirstDifference(op: Op, a: seq<Json>, b: seq<Json>, k: nat)
    requires k <= |a| && k <= |b| && forall i :: 0 <= i < k ==> PyEqual(a[i], b[i])
    ensures k < |a| && k < |b| && !PyEqual(a[k], b[k]) ==> CompareLists(op, a, b) == Compare(op, a[k], b[k])
    ensures k == |a| || k == |b| ==> CompareLists(op, a, b) == Some(HoldsReal(op, |a| as real, |b| as real))
  {
    if k > 0 {
      hide PyEqual;
      ListsCompareAtFirstDifference(op, a[1..], b[1..], k - 1);
      assert a[1..][k - 1..] == a[k..] && b[1..][k - 1..] == b[k..];
      SameDifference(op, |a|, |b|);
    }
  }

  lemma SameDifference(op: Op, m: nat, n: nat)
    requires m > 0 && n > 0
    ensures HoldsReal(op, (m - 1) as real, (n - 1) as real) == HoldsReal(op, m as real, n as real)
  {
  }

  // ----- What an outcome depends on -----

  /** `path` occurs in a `var` that evaluation may reach. */
  predicate Names(node: Json, path: string)
    decreases node
  {
    match node
    case Arr(items) => exists i :: 0 <= i < |items| && Names(items[i], path)
    case Obj(fields) =>
      && |fields| == 1
      && var Field(operator, operands) := fields[0];
         if operator == "var" then operands.Str? && operands.s == path
         else operands.Arr? && exists i :: 0 <= i < |operands.items| && Names(operands.items[i], path)
    case _ => false
  }

  ghost predicate NamesAny(items: seq<Json>, path: string) {
    exists i :: 0 <= i < |items| && Names(items[i], path)
  }

  /** Every fact in `known` that the node names has the same value in `data`. */
  ghost predicate Keeps(node: Json, known: Json, data: Json) {
    forall path :: Names(node, path) ==> Fact(path, known).None? || Fact(path, known) == Fact(path, data)
  }

  ghost predicate KeepsAll(items: seq<Json>, known: Json, data: Json) {
    forall i :: 0 <= i < |items| ==> Keeps(items[i], known, data)
  }

  lemma {:induction false} StableEval(node: Json, known: Json, data: Json)
    requires Keeps(node, known, data)
    ensures !Eval(node, known).Missing? ==> Eval(node, data) == Eval(node, known)
    decreases node, 1
  {
    hide Apply, Fact;
    match node
    case Arr(items) =>
      assert KeepsAll(items, known, data);
      StableItems(items, known, data);
    case Obj(fields) =>
      if |fields| == 1 {
        var Field(operator, operands) := fields[0];
        if operator == "var" {
          assert operands.Str? ==> Names(node, operands.s);
        } else if operands.Arr? {
          assert KeepsAll(operands.items, known, data);
          if operator == "and" {
            StableAll(operands.items, known, data);
          } else if |operands.items| == 2 {
            StableEval(operands.items[0], known, data);
            StableEval(operands.items[1], known, data);
          }
        }
      }
    case _ =>
  }

  lemma {:induction false} StableItems(items: seq<Json>, known: Json, data: Json)
    requires KeepsAll(items, known, data)
    ensures var r := EvalItems(items, known);
            !(r.Stopped? && r.outcome.Missing?) ==> EvalItems(items, data) == r
    decreases items, 0
  {
    if items != [] {
      StableEval(items[0], known, data);
      StableItems(items[1..], known, data);
    }
  }

  lemma {:induction false} StableAll(children: seq<Json>, known: Json, data: Json)
    requires KeepsAll(children, known, data)
    ensures !EvalAll(children, known).Missing? ==> EvalAll(children, data) == EvalAll(children, known)
    decreases children, 0
  {
    if children != [] {
      StableEval(children[0], known, data);
      StableAll(children[1..], known, data);
    }
  }

  /** A reported missing path is named by the node and truly absent. */
  lemma {:induction false} MissingIsNamedAndAbsent(node: Json, data: Json)
    ensures Eval(node, data).Missing? ==> Names(node, Eval(node, data).path) && Fact(Eval(node, data).path, data).None?
    decreases node, 1
  {
    hide Fact;
    match node
    case Arr(items) => MissingAmongItems(items, data);
    case Obj(fields) =>
      if |fields| == 1 {
        var Field(operator, operands) := fields[0];
        if operator != "var" && operands.Arr? {
          MissingAmongAll(operands.items, data);
          if |operands.items| == 2 {
            MissingIsNamedAndAbsent(operands.items[0], data);
            MissingIsNamedAndAbsent(operands.items[1], data);
          }
        }
      }
    case _ =>
  }

  lemma {:induction false} MissingAmongItems(items: seq<Json>, data: Json)
    ensures var r := EvalItems(items, data);
            r.Stopped? && r.outcome.Missing? ==> NamesAny(items, r.outcome.path) && Fact(r.outcome.path, data).None?
    decreases items, 0
  {
    if items != [] {
      MissingIsNamedAndAbsent(items[0], data);
      MissingAmongItems(items[1..], data);
      NamesTail(items);
    }
  }

  lemma {:induction false} MissingAmongAll(children: seq<Json>, data: Json)
    ensures var r := EvalAll(children, data);
            r.Missing? ==> NamesAny(children, r.path) && Fact(r.path, data).None?
    decreases children, 0
  {
    if children != [] {
      MissingIsNamedAndAbsent(children[0], data);
      MissingAmongAll(children[1..], data);
      NamesTail(children);
    }
  }

  lemma NamesTail(items: seq<Json>)
    requires items != []
    ensures forall path :: NamesAny(items[1..], path) ==> NamesAny(items, path)
  {
    forall path | NamesAny(items[1..], path)
      ensures NamesAny(items, path)
    {
      var i :| 0 <= i < |items[1..]| && Names(items[1..][i], path);
      assert Names(items[i + 1], path);
    }
  }

  /** The facts a node names have the same values, or are absent, in both documents. */
  ghost predicate AgreeOnNamed(node: Json, a: Json, b: Json) {
    forall path :: Names(node, path) ==> Fact(path, a) == Fact(path, b)
  }

  /** The outcome, reported path included, depends on nothing but the named facts. */
  lemma {:induction false} DependsOnNamedFacts(node: Json, a: Json, b: Json)
    requires AgreeOnNamed(node, a, b)
    ensures Eval(node, a) == Eval(node, b)
    decreases node, 1
  {
    hide Apply, Fact;
    match node
    case Arr(items) =>
      forall i | 0 <= i < |items|
        ensures AgreeOnNamed(items[i], a, b)
      {
      }
      ItemsDependOnNamed(items, a, b);
    case Obj(fields) =>
      if |fields| == 1 {
        var Field(operator, operands) := fields[0];
        if operator == "var" {
          assert operands.Str? ==> Names(node, operands.s);
        } else if operands.Arr? {
          forall i | 0 <= i < |operands.items|
            ensures AgreeOnNamed(operands.items[i], a, b)
          {
          }
          AllDependsOnNamed(operands.items, a, b);
          if |operands.items| == 2 {
            DependsOnNamedFacts(operands.items[0], a, b);
            DependsOnNamedFacts(operands.items[1], a, b);
          }
        }
      }
    case _ =>
  }

  lemma {:induction false} ItemsDependOnNamed(items: seq<Json>, a: Json, b: Json)
    requires forall i :: 0 <= i < |items| ==> AgreeOnNamed(items[i], a, b)
    ensures EvalItems(items, a) == EvalItems(items, b)
    decreases items, 0
  {
    if items != [] {
      DependsOnNamedFacts(items[0], a, b);
      ItemsDependOnNamed(items[1..], a, b);
    }
  }

  lemma {:induction false} AllDependsOnNamed(children: seq<Json>, a: Json, b: Json)
    requires forall i :: 0 <= i < |children| ==> AgreeOnNamed(children[i], a, b)
    ensures EvalAll(children, a) == EvalAll(children, b)
    decreases children, 0
  {
    if children != [] {
      DependsOnNamedFacts(children[0], a, b);
      AllDependsOnNamed(children[1..], a, b);
    }
  }

  // ----- More facts -----

  /** `b` is `a` with keys added to dictionaries, at any depth; everything else is unchanged. */
  predicate Extends(a: Json, b: Json)
    decreases a
  {
    if !a.Obj? then a == b
    else
      b.Obj? && forall i :: 0 <= i < |a.fields| ==>
        && HasKey(b.fields, a.fields[i].key)
        && Extends(a.fields[i].value, Get(b.fields, a.fields[i].key))
  }

  lemma {:induction false} KeyAtIndex(fields: seq<Field>, key: string) returns (i: nat)
    requires HasKey(fields, key)
    ensures i < |fields| && fields[i].key == key && fields[i].value == Get(fields, key)
  {
    if fields[0].key == key {
      i := 0;
    } else {
      i := KeyAtIndex(fields[1..], key);
      i := i + 1;
    }
  }

  lemma {:induction false} ExtensionKeepsPaths(parts: seq<string>, a: Json, b: Json)
    requires Extends(a, b) && Resolve(parts, a).Some?
    ensures Resolve(parts, b).Some? && Extends(Resolve(parts, a).value, Resolve(parts, b).value)
    decreases |parts|
  {
    if parts != [] {
      var i := KeyAtIndex(a.fields, parts[0]);
      ExtensionKeepsPaths(parts[1..], Get(a.fields, parts[0]), Get(b.fields, parts[0]));
    }
  }

  /** No fact the node names is itself a dictionary. */
  ghost predicate LeafFacts(node: Json, data: Json) {
    forall path :: Names(node, path) && Fact(path, data).Some? ==> !Fact(path, data).value.Obj?
  }

  /** Adding facts never changes an outcome other than "missing": value, unsupported node or crash. */
  lemma AddingFactsKeepsOutcome(node: Json, data: Json, more: Json)
    requires Extends(data, more) && LeafFacts(node, data)
    ensures !Eval(node, data).Missing? ==> Eval(node, more) == Eval(node, data)
  {
    forall path | Names(node, path) && Fact(path, data).Some?
      ensures Fact(path, data) == Fact(path, more)
    {
      ExtensionKeepsPaths(Split(path), data, more);
    }
    StableEval(node, data, more);
  }

  // ----- Conjunctions -----

  function And(children: seq<Json>): Json {
    Obj([Field("and", Arr(children))])
  }

  predicate IsAnd(node: Json) {
    node.Obj? && |node.fields| == 1 && node.fields[0].key == "and" && node.fields[0].value.Arr?
  }

  function Flatten(children: seq<Json>): seq<Json>
    decreases children
  {
    if children == [] then []
    else
      (if IsAnd(children[0]) then Flatten(children[0].fields[0].value.items) else [children[0]])
      + Flatten(children[1..])
  }

  lemma {:induction false} FlattenIsFlat(children: seq<Json>)
    ensures forall i :: 0 <= i < |Flatten(children)| ==> !IsAnd(Flatten(children)[i])
    decreases children
  {
    if children != [] {
      if IsAnd(children[0]) {
        FlattenIsFlat(children[0].fields[0].value.items);
      }
      FlattenIsFlat(children[1..]);
    }
  }

  lemma {:induction false} AllAppend(a: seq<Json>, b: seq<Json>, data: Json)
    ensures EvalAll(a + b, data)
         == if EvalAll(a, data) == Value(Bool(true)) then EvalAll(b, data) else EvalAll(a, data)
    decreases |a|
  {
    if a == [] {
      assert a + b == b;
    } else {
      assert (a + b)[1..] == a[1..] + b;
      AllAppend(a[1..], b, data);
    }
  }

  lemma {:induction false} AllIsBoolean(children: seq<Json>, data: Json)
    ensures EvalAll(children, data).Value? ==> EvalAll(children, data).v.Bool?
    decreases |children|
  {
    if children != [] {
      AllIsBoolean(children[1..], data);
    }
  }

  /** Flattening nested conjunctions, whatever their leaves, changes no outcome and no reported path. */
  lemma {:induction false} FlattenKeepsOutcome(children: seq<Json>, data: Json)
    ensures EvalAll(Flatten(children), data) == EvalAll(children, data)
    decreases children
  {
    if children != [] {
      var first, rest := children[0], children[1..];
      FlattenKeepsOutcome(rest, data);
      if IsAnd(first) {
        var inner := first.fields[0].value.items;
        FlattenKeepsOutcome(inner, data);
        AllIsBoolean(inner, data);
        AllAppend(Flatten(inner), Flatten(rest), data);
      } else {
        AllAppend([first], Flatten(rest), data);
        assert [first] + Flatten(rest) == Flatten(children);
        assert [first][1..] == [];
      }
    }
  }

  predicate Satisfied(node: Json, data: Json) {
    Eval(node, data).Value? && Truthy(Eval(node, data).v)
  }

  /** What a conjunction reports for its first leaf that is not satisfied. */
  function Failure(node: Json, data: Json): Outcome {
    if Eval(node, data).Value? then Value(Bool(false)) else Eval(node, data)
  }

  /** A conjunction holds exactly when all leaves do; otherwise its first failing leaf decides. */
  lemma {:induction false} FirstFailureDecides(children: seq<Json>, data: Json)
    ensures EvalAll(children, data) == Value(Bool(true)) <==> forall c :: c in children ==> Satisfied(c, data)
    ensures EvalAll(children, data) != Value(Bool(true)) ==>
              exists i :: && 0 <= i < |children| && !Satisfied(children[i], data)
                          && (forall j :: 0 <= j < i ==> Satisfied(children[j], data))
                          && EvalAll(children, data) == Failure(children[i], data)
    decreases |children|
  {
    hide Eval;
    if children != [] {
      var rest := children[1..];
      FirstFailureDecides(rest, data);
      assert children == [children[0]] + rest;
      if !Satisfied(children[0], data) {
        assert EvalAll(children, data) == Failure(children[0], data);
      } else if EvalAll(rest, data) != Value(Bool(true)) {
        var i :| && 0 <= i < |rest| && !Satisfied(rest[i], data)
                 && (forall j :: 0 <= j < i ==> Satisfied(rest[j], data))
                 && EvalAll(rest, data) == Failure(rest[i], data);
        assert !Satisfied(children[i + 1], data);
        assert forall j :: 0 <= j < i + 1 ==> Satisfied(children[j], data);
      }
    }
  }

  /** Reordering leaves keeps "true" both ways; a failure stays a failure of one of the same leaves. */
  lemma PermutationKeepsTruth(a: seq<Json>, b: seq<Json>, data: Json)
    requires multiset(a) == multiset(b)
    ensures EvalAll(a, data) == Value(Bool(true)) <==> EvalAll(b, data) == Value(Bool(true))
    ensures EvalAll(b, data) != Value(Bool(true)) ==>
              exists c :: c in a && !Satisfied(c, data) && EvalAll(b, data) == Failure(c, data)
  {
    FirstFailureDecides(a, data);
    FirstFailureDecides(b, data);
    assert forall c :: c in a <==> c in multiset(a);
    assert forall c :: c in b <==> c in multiset(b);
    if EvalAll(b, data) != Value(Bool(true)) {
      var i :| 0 <= i < |b| && !Satisfied(b[i], data) && EvalAll(b, data) == Failure(b[i], data);
      assert b[i] in a;
    }
  }

  /** Every failing leaf decides in some order: one that starts with it. */
  lemma LeafInFrontDecides(leaves: seq<Json>, leaf: Json, data: Json) returns (b: seq<Json>)
    requires leaf in leaves && !Satisfied(leaf, data)
    ensures multiset(b) == multiset(leaves) && EvalAll(b, data) == Failure(leaf, data)
  {
    hide Eval;
    var i :| 0 <= i < |leaves| && leaves[i] == leaf;
    TakeOut(leaves, i);
    var rest := leaves[..i] + leaves[i + 1..];
    b := [leaf] + rest;
    assert multiset(b) == multiset{leaf} + multiset(rest);
    assert b[0] == leaf;
  }

  /** The order of the leaves matters exactly when two of them fail in different ways. */
  lemma OrderMattersExactly(leaves: seq<Json>, data: Json)
    ensures (exists b :: multiset(b) == multiset(leaves) && EvalAll(b, data) != EvalAll(leaves, data))
       <==> exists c, d :: && c in leaves && !Satisfied(c, data) && d in leaves && !Satisfied(d, data)
                           && Failure(c, data) != Failure(d, data)
  {
    hide Eval, EvalAll;
    if b :| multiset(b) == multiset(leaves) && EvalAll(b, data) != EvalAll(leaves, data) {
      PermutationKeepsTruth(leaves, leaves, data);
      PermutationKeepsTruth(leaves, b, data);
    }
    if c, d :| && c in leaves && !Satisfied(c, data) && d in leaves && !Satisfied(d, data)
               && Failure(c, data) != Failure(d, data) {
      var front := LeafInFrontDecides(leaves, c, data);
      var other := LeafInFrontDecides(leaves, d, data);
    }
  }
}
