/**
 From a compliance rule to a backtest decision: compiling the rule's thresholds and entities to
 a JSON-Logic node, and mapping the outcome of evaluating a node on a historical transaction to
 allow, deny or flagged. The candidate carries no message template, as the backtest creates it.
 */
module Candidate {
  import opened Prelude
  import opened JsonLogic

  datatype Decision = Allow | Deny | Flagged

  /** A decision with its messages, or the exception nobody catches. */
  datatype Result = Decided(decision: Decision, messages: seq<string>) | Raised

  function Document(entityType: string, facts: Json): Json {
    Obj([Field("entity_type", Str(entityType)), Field("facts", facts)])
  }

  function MissingMessage(path: string): string {
    "Candidate policy could not be evaluated: historical transaction has no '" + path + "' fact."
  }

  const NOT_SATISFIED := "Candidate policy condition not satisfied."
  const NOT_SUPPORTED := "Candidate policy AST contains a node shape this backtest evaluator does not support."

  function Decide(outcome: Outcome): Result {
    match outcome
    case Value(v) => if Truthy(v) then Decided(Allow, []) else Decided(Deny, [NOT_SATISFIED])
    case Missing(path) => Decided(Flagged, [MissingMessage(path)])
    case Unsupported => Decided(Flagged, [NOT_SUPPORTED])
    case Crash => Raised
  }

  function Evaluate(logic: Json, entityType: string, facts: Json): Result {
    Decide(Eval(logic, Document(entityType, facts)))
  }

  /** A node the evaluator does not know is flagged, whatever the transaction. */
  lemma IllShapedIsFlagged(logic: Json, entityType: string, facts: Json)
    requires !WellShaped(logic)
    ensures Evaluate(logic, entityType, facts) == Decided(Flagged, [NOT_SUPPORTED])
  {
    IllShapedIsUnsupported(logic, Document(entityType, facts));
    hide Eval, WellShaped;
  }

  /** A rule that is a single fact: flagged without it, else decided by whether its value counts as true. */
  lemma SingleFactDecides(path: string, entityType: string, facts: Json)
    ensures Evaluate(Obj([Field("var", Str(path))]), entityType, facts)
         == match Fact(path, Document(entityType, facts))
            case None => Decided(Flagged, [MissingMessage(path)])
            case Some(v) =>
              if v in {Null, Bool(false), Num(0.0), Str(""), Arr([]), Obj([])} then Decided(Deny, [NOT_SATISFIED])
              else Decided(Allow, [])
  {
    hide Fact, Truthy, Document;
    match Fact(path, Document(entityType, facts))
    case None =>
    case Some(v) => FalseValues(v);
  }

  /** A decision to allow or deny survives any further facts. */
  lemma AddingFactsKeepsDecision(logic: Json, entityType: string, facts: Json, more: Json)
    requires Extends(facts, more)
    requires LeafFacts(logic, Document(entityType, facts))
    requires Evaluate(logic, entityType, facts).Decided? && Evaluate(logic, entityType, facts).decision != Flagged
    ensures Evaluate(logic, entityType, more) == Evaluate(logic, entityType, facts)
  {
    var a, b := Document(entityType, facts), Document(entityType, more);
    assert b.fields[1..] == [Field("facts", more)];
    assert Get(b.fields, "entity_type") == Str(entityType) && Get(b.fields, "facts") == more;
    assert Extends(a, b);
    AddingFactsKeepsOutcome(logic, a, b);
  }

  /** No leaf of the conjunction leads to an uncaught exception. */
  ghost predicate NoCrash(leaves: seq<Json>, data: Json) {
    forall c :: c in leaves ==> !Eval(c, data).Crash?
  }

  lemma NoCrashDecides(leaves: seq<Json>, entityType: string, facts: Json)
    requires NoCrash(leaves, Document(entityType, facts))
    ensures Evaluate(And(leaves), entityType, facts).Decided?
  {
    var data := Document(entityType, facts);
    AndIsAll(leaves, data);
    hide Eval, EvalAll, Document, And;
    FirstFailureDecides(leaves, data);
  }

  lemma AllowIsTrue(leaves: seq<Json>, entityType: string, facts: Json)
    ensures Evaluate(And(leaves), entityType, facts) == Decided(Allow, [])
       <==> EvalAll(leaves, Document(entityType, facts)) == Value(Bool(true))
  {
    var data := Document(entityType, facts);
    AndIsAll(leaves, data);
    AllIsBoolean(leaves, data);
  }

  /** Reordering the leaves of a conjunction keeps "allow" both ways and can only exchange deny with flagged. */
  lemma ReorderedLeavesKeepAllow(a: seq<Json>, b: seq<Json>, entityType: string, facts: Json)
    requires multiset(a) == multiset(b)
    ensures Evaluate(And(a), entityType, facts) == Decided(Allow, [])
       <==> Evaluate(And(b), entityType, facts) == Decided(Allow, [])
    ensures NoCrash(a, Document(entityType, facts)) ==>
              Evaluate(And(a), entityType, facts).Decided? && Evaluate(And(b), entityType, facts).Decided?
  {
    hide Evaluate, Eval, EvalAll, Document, And;
    var data := Document(entityType, facts);
    PermutationKeepsTruth(a, b, data);
    AllowIsTrue(a, entityType, facts);
    AllowIsTrue(b, entityType, facts);
    if NoCrash(a, data) {
      NoCrashDecides(a, entityType, facts);
      assert forall c :: c in b ==> c in multiset(b);
      NoCrashDecides(b, entityType, facts);
    }
  }

  /** The leaf has a value, and that value is not true. */
  ghost predicate IsFalse(leaf: Json, data: Json) {
    Eval(leaf, data).Value? && !Satisfied(leaf, data)
  }

  /** The leaf has no value: a fact is missing or the node is not supported. */
  ghost predicate IsUndefined(leaf: Json, data: Json) {
    Eval(leaf, data).Missing? || Eval(leaf, data).Unsupported?
  }

  /** A conjunction denies or flags as one of its failing leaves does. */
  lemma DecidedByLeaf(leaves: seq<Json>, b: seq<Json>, entityType: string, facts: Json)
    requires multiset(b) == multiset(leaves)
    ensures var data, r := Document(entityType, facts), Evaluate(And(b), entityType, facts);
            r.Decided? ==>
              && (r.decision == Deny ==> exists c :: c in leaves && IsFalse(c, data))
              && (r.decision == Flagged ==> exists c :: c in leaves && IsUndefined(c, data))
  {
    var data := Document(entityType, facts);
    AndIsAll(b, data);
    PermutationKeepsTruth(leaves, b, data);
    hide Eval, EvalAll, Document, And;
  }

  /** A failing leaf in front makes the conjunction deny or flag. */
  lemma FrontDecides(leaves: seq<Json>, leaf: Json, entityType: string, facts: Json) returns (b: seq<Json>)
    requires leaf in leaves && (IsFalse(leaf, Document(entityType, facts)) || IsUndefined(leaf, Document(entityType, facts)))
    ensures multiset(b) == multiset(leaves)
    ensures var r := Evaluate(And(b), entityType, facts);
            r.Decided? && r.decision == if IsFalse(leaf, Document(entityType, facts)) then Deny else Flagged
  {
    var data := Document(entityType, facts);
    b := LeafInFrontDecides(leaves, leaf, data);
    AndIsAll(b, data);
    hide Eval, EvalAll, Document, And;
  }

  /**
   Without type errors some order of the leaves changes the decision exactly when one leaf has a
   value that is not true and another has no value: the first alone denies, the second alone flags.
   */
  lemma OrderChangesDecisionExactly(leaves: seq<Json>, entityType: string, facts: Json)
    requires NoCrash(leaves, Document(entityType, facts))
    ensures var data := Document(entityType, facts);
            && Evaluate(And(leaves), entityType, facts).Decided?
            && ((exists b :: && multiset(b) == multiset(leaves) && Evaluate(And(b), entityType, facts).Decided?
                             && Evaluate(And(b), entityType, facts).decision != Evaluate(And(leaves), entityType, facts).decision)
                <==> (exists c :: c in leaves && IsFalse(c, data)) && (exists c :: c in leaves && IsUndefined(c, data)))
  {
    hide Evaluate, Eval, Document, And, IsFalse, IsUndefined;
    var data := Document(entityType, facts);
    NoCrashDecides(leaves, entityType, facts);
    if b :| && multiset(b) == multiset(leaves) && Evaluate(And(b), entityType, facts).Decided?
            && Evaluate(And(b), entityType, facts).decision != Evaluate(And(leaves), entityType, facts).decision {
      DecidedByLeaf(leaves, leaves, entityType, facts);
      DecidedByLeaf(leaves, b, entityType, facts);
      AllowHasNoMessage(leaves, entityType, facts);
      AllowHasNoMessage(b, entityType, facts);
      ReorderedLeavesKeepAllow(leaves, b, entityType, facts);
    }
    if (exists c :: c in leaves && IsFalse(c, data)) && (exists c :: c in leaves && IsUndefined(c, data)) {
      var c :| c in leaves && IsFalse(c, data);
      var d :| d in leaves && IsUndefined(d, data);
      var front := FrontDecides(leaves, c, entityType, facts);
      var other := FrontDecides(leaves, d, entityType, facts);
      NotBoth(d, data);
    }
  }

  lemma NotBoth(leaf: Json, data: Json)
    ensures !(IsFalse(leaf, data) && IsUndefined(leaf, data))
  {
  }

  lemma AllowHasNoMessage(leaves: seq<Json>, entityType: string, facts: Json)
    ensures var r := Evaluate(And(leaves), entityType, facts);
            r.Decided? && r.decision == Allow ==> r == Decided(Allow, [])
  {
    hide Eval;
  }

  lemma AndIsAll(children: seq<Json>, data: Json)
    ensures Eval(And(children), data) == EvalAll(children, data)
  {
  }

  /** Flattening nested conjunctions changes neither decision nor message. */
  lemma FlattenedRuleDecidesAlike(children: seq<Json>, entityType: string, facts: Json)
    ensures Evaluate(And(Flatten(children)), entityType, facts) == Evaluate(And(children), entityType, facts)
  {
    var data := Document(entityType, facts);
    AndIsAll(children, data);
    AndIsAll(Flatten(children), data);
    hide Eval, EvalAll, Flatten, And, Document;
    FlattenKeepsOutcome(children, data);
  }

  // ----- Compiling a rule -----

  datatype Test = AtLeast(low: real) | Above(low: real) | AtMost(high: real) | Below(high: real)
                | Exactly(value: real) | Between(low: real, high: real)

  /** A numeric threshold on one fact. */
  datatype Threshold = Threshold(fact: string, test: Test)

  /** The entity types a rule targets, sorted and distinct, and its thresholds. */
  datatype Rule = Rule(entities: seq<string>, thresholds: seq<Threshold>)

  function Binary(operator: string, path: string, right: Json): Json {
    Obj([Field(operator, Arr([Obj([Field("var", Str(path))]), right]))])
  }

  function Path(t: Threshold): string {
    "facts." + t.fact
  }

  function CompileThreshold(t: Threshold): Json {
    match t.test
    case AtLeast(v) => Binary(">=", Path(t), Num(v))
    case Above(v) => Binary(">", Path(t), Num(v))
    case AtMost(v) => Binary("<=", Path(t), Num(v))
    case Below(v) => Binary("<", Path(t), Num(v))
    case Exactly(v) => Binary("==", Path(t), Num(v))
    case Between(low, high) => And([Binary(">=", Path(t), Num(low)), Binary("<=", Path(t), Num(high))])
  }

  function CompileThresholds(ts: seq<Threshold>): (r: seq<Json>)
    ensures |r| == |ts|
  {
    if ts == [] then [] else [CompileThreshold(ts[0])] + CompileThresholds(ts[1..])
  }

  function Strings(entities: seq<string>): (r: seq<Json>)
    ensures |r| == |entities| && forall i :: 0 <= i < |r| ==> r[i] == Str(entities[i])
  {
    seq(|entities|, i requires 0 <= i < |entities| => Str(entities[i]))
  }

  function EntityClause(entities: seq<string>): (r: seq<Json>) {
    if entities == [] then []
    else if |entities| == 1 then [Binary("==", "entity_type", Str(entities[0]))]
    else [Binary("in", "entity_type", Arr(Strings(entities)))]
  }

  /** `None` is the error for a rule without thresholds. */
  function Compile(rule: Rule): Option<Json> {
    if rule.thresholds == [] then None
    else
      var clauses := EntityClause(rule.entities) + CompileThresholds(rule.thresholds);
      Some(if |clauses| == 1 then clauses[0] else And(clauses))
  }

  // ----- What a rule means -----

  predicate Meets(test: Test, x: real) {
    match test
    case AtLeast(v) => x >= v
    case Above(v) => x > v
    case AtMost(v) => x <= v
    case Below(v) => x < v
    case Exactly(v) => x == v
    case Between(low, high) => low <= x <= high
  }

  /** A test on any value; `None` is the type error of ordering something that is no number. */
  function Judge(test: Test, v: Json): Option<bool> {
    if Numeric(v) then Some(Meets(test, AsNumber(v)))
    else if test.Exactly? then Some(false)
    else None
  }

  /** The first threshold whose fact is absent, no number or failing its test decides. */
  function Verdict(thresholds: seq<Threshold>, facts: Json): Result {
    if thresholds == [] then Decided(Allow, [])
    else
      var t := thresholds[0];
      match Fact(t.fact, facts)
      case None => Decided(Flagged, [MissingMessage(Path(t))])
      case Some(v) =>
        match Judge(t.test, v)
        case None => Raised
        case Some(ok) => if ok then Verdict(thresholds[1..], facts) else Decided(Deny, [NOT_SATISFIED])
  }

  function RuleVerdict(rule: Rule, entityType: string, facts: Json): Result {
    if rule.entities != [] && entityType !in rule.entities then Decided(Deny, [NOT_SATISFIED])
    else Verdict(rule.thresholds, facts)
  }

  lemma {:induction false} SplitPlain(s: string)
    requires '.' !in s
    ensures Split(s) == [s]
  {
    if s != "" {
      SplitPlain(s[1..]);
      assert [s[0]] + s[1..] == s;
    }
  }

  lemma {:induction false} SplitAtDot(s: string, t: string)
    requires '.' !in s
    ensures Split(s + "." + t) == [s] + Split(t)
  {
    var u := s + "." + t;
    if s == "" {
      assert u[1..] == t;
    } else {
      assert u[1..] == s[1..] + "." + t;
      SplitAtDot(s[1..], t);
      assert [s[0]] + s[1..] == s;
    }
  }

  lemma ResolveOne(key: string, node: Json)
    ensures Resolve([key], node) == if node.Obj? && HasKey(node.fields, key) then Some(Get(node.fields, key)) else None
  {
    hide HasKey, Get;
    assert [key][1..] == [];
  }

  lemma ResolveFurther(first: string, rest: seq<string>, node: Json)
    requires node.Obj? && HasKey(node.fields, first)
    ensures Resolve([first] + rest, node) == Resolve(rest, Get(node.fields, first))
  {
    hide HasKey, Get;
    assert ([first] + rest)[1..] == rest;
  }

  lemma DocumentKeys(entityType: string, facts: Json)
    ensures var fields := Document(entityType, facts).fields;
            && HasKey(fields, "entity_type") && Get(fields, "entity_type") == Str(entityType)
            && HasKey(fields, "facts") && Get(fields, "facts") == facts
  {
    var fields := Document(entityType, facts).fields;
    assert fields[1..] == [Field("facts", facts)];
    assert HasKey(fields[1..], "facts");
  }

  lemma EntityFact(entityType: string, facts: Json)
    ensures Fact("entity_type", Document(entityType, facts)) == Some(Str(entityType))
  {
    hide Split, Resolve, HasKey, Get;
    SplitPlain("entity_type");
    DocumentKeys(entityType, facts);
    ResolveOne("entity_type", Document(entityType, facts));
  }

  /** A fact of the transaction is what the compiled path leads to. */
  lemma CompiledPath(name: string, entityType: string, facts: Json)
    ensures Fact("facts." + name, Document(entityType, facts)) == Fact(name, facts)
  {
    hide Split, Resolve, HasKey, Get;
    SplitAtDot("facts", name);
    assert "facts" + "." + name == "facts." + name;
    DocumentKeys(entityType, facts);
    ResolveFurther("facts", Split(name), Document(entityType, facts));
  }

  /** For a name without a dot the fact is the dictionary's own entry. */
  lemma PlainFact(name: string, facts: Json)
    requires '.' !in name
    ensures Fact(name, facts)
         == if facts.Obj? && HasKey(facts.fields, name) then Some(Get(facts.fields, name)) else None
  {
    hide Split, Resolve, HasKey, Get;
    SplitPlain(name);
    ResolveOne(name, facts);
  }

  lemma BinaryOutcome(operator: string, path: string, right: Json, data: Json)
    requires operator in BINARY && Eval(right, data) == Value(right)
    ensures Eval(Binary(operator, path, right), data)
         == match Fact(path, data) case None => Missing(path) case Some(v) => Apply(operator, v, right)
  {
    hide Apply, Fact;
    var node := Obj([Field("var", Str(path))]);
    assert operator != "var" && operator != "and";
    assert Eval(node, data) == match Fact(path, data) case None => Missing(path) case Some(v) => Value(v);
  }

  lemma TwoConjuncts(a: Json, b: Json, data: Json)
    ensures Eval(And([a, b]), data)
         == if !Satisfied(a, data) then Failure(a, data)
            else if !Satisfied(b, data) then Failure(b, data) else Value(Bool(true))
  {
    assert [a, b][1..] == [b] && [b][1..] == [];
    assert EvalAll([b], data) == if !Satisfied(b, data) then Failure(b, data) else Value(Bool(true));
  }

  /** Comparing any value with a number. */
  lemma ApplyToNumber(x: Json, v: real)
    ensures Apply(">=", x, Num(v)) == Lift(Judge(AtLeast(v), x))
    ensures Apply(">", x, Num(v)) == Lift(Judge(Above(v), x))
    ensures Apply("<=", x, Num(v)) == Lift(Judge(AtMost(v), x))
    ensures Apply("<", x, Num(v)) == Lift(Judge(Below(v), x))
    ensures Apply("==", x, Num(v)) == Lift(Judge(Exactly(v), x))
  {
  }

  /** One comparison of a fact with a constant. */
  lemma CompiledComparison(operator: string, name: string, v: real, entityType: string, facts: Json)
    requires operator in BINARY && operator != "in"
    ensures Eval(Binary(operator, "facts." + name, Num(v)), Document(entityType, facts))
         == match Fact(name, facts) case None => Missing("facts." + name) case Some(x) => Apply(operator, x, Num(v))
  {
    assert Eval(Num(v), Document(entityType, facts)) == Value(Num(v));
    hide Eval, Fact, Apply;
    CompiledPath(name, entityType, facts);
    BinaryOutcome(operator, "facts." + name, Num(v), Document(entityType, facts));
  }

  /** A compiled threshold evaluates to its test on the fact, to the missing path, or to a type error. */
  lemma CompiledThreshold(t: Threshold, entityType: string, facts: Json)
    ensures Eval(CompileThreshold(t), Document(entityType, facts))
         == match Fact(t.fact, facts) case None => Missing(Path(t)) case Some(x) => Lift(Judge(t.test, x))
  {
    hide Fact, Eval, Document, Apply, Binary, And;
    var x := if Fact(t.fact, facts).Some? then Fact(t.fact, facts).value else Null;
    match t.test
    case AtLeast(v) => CompiledComparison(">=", t.fact, v, entityType, facts); ApplyToNumber(x, v);
    case Above(v) => CompiledComparison(">", t.fact, v, entityType, facts); ApplyToNumber(x, v);
    case AtMost(v) => CompiledComparison("<=", t.fact, v, entityType, facts); ApplyToNumber(x, v);
    case Below(v) => CompiledComparison("<", t.fact, v, entityType, facts); ApplyToNumber(x, v);
    case Exactly(v) => CompiledComparison("==", t.fact, v, entityType, facts); ApplyToNumber(x, v);
    case Between(low, high) =>
      CompiledComparison(">=", t.fact, low, entityType, facts);
      CompiledComparison("<=", t.fact, high, entityType, facts);
      ApplyToNumber(x, low);
      ApplyToNumber(x, high);
      TwoConjuncts(Binary(">=", Path(t), Num(low)), Binary("<=", Path(t), Num(high)), Document(entityType, facts));
  }

  lemma FirstDecides(children: seq<Json>, data: Json)
    requires children != []
    ensures EvalAll(children, data)
         == if Satisfied(children[0], data) then EvalAll(children[1..], data) else Failure(children[0], data)
  {
    hide Eval;
  }

  lemma {:induction false} CompiledThresholds(ts: seq<Threshold>, entityType: string, facts: Json)
    ensures Decide(EvalAll(CompileThresholds(ts), Document(entityType, facts))) == Verdict(ts, facts)
  {
    if ts != [] {
      var clauses := CompileThresholds(ts);
      assert clauses[0] == CompileThreshold(ts[0]) && clauses[1..] == CompileThresholds(ts[1..]);
      FirstDecides(clauses, Document(entityType, facts));
      hide Fact, Eval, EvalAll, Judge, Document, CompileThreshold, CompileThresholds;
      CompiledThreshold(ts[0], entityType, facts);
      CompiledThresholds(ts[1..], entityType, facts);
    }
  }

  /** Membership of the entity type in a literal list. */
  lemma EntityInList(entities: seq<string>, entityType: string, facts: Json)
    ensures Eval(Binary("in", "entity_type", Arr(Strings(entities))), Document(entityType, facts))
         == Value(Bool(entityType in entities))
  {
    var data, list := Document(entityType, facts), Arr(Strings(entities));
    LiteralList(entities, data);
    hide Eval, Fact, Document, Strings, Member;
    EntityFact(entityType, facts);
    BinaryOutcome("in", "entity_type", list, data);
    MemberOfStrings(entityType, entities);
  }

  lemma LiteralList(entities: seq<string>, data: Json)
    ensures Eval(Arr(Strings(entities)), data) == Value(Arr(Strings(entities)))
  {
    LiteralStrings(entities, data, 0);
    assert Strings(entities)[0..] == Strings(entities);
  }

  lemma EntityEquals(entity: string, entityType: string, facts: Json)
    ensures Eval(Binary("==", "entity_type", Str(entity)), Document(entityType, facts)) == Value(Bool(entityType == entity))
  {
    assert Eval(Str(entity), Document(entityType, facts)) == Value(Str(entity));
    hide Eval, Fact, Document;
    EntityFact(entityType, facts);
    BinaryOutcome("==", "entity_type", Str(entity), Document(entityType, facts));
  }

  lemma OneConjunct(node: Json, b: bool, data: Json)
    requires Eval(node, data) == Value(Bool(b))
    ensures EvalAll([node], data) == Value(Bool(b))
  {
    assert [node][1..] == [];
    assert EvalAll([], data) == Value(Bool(true));
  }

  /** The entity clause is true exactly for the targeted entity types. */
  lemma CompiledEntities(entities: seq<string>, entityType: string, facts: Json)
    ensures EvalAll(EntityClause(entities), Document(entityType, facts))
         == Value(Bool(entities == [] || entityType in entities))
  {
    hide Eval, Binary, Document;
    var data := Document(entityType, facts);
    if |entities| == 1 {
      EntityEquals(entities[0], entityType, facts);
      OneConjunct(EntityClause(entities)[0], entityType == entities[0], data);
    } else if |entities| > 1 {
      EntityInList(entities, entityType, facts);
      OneConjunct(EntityClause(entities)[0], entityType in entities, data);
    }
  }

  lemma {:induction false} LiteralStrings(entities: seq<string>, data: Json, from: nat)
    requires from <= |entities|
    ensures EvalItems(Strings(entities)[from..], data) == Values(Strings(entities)[from..])
    decreases |entities| - from
  {
    var all := Strings(entities);
    if from < |entities| {
      LiteralStrings(entities, data, from + 1);
      assert all[from..][1..] == all[from + 1..];
      assert all[from..] == [all[from]] + all[from + 1..];
    }
  }

  lemma MemberOfStrings(x: string, entities: seq<string>)
    ensures Member(Str(x), Arr(Strings(entities))) == Some(x in entities)
  {
    var items := Strings(entities);
    if x in entities {
      var i :| 0 <= i < |entities| && entities[i] == x;
      assert PyEqual(Str(x), items[i]);
    }
  }

  /**
   Evaluating the compiled rule on a transaction, whatever its facts are, gives the verdict the
   rule states: deny for an entity it does not target, else what the first absent, unordered or
   failing threshold says, else allow. A rule without thresholds is the only one not compiled.
   */
  lemma CompiledRuleDecides(rule: Rule, entityType: string, facts: Json)
    ensures Compile(rule).None? <==> rule.thresholds == []
    ensures Compile(rule).Some? ==> Evaluate(Compile(rule).value, entityType, facts) == RuleVerdict(rule, entityType, facts)
  {
    hide Eval, Document, CompileThresholds, EntityClause, Verdict;
    if rule.thresholds != [] {
      var data := Document(entityType, facts);
      var entity, tests := EntityClause(rule.entities), CompileThresholds(rule.thresholds);
      CompiledEntities(rule.entities, entityType, facts);
      CompiledThresholds(rule.thresholds, entityType, facts);
      AllAppend(entity, tests, data);
      var clauses := entity + tests;
      AndIsAll(clauses, data);
      if |clauses| == 1 {
        assert clauses == tests && tests == [tests[0]] && tests[1..] == [];
        SingleConjunct(tests[0], data);
      }
    }
  }

  /** The fact is there, but is something an order comparison with a number rejects. */
  predicate Unordered(t: Threshold, facts: Json) {
    Fact(t.fact, facts).Some? && Judge(t.test, Fact(t.fact, facts).value).None?
  }

  predicate Passes(t: Threshold, facts: Json) {
    Fact(t.fact, facts).Some? && Judge(t.test, Fact(t.fact, facts).value) == Some(true)
  }

  /** Threshold `i` is the first that does not pass, and is put to something that cannot be ordered. */
  ghost predicate RaisesAt(ts: seq<Threshold>, facts: Json, i: nat)
    requires i < |ts|
  {
    Unordered(ts[i], facts) && forall j :: 0 <= j < i ==> Passes(ts[j], facts)
  }

  lemma VerdictStep(ts: seq<Threshold>, facts: Json)
    requires ts != []
    ensures Verdict(ts, facts).Raised?
       <==> Unordered(ts[0], facts) || (Passes(ts[0], facts) && Verdict(ts[1..], facts).Raised?)
  {
    hide Fact, Judge;
  }

  lemma RaisesLater(ts: seq<Threshold>, facts: Json, i: nat)
    requires 0 < i < |ts|
    ensures RaisesAt(ts, facts, i) <==> Passes(ts[0], facts) && RaisesAt(ts[1..], facts, i - 1)
  {
    hide Unordered, Passes;
    if RaisesAt(ts[1..], facts, i - 1) && Passes(ts[0], facts) {
      assert forall j :: 1 <= j < i ==> ts[j] == ts[1..][j - 1];
    }
  }

  /** Evaluation ends in an uncaught exception exactly when the first threshold that does not pass cannot be put. */
  lemma {:induction false} VerdictRaisesExactly(ts: seq<Threshold>, facts: Json)
    ensures Verdict(ts, facts).Raised? <==> exists i :: 0 <= i < |ts| && RaisesAt(ts, facts, i)
  {
    if ts != [] {
      VerdictStep(ts, facts);
      VerdictRaisesExactly(ts[1..], facts);
      assert RaisesAt(ts, facts, 0) <==> Unordered(ts[0], facts);
      hide Verdict, Unordered, Passes, RaisesAt;
      if Passes(ts[0], facts) && Verdict(ts[1..], facts).Raised? {
        var i :| 0 <= i < |ts[1..]| && RaisesAt(ts[1..], facts, i);
        RaisesLater(ts, facts, i + 1);
      }
      if i :| 0 <= i < |ts| && RaisesAt(ts, facts, i) {
        if i > 0 {
          RaisesLater(ts, facts, i);
        }
      }
    }
  }

  /** A single clause decides as a conjunction of one. */
  lemma SingleConjunct(node: Json, data: Json)
    ensures Decide(EvalAll([node], data)) == Decide(Eval(node, data))
  {
    assert [node][1..] == [];
    assert EvalAll([], data) == Value(Bool(true));
  }
}
