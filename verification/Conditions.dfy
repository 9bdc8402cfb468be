/**
 Bootstrap conditions: turning the shared expression tree into a condition, and
 evaluating it against one request.
 */
module Conditions {
  import opened Prelude
  import opened Text
  import opened TextScan
  import opened PathTemplates
  import Grammar = ConditionExpr

  datatype Operand = Reference(name: string) | Literal(text: string) | Boolean(value: bool)

  datatype Condition =
    | Always
    | Constant(value: bool)
    | ContextPathExistsOrCreate
    | Exists(path: string)
    | Writable(path: string)
    | InputSet(name: string)
    | Feature(name: string)
    | Equal(left: Operand, right: Operand)
    | NotEqual(left: Operand, right: Operand)
    | And(children: seq<Condition>)
    | Or(children: seq<Condition>)
    | Not(child: Condition)

  // --------------------------------------------------------------------- parsing

  function TrimMatches(s: string, chars: string): string {
    if s == "" then ""
    else if s[0] in chars then TrimMatches(s[1..], chars)
    else if s[|s| - 1] in chars then TrimMatches(s[..|s| - 1], chars)
    else s
  }

  datatype Call = NotACall | BadCall | Call(argument: string)

  function FunctionArgument(input: string, name: string): Call {
    var prefix := name + "(";
    if !(prefix <= input) then NotACall
    else if input[|input| - 1] != ')' then BadCall
    else
      var argument := input[|prefix|..|input| - 1];
      if argument == "" || ContainsAny(argument, "()") then BadCall
      else Call(TrimMatches(argument, " '\""))
  }

  /** `None` stands for an invalid condition. */
  function ParseAtom(input: string): Option<Condition> {
    if input == "always" then Some(Always)
    else if input == "context.path_exists_or_create" then Some(ContextPathExistsOrCreate)
    else if input == "true" then Some(Constant(true))
    else if input == "false" then Some(Constant(false))
    else match FunctionArgument(input, "exists")
      case BadCall => None
      case Call(path) => if ValidateTemplate(path).Ok? then Some(Exists(path)) else None
      case NotACall =>
        match FunctionArgument(input, "writable")
        case BadCall => None
        case Call(path) => if ValidateTemplate(path).Ok? then Some(Writable(path)) else None
        case NotACall =>
          match FunctionArgument(input, "input_set")
          case BadCall => None
          case Call(name) => if IsEnvName(name) then Some(InputSet(name)) else None
          case NotACall =>
            if "feature:" <= input && IsConfigPath(input[8..]) then Some(Feature(input[8..])) else None
  }

  function ParseOperand(text: string): Option<Operand> {
    var input := Trim(text);
    if input == "" then None
    else if input == "true" then Some(Boolean(true))
    else if input == "false" then Some(Boolean(false))
    else if input[0] == '"' || input[0] == '\'' then
      if |input| < 2 || input[|input| - 1] != input[0] then None
      else Some(Literal(input[1..|input| - 1]))
    else if AllDigits(input) then Some(Literal(input))
    else if IsReference(input) then Some(Operand.Reference(input))
    else None
  }

  function FromShared(e: Grammar.Expr): Option<Condition> {
    match e
    case Atom(text) => ParseAtom(text)
    case Equal(l, r) =>
      (match (ParseOperand(l), ParseOperand(r))
       case (Some(left), Some(right)) => Some(Equal(left, right))
       case _ => None)
    case NotEqual(l, r) =>
      (match (ParseOperand(l), ParseOperand(r))
       case (Some(left), Some(right)) => Some(NotEqual(left, right))
       case _ => None)
    case And(children) =>
      (match FromAll(children) case None => None case Some(cs) => Some(And(cs)))
    case Or(children) =>
      (match FromAll(children) case None => None case Some(cs) => Some(Or(cs)))
    case Not(child) =>
      (match FromShared(child) case None => None case Some(c) => Some(Not(c)))
  }

  function FromAll(es: seq<Grammar.Expr>): Option<seq<Condition>> {
    if es == [] then Some([])
    else match (FromShared(es[0]), FromAll(es[1..]))
      case (Some(first), Some(rest)) => Some([first] + rest)
      case _ => None
  }

  function ParseCondition(input: string): Option<Condition> {
    match Grammar.Parse(Trim(input))
    case Err(_) => None
    case Ok(e) => FromShared(e)
  }

  // ------------------------------------------------------------------ evaluation

  datatype Identity = Identity(uid: nat, gid: nat, user: string, home: string)

  /** What the machine and the configuration fix for every request. */
  datatype Surroundings = Surroundings(
    workspaceRoot: string,
    cwd: string,
    os: string,
    arch: string,
    features: set<string>,
    pathExists: string -> bool,
    pathWritable: string -> bool)

  /** Everything one request supplies; `inputs` are the resolved raw input values. */
  datatype Supplied = Supplied(
    identity: Identity,
    environment: map<string, string>,
    inputs: map<string, string>)

  datatype EvalError =
    | InputNotSet(name: string)
    | EnvironmentNotSet(name: string)
    | NotEvaluable(name: string)
    | BadPath(error: RenderError)

  datatype Comparable = Text(text: string) | Flag(value: bool)

  // --------------------------------------------------------- the interpolation table

  const FIXED_NAMES: set<string> :=
    {"bootstrap.workspace_root", "identity.uid", "identity.gid", "identity.user", "identity.home",
     "identity.target", "context.cwd", "context.os", "context.arch"}

  function FixedEntry(name: string, w: Surroundings, s: Supplied): Option<string> {
    if name == "bootstrap.workspace_root" then Some(w.workspaceRoot)
    else if name == "identity.uid" then Some(ToDecimal(s.identity.uid))
    else if name == "identity.gid" then Some(ToDecimal(s.identity.gid))
    else if name == "identity.user" then Some(s.identity.user)
    else if name == "identity.home" then Some(s.identity.home)
    else if name == "identity.target" then Some(s.identity.user)
    else if name == "context.cwd" then Some(w.cwd)
    else if name == "context.os" then Some(w.os)
    else if name == "context.arch" then Some(w.arch)
    else None
  }

  /** The nine entries that are there for every request. */
  function FixedValues(w: Surroundings, s: Supplied): map<string, string> {
    map name | name in FIXED_NAMES && FixedEntry(name, w, s).Some? :: FixedEntry(name, w, s).value
  }

  /** The entries of a table with a prefix before their names. */
  function Prefixed(prefix: string, entries: map<string, string>): map<string, string> {
    map k | k in (set n | n in entries :: prefix + n) && k[|prefix|..] in entries :: entries[k[|prefix|..]]
  }

  /** The interpolation table built before every rendering: later insertions win. */
  function Values(w: Surroundings, s: Supplied): map<string, string> {
    FixedValues(w, s) + Prefixed("input.", s.inputs) + Prefixed("env.", s.environment)
  }

  /** A text with the prefix is the prefix and the rest. */
  lemma PrefixIs(prefix: string, name: string, k: string)
    ensures k == prefix + name <==> prefix <= k && k[|prefix|..] == name
  {
    if prefix <= k {
      assert k == prefix + k[|prefix|..];
    }
  }

  lemma PrefixedAt(prefix: string, entries: map<string, string>, name: string)
    ensures name in Prefixed(prefix, entries) <==> prefix <= name && name[|prefix|..] in entries
    ensures name in Prefixed(prefix, entries) ==> Prefixed(prefix, entries)[name] == entries[name[|prefix|..]]
  {
    if prefix <= name {
      PrefixIs(prefix, name[|prefix|..], name);
    }
  }

  lemma PrefixedGrowsAt(prefix: string, entries: map<string, string>, name: string, value: string, k: string)
    ensures k in Prefixed(prefix, entries[name := value]) <==> k == prefix + name || k in Prefixed(prefix, entries)
    ensures k == prefix + name ==> Prefixed(prefix, entries[name := value])[k] == value
    ensures k != prefix + name && k in Prefixed(prefix, entries) ==>
              Prefixed(prefix, entries[name := value])[k] == Prefixed(prefix, entries)[k]
  {
    PrefixIs(prefix, name, k);
    PrefixedAt(prefix, entries[name := value], k);
    PrefixedAt(prefix, entries, k);
  }

  /** One more entry is one more insertion. */
  lemma InsertionStep(prefix: string, entries: map<string, string>, name: string, value: string, values: map<string, string>)
    ensures values + Prefixed(prefix, entries[name := value]) == (values + Prefixed(prefix, entries))[prefix + name := value]
  {
    var more, now, key := Prefixed(prefix, entries[name := value]), Prefixed(prefix, entries), prefix + name;
    forall k
      ensures k in more <==> k == key || k in now
      ensures k == key ==> more[k] == value
      ensures k != key && k in now ==> more[k] == now[k]
    {
      PrefixedGrowsAt(prefix, entries, name, value, k);
    }
    OneMore(values, now, more, key, value);
  }

  lemma OneMore(values: map<string, string>, now: map<string, string>, more: map<string, string>, key: string, value: string)
    requires forall k :: k in more <==> k == key || k in now
    requires more[key] == value && forall k :: k != key && k in now ==> more[k] == now[k]
    ensures values + more == (values + now)[key := value]
  {
    assert more == now[key := value];
  }

  /** One of the two insertion loops, over a map in any order. */
  method InsertPrefixed(prefix: string, entries: map<string, string>, values: map<string, string>)
    returns (r: map<string, string>)
    ensures r == values + Prefixed(prefix, entries)
  {
    r := values;
    var todo := entries.Keys;
    ghost var done: map<string, string> := map[];
    assert Prefixed(prefix, done) == map[];
    while todo != {}
      invariant todo <= entries.Keys && IsRest(entries, done, todo)
      invariant r == values + Prefixed(prefix, done)
      decreases |todo|
    {
      var name :| name in todo;
      InsertionStep(prefix, done, name, entries[name], values);
      r := r[prefix + name := entries[name]];
      done := done[name := entries[name]];
      todo := todo - {name};
    }
    assert done == entries;
  }

  ghost predicate IsRest(entries: map<string, string>, done: map<string, string>, todo: set<string>) {
    && (forall n :: n in done <==> n in entries && n !in todo)
    && (forall n :: n in done ==> n in entries && done[n] == entries[n])
  }

  /** The nine insertions, one after the other; no name is inserted twice. */
  method BuildFixed(w: Surroundings, s: Supplied) returns (values: map<string, string>)
    ensures values == FixedValues(w, s)
  {
    values := map[];
    values := values["bootstrap.workspace_root" := w.workspaceRoot];
    values := values["identity.uid" := ToDecimal(s.identity.uid)];
    values := values["identity.gid" := ToDecimal(s.identity.gid)];
    values := values["identity.user" := s.identity.user];
    values := values["identity.home" := s.identity.home];
    values := values["identity.target" := s.identity.user];
    values := values["context.cwd" := w.cwd];
    values := values["context.os" := w.os];
    values := values["context.arch" := w.arch];
    FixedNamesDiffer();
  }

  lemma FixedNamesDiffer()
    ensures |"bootstrap.workspace_root"| == 24 && |"identity.target"| == 15 && |"context.cwd"| == 11 && |"context.os"| == 10
    ensures |"identity.uid"| == 12 && |"identity.gid"| == 12 && |"context.arch"| == 12
    ensures |"identity.user"| == 13 && |"identity.home"| == 13
    ensures "identity.uid"[9] == 'u' && "identity.gid"[9] == 'g' && "context.arch"[9] == 'r'
    ensures "identity.user"[9] == 'u' && "identity.home"[9] == 'h'
  {
  }

  /** The table is filled step by step: nine insertions, then inputs, then environment. */
  method BuildValues(w: Surroundings, s: Supplied) returns (values: map<string, string>)
    ensures values == Values(w, s)
  {
    values := BuildFixed(w, s);
    values := InsertPrefixed("input.", s.inputs, values);
    values := InsertPrefixed("env.", s.environment, values);
  }

  /** The value of a name by its namespace. */
  function Lookup(name: string, w: Surroundings, s: Supplied): Option<string> {
    if "env." <= name then
      if name[4..] in s.environment then Some(s.environment[name[4..]]) else None
    else if "input." <= name then
      if name[6..] in s.inputs then Some(s.inputs[name[6..]]) else None
    else FixedEntry(name, w, s)
  }

  /** No fixed name is in the namespaces of inputs and environment. */
  lemma NamespacesAreApart(name: string, w: Surroundings, s: Supplied)
    ensures FixedEntry(name, w, s).Some? ==> !("input." <= name) && !("env." <= name)
    ensures "input." <= name ==> !("env." <= name)
    ensures "input." <= name || "env." <= name ==> name != "bootstrap.workspace_root"
  {
    assert "input." <= name ==> name[0] == 'i' && name[1] == 'n';
    assert "env." <= name ==> name[0] == 'e';
  }

  /** The table answers every name by its namespace, and nothing else: no insertion hides another. */
  lemma ValuesAnswerLookup(name: string, w: Surroundings, s: Supplied)
    ensures name in Values(w, s) <==> Lookup(name, w, s).Some?
    ensures name in Values(w, s) ==> Values(w, s)[name] == Lookup(name, w, s).value
  {
    var fixed, inputs, environment := FixedValues(w, s), Prefixed("input.", s.inputs), Prefixed("env.", s.environment);
    assert name in fixed <==> FixedEntry(name, w, s).Some? by {
      FixedValuesAt(name, w, s);
    }
    assert name in fixed ==> fixed[name] == FixedEntry(name, w, s).value;
    NamespacesAreApart(name, w, s);
    assert name in inputs <==> "input." <= name && name[6..] in s.inputs by {
      PrefixedAt("input.", s.inputs, name);
    }
    assert name in environment <==> "env." <= name && name[4..] in s.environment by {
      PrefixedAt("env.", s.environment, name);
    }
    if name in inputs {
      PrefixedAt("input.", s.inputs, name);
    }
    if name in environment {
      PrefixedAt("env.", s.environment, name);
    }
  }

  lemma FixedValuesAt(name: string, w: Surroundings, s: Supplied)
    ensures name in FixedValues(w, s) <==> FixedEntry(name, w, s).Some?
  {
  }

  /** The names a comparison knows by themselves. */
  function FixedOperand(name: string, w: Surroundings, s: Supplied): Option<string> {
    if name == "identity.uid" then Some(ToDecimal(s.identity.uid))
    else if name == "identity.gid" then Some(ToDecimal(s.identity.gid))
    else if name == "identity.user" then Some(s.identity.user)
    else if name == "identity.home" then Some(s.identity.home)
    else if name == "identity.target" then Some(s.identity.user)
    else if name == "context.cwd" then Some(w.cwd)
    else if name == "context.os" then Some(w.os)
    else if name == "context.arch" then Some(w.arch)
    else None
  }

  /** The match of comparisons against the nine insertions. */
  lemma FixedOperandAgrees(name: string, w: Surroundings, s: Supplied)
    ensures FixedOperand(name, w, s).Some? <==> FixedEntry(name, w, s).Some? && name != "bootstrap.workspace_root"
    ensures FixedOperand(name, w, s).Some? ==> FixedOperand(name, w, s) == FixedEntry(name, w, s)
  {
    FixedNamesDiffer();
  }

  /** The value of an operand, by a match of its own. */
  function OperandValue(o: Operand, w: Surroundings, s: Supplied): Result<Comparable, EvalError> {
    match o
    case Literal(text) => Ok(Text(text))
    case Boolean(value) => Ok(Flag(value))
    case Reference(name) =>
      if FixedOperand(name, w, s).Some? then Ok(Text(FixedOperand(name, w, s).value))
      else if "input." <= name then
        if name[6..] in s.inputs then Ok(Text(s.inputs[name[6..]])) else Err(InputNotSet(name))
      else if "env." <= name then
        if name[4..] in s.environment then Ok(Text(s.environment[name[4..]])) else Err(EnvironmentNotSet(name))
      else Err(NotEvaluable(name))
  }

  function RenderIn(path: string, w: Surroundings, s: Supplied): Result<string, EvalError> {
    match Render(path, Values(w, s))
    case Err(e) => Err(BadPath(e))
    case Ok(p) => Ok(p)
  }

  function Evaluate(c: Condition, w: Surroundings, s: Supplied): Result<bool, EvalError> {
    match c
    case Always => Ok(true)
    case ContextPathExistsOrCreate => Ok(true)
    case Constant(value) => Ok(value)
    case Exists(path) =>
      (match RenderIn(path, w, s) case Err(e) => Err(e) case Ok(p) => Ok(w.pathExists(p)))
    case Writable(path) =>
      (match RenderIn(path, w, s) case Err(e) => Err(e) case Ok(p) => Ok(w.pathWritable(p)))
    case InputSet(name) => Ok(name in s.inputs)
    case Feature(name) => Ok(name in w.features)
    case Equal(left, right) => Compare(left, right, true, w, s)
    case NotEqual(left, right) => Compare(left, right, false, w, s)
    case And(children) => EvaluateAll(children, true, w, s)
    case Or(children) => EvaluateAll(children, false, w, s)
    case Not(child) =>
      (match Evaluate(child, w, s) case Err(e) => Err(e) case Ok(b) => Ok(!b))
  }

  function Compare(left: Operand, right: Operand, equal: bool, w: Surroundings, s: Supplied): Result<bool, EvalError> {
    match OperandValue(left, w, s)
    case Err(e) => Err(e)
    case Ok(l) =>
      match OperandValue(right, w, s)
      case Err(e) => Err(e)
      case Ok(r) => Ok((l == r) == equal)
  }

  /** Left to right, stopping at the first child that differs from `neutral` or fails. */
  function EvaluateAll(cs: seq<Condition>, neutral: bool, w: Surroundings, s: Supplied): Result<bool, EvalError> {
    if cs == [] then Ok(neutral)
    else match Evaluate(cs[0], w, s)
      case Err(e) => Err(e)
      case Ok(b) => if b != neutral then Ok(b) else EvaluateAll(cs[1..], neutral, w, s)
  }

  // --------------------------------------------------------- what evaluation means

  /** The child that decides a list: the first one that fails or differs from `neutral`. */
  ghost predicate Decides(cs: seq<Condition>, k: nat, neutral: bool, w: Surroundings, s: Supplied) {
    && k < |cs|
    && Evaluate(cs[k], w, s) != Ok(neutral)
    && forall j :: 0 <= j < k ==> Evaluate(cs[j], w, s) == Ok(neutral)
  }

  /**
   A conjunction or disjunction is neutral exactly when all children are, and
   otherwise has the outcome of the child that decides it, value or error.
   */
  lemma {:induction false} ListOutcome(cs: seq<Condition>, neutral: bool, w: Surroundings, s: Supplied)
    ensures EvaluateAll(cs, neutral, w, s) == Ok(neutral) <==>
              forall j :: 0 <= j < |cs| ==> Evaluate(cs[j], w, s) == Ok(neutral)
    ensures forall k: nat :: Decides(cs, k, neutral, w, s) ==> EvaluateAll(cs, neutral, w, s) == Evaluate(cs[k], w, s)
    decreases |cs|
  {
    if cs != [] && Evaluate(cs[0], w, s) == Ok(neutral) {
      ListOutcome(cs[1..], neutral, w, s);
      forall k: nat | Decides(cs, k, neutral, w, s)
        ensures EvaluateAll(cs, neutral, w, s) == Evaluate(cs[k], w, s)
      {
        assert cs[k] == cs[1..][k - 1];
        assert Decides(cs[1..], k - 1, neutral, w, s);
      }
    }
  }

  /** De Morgan, errors and evaluation order included. */
  lemma NegationDistributes(cs: seq<Condition>, w: Surroundings, s: Supplied)
    ensures Evaluate(Not(And(cs)), w, s) == Evaluate(Or(NegateEach(cs)), w, s)
    ensures Evaluate(Not(Or(cs)), w, s) == Evaluate(And(NegateEach(cs)), w, s)
  {
    NegatedList(cs, true, w, s);
    NegatedList(cs, false, w, s);
    assert Evaluate(And(cs), w, s) == EvaluateAll(cs, true, w, s);
    assert Evaluate(Or(cs), w, s) == EvaluateAll(cs, false, w, s);
  }

  lemma {:induction false} NegatedList(cs: seq<Condition>, neutral: bool, w: Surroundings, s: Supplied)
    ensures EvaluateAll(NegateEach(cs), !neutral, w, s) ==
            match EvaluateAll(cs, neutral, w, s) { case Err(e) => Err(e) case Ok(b) => Ok(!b) }
    decreases |cs|
  {
    if cs != [] {
      var negated := NegateEach(cs);
      assert negated[0] == Not(cs[0]) && negated[1..] == NegateEach(cs[1..]);
      NegatedList(cs[1..], neutral, w, s);
    }
  }

  function NegateEach(cs: seq<Condition>): seq<Condition> {
    if cs == [] then [] else [Not(cs[0])] + NegateEach(cs[1..])
  }

  /** The two ways to a value agree: the match of comparisons and the table, save for the workspace root. */
  lemma OperandAgreesWithInterpolation(name: string, w: Surroundings, s: Supplied)
    ensures OperandValue(Operand.Reference(name), w, s).Ok? <==>
              name in Values(w, s) && name != "bootstrap.workspace_root"
    ensures OperandValue(Operand.Reference(name), w, s).Ok? ==>
              OperandValue(Operand.Reference(name), w, s) == Ok(Text(Values(w, s)[name]))
  {
    ValuesAnswerLookup(name, w, s);
    NamespacesAreApart(name, w, s);
    FixedOperandAgrees(name, w, s);
  }

  // -------------------------------------------------------------- what leaves answer

  /** What the fixed names stand for, in paths and in comparisons. */
  lemma FixedNamesStandFor(w: Surroundings, s: Supplied)
    ensures Names("bootstrap.workspace_root", w.workspaceRoot, w, s)
    ensures Names("identity.uid", ToDecimal(s.identity.uid), w, s)
    ensures Names("identity.gid", ToDecimal(s.identity.gid), w, s)
    ensures Names("identity.user", s.identity.user, w, s)
    ensures Names("identity.home", s.identity.home, w, s)
    ensures Names("identity.target", s.identity.user, w, s)
    ensures Names("context.cwd", w.cwd, w, s)
    ensures Names("context.os", w.os, w, s)
    ensures Names("context.arch", w.arch, w, s)
  {
    FixedNamesDiffer();
    FixedNameStandsFor("bootstrap.workspace_root", w, s);
    FixedNameStandsFor("identity.uid", w, s);
    FixedNameStandsFor("identity.gid", w, s);
    FixedNameStandsFor("identity.user", w, s);
    FixedNameStandsFor("identity.home", w, s);
    FixedNameStandsFor("identity.target", w, s);
    FixedNameStandsFor("context.cwd", w, s);
    FixedNameStandsFor("context.os", w, s);
    FixedNameStandsFor("context.arch", w, s);
  }

  /** The name has this value in the table, and in comparisons unless it is the workspace root. */
  predicate Names(name: string, value: string, w: Surroundings, s: Supplied) {
    && name in Values(w, s) && Values(w, s)[name] == value
    && (name == "bootstrap.workspace_root" || OperandValue(Operand.Reference(name), w, s) == Ok(Text(value)))
  }

  lemma FixedNameStandsFor(name: string, w: Surroundings, s: Supplied)
    requires FixedEntry(name, w, s).Some?
    ensures Names(name, FixedEntry(name, w, s).value, w, s)
  {
    OperandAgreesWithInterpolation(name, w, s);
    ValuesAnswerLookup(name, w, s);
    NamespacesAreApart(name, w, s);
  }

  /** The name of an input stands for what the request supplied. */
  lemma InputNameStandsFor(name: string, w: Surroundings, s: Supplied)
    ensures name in s.inputs ==> Names("input." + name, s.inputs[name], w, s)
    ensures name !in s.inputs ==> OperandValue(Operand.Reference("input." + name), w, s) == Err(InputNotSet("input." + name))
  {
    var input := "input." + name;
    assert "input." <= input && input[6..] == name;
    NamespacesAreApart(input, w, s);
    FixedOperandAgrees(input, w, s);
    assert Lookup(input, w, s) == if name in s.inputs then Some(s.inputs[name]) else None;
    ValuesAnswerLookup(input, w, s);
  }

  /** The name of an environment variable stands for what the request supplied. */
  lemma EnvironmentNameStandsFor(name: string, w: Surroundings, s: Supplied)
    ensures name in s.environment ==> Names("env." + name, s.environment[name], w, s)
    ensures name !in s.environment ==>
              OperandValue(Operand.Reference("env." + name), w, s) == Err(EnvironmentNotSet("env." + name))
  {
    var env := "env." + name;
    assert "env." <= env && env[4..] == name;
    NamespacesAreApart(env, w, s);
    FixedOperandAgrees(env, w, s);
    assert Lookup(env, w, s) == if name in s.environment then Some(s.environment[name]) else None;
    ValuesAnswerLookup(env, w, s);
  }

  /** A path test asks about the rendered path, and fails exactly where rendering does. */
  lemma PathTestsAnswer(path: string, w: Surroundings, s: Supplied)
    ensures match Render(path, Values(w, s))
            case Ok(p) =>
              && Evaluate(Exists(path), w, s) == Ok(w.pathExists(p))
              && Evaluate(Writable(path), w, s) == Ok(w.pathWritable(p))
            case Err(e) =>
              && Evaluate(Exists(path), w, s) == Err(BadPath(e))
              && Evaluate(Writable(path), w, s) == Err(BadPath(e))
  {
  }

  /** Comparisons: both sides have a value, the first error counts, and inequality is the negation. */
  lemma ComparisonsAnswer(left: Operand, right: Operand, w: Surroundings, s: Supplied)
    ensures var l, r := OperandValue(left, w, s), OperandValue(right, w, s);
            && (Evaluate(Equal(left, right), w, s) == Ok(true) <==> l.Ok? && l == r)
            && (Evaluate(Equal(left, right), w, s) == Ok(false) <==> l.Ok? && r.Ok? && l != r)
            && (l.Err? ==> Evaluate(Equal(left, right), w, s) == Err(l.error))
            && (l.Ok? && r.Err? ==> Evaluate(Equal(left, right), w, s) == Err(r.error))
    ensures Evaluate(NotEqual(left, right), w, s) == Evaluate(Not(Equal(left, right)), w, s)
  {
  }

  /** An input is set exactly when comparing with it is possible, and testing for it never fails. */
  lemma InputSetAnswers(name: string, w: Surroundings, s: Supplied)
    ensures var self := Operand.Reference("input." + name);
            && Evaluate(InputSet(name), w, s).Ok?
            && (Evaluate(InputSet(name), w, s) == Ok(true) <==> Evaluate(Equal(self, self), w, s) == Ok(true))
            && (Evaluate(InputSet(name), w, s) == Ok(false) <==>
                  Evaluate(Equal(self, self), w, s) == Err(InputNotSet("input." + name)))
    ensures Evaluate(Feature(name), w, s) == Ok(true) <==> name in w.features
    ensures Evaluate(Feature(name), w, s) == Ok(false) <==> name !in w.features
  {
    InputNameStandsFor(name, w, s);
    ComparisonsAnswer(Operand.Reference("input." + name), Operand.Reference("input." + name), w, s);
  }

  /** Conjunction, disjunction, negation and the constants, with the child that decides a list. */
  lemma ConnectivesAnswer(cs: seq<Condition>, w: Surroundings, s: Supplied)
    ensures Evaluate(And(cs), w, s) == Ok(true) <==> forall j :: 0 <= j < |cs| ==> Evaluate(cs[j], w, s) == Ok(true)
    ensures Evaluate(Or(cs), w, s) == Ok(false) <==> forall j :: 0 <= j < |cs| ==> Evaluate(cs[j], w, s) == Ok(false)
    ensures forall k: nat :: Decides(cs, k, true, w, s) ==> Evaluate(And(cs), w, s) == Evaluate(cs[k], w, s)
    ensures forall k: nat :: Decides(cs, k, false, w, s) ==> Evaluate(Or(cs), w, s) == Evaluate(cs[k], w, s)
    ensures forall j :: 0 <= j < |cs| ==>
              && (Evaluate(Not(cs[j]), w, s) == Ok(true) <==> Evaluate(cs[j], w, s) == Ok(false))
              && (Evaluate(Not(cs[j]), w, s) == Ok(false) <==> Evaluate(cs[j], w, s) == Ok(true))
    ensures Evaluate(Always, w, s) == Ok(true) && Evaluate(ContextPathExistsOrCreate, w, s) == Ok(true)
    ensures Evaluate(Constant(true), w, s) == Ok(true) && Evaluate(Constant(false), w, s) == Ok(false)
  {
    ListOutcome(cs, true, w, s);
    ListOutcome(cs, false, w, s);
    assert Evaluate(And(cs), w, s) == EvaluateAll(cs, true, w, s);
    assert Evaluate(Or(cs), w, s) == EvaluateAll(cs, false, w, s);
  }
}
