/**
 The runtime-invariance check of bootstrap configurations, and its soundness: an
 accepted startup action cannot observe what a request supplies.
 */
module RuntimeInvariance {
  import opened Prelude
  import opened TextScan
  import opened PathTemplates
  import opened Actions
  import opened Inputs
  import opened Conditions

  // ---------------------------------------------------------------------- inputs

  /** What a request may change. */
  datatype Request = Request(
    identity: Identity,
    environment: map<string, string>,
    cliInputs: map<string, string>)

  predicate IsId(s: string) {
    s != "" && AllDigits(s) && DecimalValue(s) <= U32_MAX
  }

  /** Whether a raw value parses at the declared type. */
  predicate Accepts(t: InputType, raw: string) {
    match t
    case UidPair =>
      var parts := Split(raw, ':');
      |parts| <= 2 && forall part :: part in parts ==> IsId(part)
    case Gid => IsId(raw)
    case Bool => raw in ["1", "true", "TRUE", "True", "0", "false", "FALSE", "False"]
    case Path => !Contains(raw, "${") && ValidateTemplate(raw).Ok?
  }

  function FirstOf(names: seq<string>, table: map<string, string>): Option<string> {
    if names == [] then None
    else if names[0] in table then Some(table[names[0]])
    else FirstOf(names[1..], table)
  }

  function DeclaredValue(d: Declaration, r: Request): Option<string> {
    var fallback := match d.input.default { case None => None case Some(v) => Some(ValueText(v)) };
    if !d.input.runtime then fallback
    else
      var names := [d.name] + d.input.aliases;
      match FirstOf(names, r.cliInputs)
      case Some(raw) => Some(raw)
      case None => match FirstOf(names, r.environment) { case Some(raw) => Some(raw) case None => fallback }
  }

  function InsertAll(values: map<string, string>, names: seq<string>, raw: string): map<string, string>
    decreases |names|
  {
    if names == [] then values else InsertAll(values[names[0] := raw], names[1..], raw)
  }

  /** Declarations in table order; a later one overwrites a shared alias. */
  function Resolve(ds: seq<Declaration>, r: Request, values: map<string, string>): Option<map<string, string>> {
    if ds == [] then Some(values)
    else match DeclaredValue(ds[0], r)
      case None => Resolve(ds[1..], r, values)
      case Some(raw) =>
        if !Accepts(ds[0].input.inputType, raw) then None
        else Resolve(ds[1..], r, InsertAll(values, [ds[0].name] + ds[0].input.aliases, raw))
  }

  /** The nested insertion loop; `None` when some value does not parse. */
  method ResolveInputs(declarations: seq<Declaration>, request: Request) returns (r: Option<map<string, string>>)
    ensures r == Resolve(declarations, request, map[])
  {
    var values: map<string, string> := map[];
    for k := 0 to |declarations|
      invariant Resolve(declarations, request, map[]) == Resolve(declarations[k..], request, values)
    {
      var d := declarations[k];
      assert declarations[k..][0] == d && declarations[k..][1..] == declarations[k + 1..];
      var raw := DeclaredValue(d, request);
      if raw.Some? {
        if !Accepts(d.input.inputType, raw.value) {
          return None;
        }
        ghost var before := values;
        ghost var names := [d.name] + d.input.aliases;
        values := values[d.name := raw.value];
        assert names[1..] == d.input.aliases;
        for j := 0 to |d.input.aliases|
          invariant InsertAll(before, names, raw.value) == InsertAll(values, d.input.aliases[j..], raw.value)
        {
          assert d.input.aliases[j..][1..] == d.input.aliases[j + 1..];
          values := values[d.input.aliases[j] := raw.value];
        }
      }
    }
    return Some(values);
  }

  // ------------------------------------------------------------------- the check

  datatype Finding = RequestIdentity | RuntimeInput(name: string) | RuntimeEnvironment(name: string)

  /** Names and aliases of the inputs a request may set. */
  function RuntimeNames(ds: seq<Declaration>): set<string> {
    set d, n | d in ds && d.input.runtime && n in [d.name] + d.input.aliases :: n
  }

  function NameFinding(name: string, runtime: set<string>): Option<Finding> {
    if "input." <= name then if name[6..] in runtime then Some(RuntimeInput(name[6..])) else None
    else if "env." <= name then Some(RuntimeEnvironment(name))
    else if "identity." <= name then Some(RequestIdentity)
    else None
  }

  function TokensFinding(tokens: Tokens, runtime: set<string>): Option<Finding> {
    match tokens
    case End(_) => None
    case Dangling(_) => None
    case Reference(_, name, rest) =>
      match NameFinding(name, runtime)
      case Some(f) => Some(f)
      case None => TokensFinding(rest, runtime)
  }

  function TextFinding(value: string, runtime: set<string>): Option<Finding> {
    if Contains(value, "identity.") then Some(RequestIdentity)
    else TokensFinding(Lex(value), runtime)
  }

  method RuntimeReference(value: string, runtime: set<string>) returns (r: Option<Finding>)
    ensures r == TextFinding(value, runtime)
  {
    if value == "identity.target" || Contains(value, "identity.") {
      return Some(RequestIdentity);
    }
    var rest := value;
    while true
      invariant TokensFinding(Lex(value), runtime) == TokensFinding(Lex(rest), runtime)
      decreases |rest|
    {
      var found := SplitOnce(rest, "${");
      if found.None? {
        return None;
      }
      var closed := SplitOnce(found.value.1, "}");
      if closed.None? {
        return None;
      }
      var (name, tail) := closed.value;
      if "input." <= name {
        if name[6..] in runtime {
          return Some(RuntimeInput(name[6..]));
        }
      } else if "env." <= name {
        return Some(RuntimeEnvironment(name));
      } else if "identity." <= name {
        return Some(RequestIdentity);
      }
      rest := tail;
    }
  }

  function OperandFinding(o: Operand, runtime: set<string>): Option<Finding> {
    if !o.Reference? then None
    else if "identity." <= o.name then Some(RequestIdentity)
    else if "input." <= o.name && o.name[6..] in runtime then Some(RuntimeInput(o.name[6..]))
    else if "env." <= o.name then Some(RuntimeEnvironment(o.name))
    else None
  }

  function ConditionFinding(c: Condition, runtime: set<string>): Option<Finding> {
    match c
    case Equal(l, r) => OrElse(OperandFinding(l, runtime), OperandFinding(r, runtime))
    case NotEqual(l, r) => OrElse(OperandFinding(l, runtime), OperandFinding(r, runtime))
    case And(children) => FirstFinding(children, runtime)
    case Or(children) => FirstFinding(children, runtime)
    case Not(child) => ConditionFinding(child, runtime)
    case Exists(path) => TextFinding(path, runtime)
    case Writable(path) => TextFinding(path, runtime)
    case InputSet(name) => if name in runtime then Some(RuntimeInput(name)) else None
    case Always => None
    case Constant(_) => None
    case ContextPathExistsOrCreate => None
    case Feature(_) => None
  }

  function OrElse(a: Option<Finding>, b: Option<Finding>): Option<Finding> {
    if a.Some? then a else b
  }

  function FirstFinding(cs: seq<Condition>, runtime: set<string>): Option<Finding> {
    if cs == [] then None
    else OrElse(ConditionFinding(cs[0], runtime), FirstFinding(cs[1..], runtime))
  }

  /** Request-scoped actions are rerun for every request, so they may depend on it. */
  predicate IsExempt(a: Action) {
    || a.source.WorkspaceOverlay?
    || a.kind.IdentityResolve? || a.kind.IdentityMapUser? || a.kind.IdentityEnsureHome?
    || a.kind.ProcessSetUserShell? || a.kind.ProcessDropPrivileges? || a.kind.HandoffExec?
  }

  function TextFields(a: Action): seq<Option<string>> {
    [a.path, a.link, a.target, a.mode, a.parentMode, a.owner, a.user, a.shell, a.content, a.hostKeyDir,
     a.authorizedKeysDir, a.authorizedKeysSource, a.runtimeDir, a.sshKeygen, a.subgroup, a.shadowPath]
  }

  /** The fields that are rendered as paths when the action runs. */
  function PathFields(a: Action): seq<Option<string>> {
    [a.path, a.link, a.target, a.hostKeyDir, a.authorizedKeysDir, a.authorizedKeysSource, a.runtimeDir,
     a.shadowPath, a.shell]
  }

  predicate IsInvariant(a: Action, runtime: set<string>) {
    && (forall field :: field in TextFields(a) && field.Some? ==> TextFinding(field.value, runtime).None?)
    && (a.condition.Some? ==>
          ParseCondition(a.condition.value).Some?
          && ConditionFinding(ParseCondition(a.condition.value).value, runtime).None?)
  }

  /** What the whole check accepts. */
  predicate IsRuntimeInvariant(ds: seq<Declaration>, actions: seq<Action>) {
    forall a :: a in actions && !IsExempt(a) ==> IsInvariant(a, RuntimeNames(ds))
  }

  method ValidateRuntimeInvariance(declarations: seq<Declaration>, actions: seq<Action>) returns (accepted: bool)
    ensures accepted == IsRuntimeInvariant(declarations, actions)
  {
    var runtime := RuntimeNames(declarations);
    for k := 0 to |actions|
      invariant forall a :: a in actions[..k] && !IsExempt(a) ==> IsInvariant(a, runtime)
    {
      var a := actions[k];
      assert a in actions;
      if IsExempt(a) {
        continue;
      }
      var passed := CheckAction(a, runtime);
      if !passed {
        return false;
      }
    }
    assert actions[..|actions|] == actions;
    return true;
  }

  method CheckAction(a: Action, runtime: set<string>) returns (passed: bool)
    ensures passed == IsInvariant(a, runtime)
  {
    var fields := TextFields(a);
    for j := 0 to |fields|
      invariant forall field :: field in fields[..j] && field.Some? ==> TextFinding(field.value, runtime).None?
    {
      if fields[j].Some? {
        var finding := RuntimeReference(fields[j].value, runtime);
        if finding.Some? {
          assert fields[j] in fields;
          return false;
        }
      }
    }
    assert fields[..|fields|] == fields;
    if a.condition.Some? {
      var parsed := ParseCondition(a.condition.value);
      return parsed.Some? && ConditionFinding(parsed.value, runtime).None?;
    }
    return true;
  }

  // ------------------------------------------------------------------- soundness

  /** Two resolved input tables agree on a name: both lack it, or both hold the same value. */
  predicate AgreeOn(name: string, v: map<string, string>, w: map<string, string>) {
    (name in v <==> name in w) && (name in v ==> v[name] == w[name])
  }

  /** Agreement outside the names a request may set. */
  ghost predicate AgreeOutside(runtime: set<string>, v: map<string, string>, w: map<string, string>) {
    forall name: string :: name !in runtime ==> AgreeOn(name, v, w)
  }

  lemma {:induction false} InsertAllAt(values: map<string, string>, names: seq<string>, raw: string, name: string)
    ensures name in InsertAll(values, names, raw) <==> name in values || name in names
    ensures name in names ==> InsertAll(values, names, raw)[name] == raw
    ensures name !in names && name in values ==> InsertAll(values, names, raw)[name] == values[name]
    decreases |names|
  {
    if names != [] {
      InsertAllAt(values[names[0] := raw], names[1..], raw, name);
    }
  }

  /**
   Whatever two requests supply, their resolved inputs agree on every name that no
   runtime input declares, even when aliases collide.
   */
  lemma {:induction false} ResolvedInputsAgree(
      all: seq<Declaration>, ds: seq<Declaration>, p: Request, q: Request,
      v: map<string, string>, w: map<string, string>)
    requires forall d :: d in ds ==> d in all
    requires AgreeOutside(RuntimeNames(all), v, w)
    requires Resolve(ds, p, v).Some? && Resolve(ds, q, w).Some?
    ensures AgreeOutside(RuntimeNames(all), Resolve(ds, p, v).value, Resolve(ds, q, w).value)
    decreases |ds|
  {
    if ds != [] {
      var names := [ds[0].name] + ds[0].input.aliases;
      assert ds[0] in ds;
      assert ds[0].input.runtime ==> forall n :: n in names ==> n in RuntimeNames(all);
      var raw, raw' := DeclaredValue(ds[0], p), DeclaredValue(ds[0], q);
      var v', w' := Inserted(v, names, raw), Inserted(w, names, raw');
      forall name: string | name !in RuntimeNames(all)
        ensures AgreeOn(name, v', w')
      {
        if raw.Some? {
          InsertAllAt(v, names, raw.value, name);
        }
        if raw'.Some? {
          InsertAllAt(w, names, raw'.value, name);
        }
        assert AgreeOn(name, v, w);
      }
      ResolvedInputsAgree(all, ds[1..], p, q, v', w');
    }
  }

  function Inserted(values: map<string, string>, names: seq<string>, raw: Option<string>): map<string, string> {
    if raw.None? then values else InsertAll(values, names, raw.value)
  }

  /** An interpolation name the check passes has the same value in both requests. */
  lemma LookupAgrees(name: string, runtime: set<string>, w: Surroundings, s: Supplied, t: Supplied)
    requires NameFinding(name, runtime).None? && AgreeOutside(runtime, s.inputs, t.inputs)
    ensures Lookup(name, w, s) == Lookup(name, w, t)
  {
    if "input." <= name {
      assert name[0] == 'i' && !("env." <= name);
      assert AgreeOn(name[6..], s.inputs, t.inputs);
    } else if Lookup(name, w, s).Some? || Lookup(name, w, t).Some? {
      assert !("identity." <= name);
      NotIdentity(name);
    }
  }

  lemma NotIdentity(name: string)
    requires !("identity." <= name)
    ensures name !in {"identity.uid", "identity.gid", "identity.user", "identity.home", "identity.target"}
  {
    assert "identity." <= "identity.uid" && "identity." <= "identity.gid" && "identity." <= "identity.user";
    assert "identity." <= "identity.home" && "identity." <= "identity.target";
  }

  lemma {:induction false} TokensFindingCoversReferences(tokens: Tokens, runtime: set<string>, name: string)
    requires TokensFinding(tokens, runtime).None? && name in References(tokens)
    ensures NameFinding(name, runtime).None?
  {
    if tokens.Reference? && name != tokens.name {
      TokensFindingCoversReferences(tokens.rest, runtime, name);
    }
  }

  lemma ValuesAgree(name: string, runtime: set<string>, w: Surroundings, s: Supplied, t: Supplied)
    requires NameFinding(name, runtime).None? && AgreeOutside(runtime, s.inputs, t.inputs)
    ensures AgreeOn(name, Values(w, s), Values(w, t))
  {
    LookupAgrees(name, runtime, w, s, t);
    ValuesAnswerLookup(name, w, s);
    ValuesAnswerLookup(name, w, t);
  }

  /** A path the check passes renders alike in both requests, failures included. */
  lemma RenderingIsInvariant(path: string, runtime: set<string>, w: Surroundings, s: Supplied, t: Supplied)
    requires TextFinding(path, runtime).None? && AgreeOutside(runtime, s.inputs, t.inputs)
    ensures Render(path, Values(w, s)) == Render(path, Values(w, t))
  {
    forall name | name in References(Lex(path))
      ensures AgreeOn(name, Values(w, s), Values(w, t))
    {
      TokensFindingCoversReferences(Lex(path), runtime, name);
      ValuesAgree(name, runtime, w, s, t);
    }
    RenderDependsOnReferences(Lex(path), Values(w, s), Values(w, t));
  }

  lemma OperandIsInvariant(o: Operand, runtime: set<string>, w: Surroundings, s: Supplied, t: Supplied)
    requires OperandFinding(o, runtime).None? && AgreeOutside(runtime, s.inputs, t.inputs)
    ensures OperandValue(o, w, s) == OperandValue(o, w, t)
  {
    if o.Reference? {
      LookupAgrees(o.name, runtime, w, s, t);
      if "input." <= o.name {
        assert AgreeOn(o.name[6..], s.inputs, t.inputs);
      }
    }
  }

  lemma {:induction false} ConditionIsInvariant(c: Condition, runtime: set<string>, w: Surroundings, s: Supplied, t: Supplied)
    requires ConditionFinding(c, runtime).None? && AgreeOutside(runtime, s.inputs, t.inputs)
    ensures Evaluate(c, w, s) == Evaluate(c, w, t)
    decreases c
  {
    match c
    case Equal(l, r) =>
      OperandIsInvariant(l, runtime, w, s, t);
      OperandIsInvariant(r, runtime, w, s, t);
    case NotEqual(l, r) =>
      OperandIsInvariant(l, runtime, w, s, t);
      OperandIsInvariant(r, runtime, w, s, t);
    case And(children) => ChildrenAreInvariant(c, children, true, runtime, w, s, t);
    case Or(children) => ChildrenAreInvariant(c, children, false, runtime, w, s, t);
    case Not(child) => ConditionIsInvariant(child, runtime, w, s, t);
    case Exists(path) => RenderingIsInvariant(path, runtime, w, s, t);
    case Writable(path) => RenderingIsInvariant(path, runtime, w, s, t);
    case InputSet(name) => assert AgreeOn(name, s.inputs, t.inputs);
    case _ =>
  }

  lemma {:induction false} ChildrenAreInvariant(
      parent: Condition, cs: seq<Condition>, neutral: bool, runtime: set<string>, w: Surroundings, s: Supplied, t: Supplied)
    requires forall c :: c in cs ==> c < parent
    requires FirstFinding(cs, runtime).None? && AgreeOutside(runtime, s.inputs, t.inputs)
    ensures EvaluateAll(cs, neutral, w, s) == EvaluateAll(cs, neutral, w, t)
    decreases parent, 0, |cs|
  {
    if cs != [] {
      assert cs[0] in cs;
      assert forall c :: c in cs[1..] ==> c in cs;
      ConditionIsInvariant(cs[0], runtime, w, s, t);
      ChildrenAreInvariant(parent, cs[1..], neutral, runtime, w, s, t);
    }
  }

  /** An action's `when`, parsed and evaluated; `None` when it does not parse. */
  function EvaluateWhen(a: Action, w: Surroundings, s: Supplied): Option<Result<bool, EvalError>> {
    match a.condition
    case None => Some(Evaluate(Always, w, s))
    case Some(text) =>
      match ParseCondition(text)
      case None => None
      case Some(c) => Some(Evaluate(c, w, s))
  }

  /** How a path field is turned into a path when the action runs. */
  function RenderField(field: string, w: Surroundings, s: Supplied): Option<Result<string, RenderError>> {
    if ValidateTemplate(field).Err? then None else Some(Render(field, Values(w, s)))
  }

  /** Identity, environment and inputs as resolution makes them from a request. */
  function Supply(ds: seq<Declaration>, r: Request): Option<Supplied> {
    match Resolve(ds, r, map[])
    case None => None
    case Some(inputs) => Some(Supplied(r.identity, r.environment, inputs))
  }

  /**
   Non-interference. For every accepted configuration, each action that is not
   request-scoped has the same `when` outcome and the same rendered paths, errors
   included, under any two requests whose inputs resolve, with the working
   directory, the features and the filesystem answers held fixed.
   */
  lemma AcceptedActionsIgnoreTheRequest(
      ds: seq<Declaration>, actions: seq<Action>, a: Action, w: Surroundings, p: Request, q: Request)
    requires IsRuntimeInvariant(ds, actions) && a in actions && !IsExempt(a)
    requires Supply(ds, p).Some? && Supply(ds, q).Some?
    ensures EvaluateWhen(a, w, Supply(ds, p).value) == EvaluateWhen(a, w, Supply(ds, q).value)
    ensures EvaluateWhen(a, w, Supply(ds, p).value).Some?
    ensures forall field :: field in PathFields(a) && field.Some? ==>
              RenderField(field.value, w, Supply(ds, p).value) == RenderField(field.value, w, Supply(ds, q).value)
  {
    var s, t, runtime := Supply(ds, p).value, Supply(ds, q).value, RuntimeNames(ds);
    ResolvedInputsAgree(ds, ds, p, q, map[], map[]);
    assert IsInvariant(a, runtime);
    if a.condition.Some? {
      ConditionIsInvariant(ParseCondition(a.condition.value).value, runtime, w, s, t);
    }
    forall field | field in PathFields(a) && field.Some?
      ensures RenderField(field.value, w, s) == RenderField(field.value, w, t)
    {
      assert field in TextFields(a);
      RenderingIsInvariant(field.value, runtime, w, s, t);
    }
  }

  // ---------------------------------------------------- the check is not too strict

  lemma {:induction false} SplitOnceAt(before: string, after: string, c: char)
    requires c !in before
    ensures SplitOnce(before + [c] + after, [c]) == Some((before, after))
    decreases |before|
  {
    var s := before + [c] + after;
    if before == "" {
      assert s == [c] + after && [c] <= s && s[1..] == after;
    } else {
      assert s[0] == before[0] && s[1..] == before[1..] + [c] + after;
      assert !([c] <= s);
      SplitOnceAt(before[1..], after, c);
      assert [before[0]] + before[1..] == before;
    }
  }

  lemma IdentityReferences(name: string)
    requires "identity." <= name && IsReference(name)
    ensures name in ["identity.uid", "identity.gid", "identity.user", "identity.home", "identity.target"]
  {
    var rest := name[9..];
    assert rest in ["uid", "gid", "user", "home", "target"] by {
      assert name == "identity" + ['.'] + rest;
      SplitOnceAt("identity", rest, '.');
    }
    assert name == "identity." + rest;
    IdentityNames(rest);
  }

  lemma IdentityNames(rest: string)
    requires rest in ["uid", "gid", "user", "home", "target"]
    ensures "identity." + rest in ["identity.uid", "identity.gid", "identity.user", "identity.home", "identity.target"]
  {
    assert "identity." + "uid" == "identity.uid" && "identity." + "gid" == "identity.gid";
    assert "identity." + "user" == "identity.user" && "identity." + "home" == "identity.home";
    assert "identity." + "target" == "identity.target";
  }

  /**
   Over resolved tables the check of an operand is exact: a reference is reported if and
   only if two tables that agree outside the reported names give it different values.
   */
  lemma OperandCheckIsExactOnTables(o: Operand, runtime: set<string>, w: Surroundings)
    requires o.Reference? ==> IsReference(o.name)
    ensures OperandFinding(o, runtime).None? <==>
              forall s: Supplied, t: Supplied :: AgreeOutside(runtime, s.inputs, t.inputs) ==>
                OperandValue(o, w, s) == OperandValue(o, w, t)
  {
    if OperandFinding(o, runtime).None? {
      forall s: Supplied, t: Supplied | AgreeOutside(runtime, s.inputs, t.inputs)
        ensures OperandValue(o, w, s) == OperandValue(o, w, t)
      {
        OperandIsInvariant(o, runtime, w, s, t);
      }
    } else {
      var s, t := TellApart(o, runtime, w);
    }
  }

  /** An input reference reads the resolved inputs and nothing else. */
  lemma InputsDecide(o: Operand, w: Surroundings)
    requires o.Reference? && "input." <= o.name
    ensures forall s: Supplied :: OperandValue(o, w, s) ==
              if o.name[6..] in s.inputs then Ok(Text(s.inputs[o.name[6..]])) else Err(InputNotSet(o.name))
  {
    forall s: Supplied
      ensures FixedOperand(o.name, w, s).None?
    {
      NamespacesAreApart(o.name, w, s);
      FixedOperandAgrees(o.name, w, s);
    }
  }

  lemma EnvironmentDecides(o: Operand, w: Surroundings, s: Supplied)
    requires o.Reference? && "env." <= o.name
    ensures OperandValue(o, w, s) ==
            if o.name[4..] in s.environment then Ok(Text(s.environment[o.name[4..]])) else Err(EnvironmentNotSet(o.name))
  {
    NamespacesAreApart(o.name, w, s);
    FixedOperandAgrees(o.name, w, s);
  }

  lemma TellApart(o: Operand, runtime: set<string>, w: Surroundings) returns (s: Supplied, t: Supplied)
    requires o.Reference? && IsReference(o.name) && OperandFinding(o, runtime).Some?
    ensures AgreeOutside(runtime, s.inputs, t.inputs)
    ensures OperandValue(o, w, s) != OperandValue(o, w, t)
  {
    var none := Supplied(Identity(0, 0, "", ""), map[], map[]);
    s := none;
    if "identity." <= o.name {
      t := none.(identity := Identity(1, 1, "x", "x"));
      IdentityReferences(o.name);
      IdentityTellsApart(o.name, w, s, t);
    } else if "input." <= o.name && o.name[6..] in runtime {
      t := none.(inputs := map[o.name[6..] := ""]);
      InputsDecide(o, w);
    } else {
      t := none.(environment := map[o.name[4..] := ""]);
      EnvironmentDecides(o, w, s);
      EnvironmentDecides(o, w, t);
    }
  }

  lemma IdentityTellsApart(name: string, w: Surroundings, s: Supplied, t: Supplied)
    requires name in ["identity.uid", "identity.gid", "identity.user", "identity.home", "identity.target"]
    requires s.identity == Identity(0, 0, "", "") && t.identity == Identity(1, 1, "x", "x")
    ensures OperandValue(Operand.Reference(name), w, s) != OperandValue(Operand.Reference(name), w, t)
  {
    assert name[0] == 'i' && name[1] == 'd';
    assert DecimalValue(ToDecimal(0)) != DecimalValue(ToDecimal(1));
    assert Lookup(name, w, s) != Lookup(name, w, t);
  }
}
