/**
 How exact the runtime-invariance check is over requests: which references two requests
 can really tell apart, and when the check reports one that they cannot.
 */
module RuntimeExactness {
  import opened Prelude
  import opened TextScan
  import opened PathTemplates
  import opened Conditions
  import opened Inputs
  import opened RuntimeInvariance

  predicate Claims(d: Declaration, name: string) {
    name in [d.name] + d.input.aliases
  }

  /** What validation guarantees: the declarations form a table, and their defaults parse. */
  predicate AreValid(ds: seq<Declaration>) {
    && (forall i, j :: 0 <= i < j < |ds| ==> ds[i].name != ds[j].name)
    && DefaultsParse(ds)
  }

  predicate DefaultsParse(ds: seq<Declaration>) {
    forall d :: d in ds && d.input.default.Some? ==> Accepts(d.input.inputType, ValueText(d.input.default.value))
  }

  /** A declaration no request can change always fills the name. */
  predicate Pins(d: Declaration, name: string) {
    Claims(d, name) && !d.input.runtime && d.input.default.Some?
  }

  predicate Opens(d: Declaration, name: string) {
    Claims(d, name) && d.input.runtime
  }

  /** The name holds the same in every resolved table, given whether it did before `ds`. */
  predicate FixedAfter(ds: seq<Declaration>, name: string, fixed: bool) {
    if ds == [] then fixed
    else FixedAfter(ds[1..], name, if Opens(ds[0], name) then false else fixed || Pins(ds[0], name))
  }

  /** A runtime input's name is filled again, later in the table, by a fixed default. */
  ghost predicate IsShadowed(ds: seq<Declaration>, name: string) {
    exists k :: 0 <= k < |ds| && Pins(ds[k], name) && forall j :: k < j < |ds| ==> !Opens(ds[j], name)
  }

  lemma {:induction false} FixedIff(ds: seq<Declaration>, name: string, fixed: bool)
    ensures FixedAfter(ds, name, fixed) <==>
              IsShadowed(ds, name) || (fixed && forall j :: 0 <= j < |ds| ==> !Opens(ds[j], name))
    decreases |ds|
  {
    if ds != [] {
      var rest := ds[1..];
      FixedIff(rest, name, if Opens(ds[0], name) then false else fixed || Pins(ds[0], name));
      assert forall j :: 0 < j < |ds| ==> ds[j] == rest[j - 1];
      assert forall j :: 0 <= j < |rest| ==> rest[j] == ds[j + 1];
      if k :| 0 <= k < |rest| && Pins(rest[k], name) && forall j :: k < j < |rest| ==> !Opens(rest[j], name) {
        assert Pins(ds[k + 1], name);
        assert forall j :: k + 1 < j < |ds| ==> !Opens(ds[j], name);
      }
      if k :| 0 <= k < |ds| && Pins(ds[k], name) && forall j :: k < j < |ds| ==> !Opens(ds[j], name) {
        assert k > 0 ==> Pins(rest[k - 1], name);
        assert forall j :: k <= j < |rest| ==> !Opens(rest[j], name);
      }
    }
  }

  // ------------------------------------------------------------- what stays the same

  lemma {:induction false} FixedInputsAgree(ds: seq<Declaration>, p: Request, q: Request, v: map<string, string>,
                                            w: map<string, string>, name: string, fixed: bool)
    requires Resolve(ds, p, v).Some? && Resolve(ds, q, w).Some? && (fixed ==> AgreeOn(name, v, w))
    ensures FixedAfter(ds, name, fixed) ==> AgreeOn(name, Resolve(ds, p, v).value, Resolve(ds, q, w).value)
    decreases |ds|
  {
    if ds != [] {
      var d := ds[0];
      var names := [d.name] + d.input.aliases;
      var raw, raw' := DeclaredValue(d, p), DeclaredValue(d, q);
      InsertedAt(v, names, raw, name);
      InsertedAt(w, names, raw', name);
      FixedInputsAgree(ds[1..], p, q, Inserted(v, names, raw), Inserted(w, names, raw'), name,
                       if Opens(d, name) then false else fixed || Pins(d, name));
    }
  }

  lemma InsertedAt(values: map<string, string>, names: seq<string>, raw: Option<string>, name: string)
    ensures name in Inserted(values, names, raw) <==> name in values || (raw.Some? && name in names)
    ensures raw.Some? && name in names ==> Inserted(values, names, raw)[name] == raw.value
    ensures !(raw.Some? && name in names) && name in values ==> Inserted(values, names, raw)[name] == values[name]
  {
    if raw.Some? {
      InsertAllAt(values, names, raw.value, name);
    }
  }

  // --------------------------------------------------------------- what can be changed

  /** Two values of each type. */
  function Sample(t: InputType, second: bool): string {
    match t
    case Path => if second then "/b" else "/a"
    case _ => if second then "1" else "0"
  }

  lemma SamplesAreAccepted(t: InputType, second: bool)
    ensures Accepts(t, Sample(t, second)) && Sample(t, false) != Sample(t, true)
  {
    match t
    case Path => PathIsAccepted(Sample(t, second));
    case UidPair => DigitIsAccepted(Sample(t, second));
    case Gid => DigitIsAccepted(Sample(t, second));
    case Bool =>
  }

  lemma DigitIsAccepted(s: string)
    requires |s| == 1 && IsDigit(s[0])
    ensures IsId(s) && Split(s, ':') == [s]
  {
    assert s[..|s| - 1] == "";
    SplitOfPlain(s, ':');
  }

  lemma PathIsAccepted(s: string)
    requires |s| == 2 && s[0] == '/' && (s[1] == 'a' || s[1] == 'b')
    ensures Accepts(Path, s)
  {
    var rest := s[1..];
    assert rest[1..] == "";
    assert SplitOnce("", "${").None? && SplitOnce("", "$(").None?;
    assert SplitOnce(rest, "${").None? && SplitOnce(rest, "$(").None?;
    assert CheckInterpolations(rest) == Ok([]);
    SplitOfPlain(rest, '/');
    assert Split(s, '/') == [""] + [rest];
  }

  /** Every runtime input is set by its own name, to one of its two samples. */
  predicate IsSampled(ds: seq<Declaration>, r: Request, second: bool) {
    forall d :: d in ds && d.input.runtime ==>
      d.name in r.cliInputs && r.cliInputs[d.name] == Sample(d.input.inputType, second)
  }

  function SampleInputs(ds: seq<Declaration>, second: bool): map<string, string> {
    if ds == [] then map[] else SampleInputs(ds[1..], second)[ds[0].name := Sample(ds[0].input.inputType, second)]
  }

  lemma {:induction false} SampleInputsSample(ds: seq<Declaration>, second: bool, d: Declaration)
    requires d in ds && forall i, j :: 0 <= i < j < |ds| ==> ds[i].name != ds[j].name
    ensures d.name in SampleInputs(ds, second) && SampleInputs(ds, second)[d.name] == Sample(d.input.inputType, second)
    decreases |ds|
  {
    if d != ds[0] {
      var k :| 0 <= k < |ds| && ds[k] == d;
      assert ds[1..][k - 1] == d;
      assert ds[0].name != ds[k].name;
      SampleInputsSample(ds[1..], second, d);
    }
  }

  predicate Differ(name: string, v: map<string, string>, w: map<string, string>) {
    name in v && name in w && v[name] != w[name]
  }

  /** Under the two sampled requests everything resolves, and differently where it is not fixed. */
  lemma {:induction false} SampledInputsDiffer(ds: seq<Declaration>, p: Request, q: Request, v: map<string, string>,
                                               w: map<string, string>, name: string, fixed: bool)
    requires DefaultsParse(ds) && IsSampled(ds, p, false) && IsSampled(ds, q, true) && (!fixed ==> Differ(name, v, w))
    ensures Resolve(ds, p, v).Some? && Resolve(ds, q, w).Some?
    ensures !FixedAfter(ds, name, fixed) ==> Differ(name, Resolve(ds, p, v).value, Resolve(ds, q, w).value)
    decreases |ds|
  {
    if ds != [] {
      var d := ds[0];
      assert d in ds;
      var names := [d.name] + d.input.aliases;
      var raw, raw' := DeclaredValue(d, p), DeclaredValue(d, q);
      SamplesAreAccepted(d.input.inputType, false);
      SamplesAreAccepted(d.input.inputType, true);
      InsertedAt(v, names, raw, name);
      InsertedAt(w, names, raw', name);
      SampledInputsDiffer(ds[1..], p, q, Inserted(v, names, raw), Inserted(w, names, raw'), name,
                          if Opens(d, name) then false else fixed || Pins(d, name));
    }
  }

  function SampleRequest(ds: seq<Declaration>, second: bool): Request {
    if second then Request(Identity(1, 1, "x", "x"), map[], SampleInputs(ds, second))
    else Request(Identity(0, 0, "", ""), map[], SampleInputs(ds, second))
  }

  lemma SampleRequestSamples(ds: seq<Declaration>, second: bool)
    requires AreValid(ds)
    ensures IsSampled(ds, SampleRequest(ds, second), second)
  {
    forall d | d in ds && d.input.runtime
      ensures d.name in SampleInputs(ds, second) && SampleInputs(ds, second)[d.name] == Sample(d.input.inputType, second)
    {
      SampleInputsSample(ds, second, d);
    }
  }

  // -------------------------------------------------------------------- main results

  /** Two requests whose inputs resolve give the operand different outcomes. */
  ghost predicate TellsApart(ds: seq<Declaration>, o: Operand, w: Surroundings, p: Request, q: Request) {
    && Supply(ds, p).Some? && Supply(ds, q).Some?
    && OperandValue(o, w, Supply(ds, p).value) != OperandValue(o, w, Supply(ds, q).value)
  }

  ghost predicate IsObservable(ds: seq<Declaration>, o: Operand, w: Surroundings) {
    exists p: Request, q: Request :: TellsApart(ds, o, w, p, q)
  }

  /** A reported input reference that the table fills again with a fixed default. */
  ghost predicate IsShadowedReference(ds: seq<Declaration>, o: Operand) {
    && o.Reference? && "input." <= o.name
    && o.name[6..] in RuntimeNames(ds) && IsShadowed(ds, o.name[6..])
  }

  lemma RuntimeNameIsOpen(ds: seq<Declaration>, name: string)
    ensures name in RuntimeNames(ds) <==> exists k :: 0 <= k < |ds| && Opens(ds[k], name)
  {
    if name in RuntimeNames(ds) {
      var d :| d in ds && d.input.runtime && name in [d.name] + d.input.aliases;
      var k :| 0 <= k < |ds| && ds[k] == d;
      assert Opens(ds[k], name);
    }
  }

  /** An input reference can be told apart exactly when it is reported and not shadowed. */
  lemma InputIsObservableIff(ds: seq<Declaration>, o: Operand, w: Surroundings)
    requires AreValid(ds) && o.Reference? && "input." <= o.name
    ensures IsObservable(ds, o, w) <==> o.name[6..] in RuntimeNames(ds) && !IsShadowed(ds, o.name[6..])
  {
    var name := o.name[6..];
    FixedIff(ds, name, true);
    RuntimeNameIsOpen(ds, name);
    InputsDecide(o, w);
    if FixedAfter(ds, name, true) {
      forall p: Request, q: Request | Supply(ds, p).Some? && Supply(ds, q).Some?
        ensures OperandValue(o, w, Supply(ds, p).value) == OperandValue(o, w, Supply(ds, q).value)
      {
        FixedInputsAgree(ds, p, q, map[], map[], name, true);
      }
    } else {
      var p, q := SampleRequest(ds, false), SampleRequest(ds, true);
      SampleRequestSamples(ds, false);
      SampleRequestSamples(ds, true);
      SampledInputsDiffer(ds, p, q, map[], map[], name, true);
      assert TellsApart(ds, o, w, p, q);
    }
  }

  /** Any two requests with different identities tell an identity reference apart. */
  lemma IdentityIsObservable(ds: seq<Declaration>, o: Operand, w: Surroundings)
    requires AreValid(ds) && o.Reference? && "identity." <= o.name && IsReference(o.name)
    ensures IsObservable(ds, o, w)
  {
    var p, q := SampleRequest(ds, false), SampleRequest(ds, true);
    SampleRequestSamples(ds, false);
    SampleRequestSamples(ds, true);
    SampledInputsDiffer(ds, p, q, map[], map[], "", true);
    IdentityReferences(o.name);
    IdentityTellsApart(o.name, w, Supply(ds, p).value, Supply(ds, q).value);
    assert TellsApart(ds, o, w, p, q);
  }

  /** A variable that is set in one request only is told apart, whatever inputs read it, too. */
  lemma EnvironmentIsObservable(ds: seq<Declaration>, o: Operand, w: Surroundings)
    requires AreValid(ds) && o.Reference? && "env." <= o.name
    ensures IsObservable(ds, o, w)
  {
    var p := SampleRequest(ds, false);
    var q := SampleRequest(ds, true).(environment := map[o.name[4..] := ""]);
    SampleRequestSamples(ds, false);
    SampleRequestSamples(ds, true);
    assert IsSampled(ds, q, true);
    SampledInputsDiffer(ds, p, q, map[], map[], "", true);
    EnvironmentDecides(o, w, Supply(ds, p).value);
    EnvironmentDecides(o, w, Supply(ds, q).value);
    assert TellsApart(ds, o, w, p, q);
  }

  /**
   On comparison operands, over requests: what can be told apart is reported, and what is
   reported can be told apart, except for a runtime input name that the table fills again
   with a fixed default.
   */
  lemma OperandCheckIsExact(ds: seq<Declaration>, o: Operand, w: Surroundings)
    requires AreValid(ds) && (o.Reference? ==> IsReference(o.name))
    ensures IsObservable(ds, o, w) <==> OperandFinding(o, RuntimeNames(ds)).Some? && !IsShadowedReference(ds, o)
  {
    if OperandFinding(o, RuntimeNames(ds)).None? {
      UnreportedIsInvisible(ds, o, w);
    } else if "identity." <= o.name {
      assert o.name[1] == 'd';
      IdentityIsObservable(ds, o, w);
    } else if "env." <= o.name {
      assert o.name[0] == 'e';
      EnvironmentIsObservable(ds, o, w);
    } else {
      InputIsObservableIff(ds, o, w);
    }
  }

  lemma UnreportedIsInvisible(ds: seq<Declaration>, o: Operand, w: Surroundings)
    requires OperandFinding(o, RuntimeNames(ds)).None?
    ensures !IsObservable(ds, o, w)
  {
    forall p: Request, q: Request | Supply(ds, p).Some? && Supply(ds, q).Some?
      ensures OperandValue(o, w, Supply(ds, p).value) == OperandValue(o, w, Supply(ds, q).value)
    {
      ResolvedInputsAgree(ds, ds, p, q, map[], map[]);
      OperandIsInvariant(o, RuntimeNames(ds), w, Supply(ds, p).value, Supply(ds, q).value);
    }
  }

  /** No name or alias belongs to two inputs, as the profile loader demands. */
  predicate NamesAreUnshared(ds: seq<Declaration>) {
    forall i, j, n :: 0 <= i < j < |ds| && n in [ds[i].name] + ds[i].input.aliases ==> !Claims(ds[j], n)
  }

  /** For every configuration the loader lets through, a report is a real dependency on the request. */
  lemma LoadedChecksAreExact(ds: seq<Declaration>, o: Operand, w: Surroundings)
    requires AreValid(ds) && NamesAreUnshared(ds) && (o.Reference? ==> IsReference(o.name))
    ensures IsObservable(ds, o, w) <==> OperandFinding(o, RuntimeNames(ds)).Some?
  {
    OperandCheckIsExact(ds, o, w);
    if o.Reference? && "input." <= o.name {
      UnsharedIsNotShadowed(ds, o.name[6..]);
    }
  }

  lemma UnsharedIsNotShadowed(ds: seq<Declaration>, name: string)
    requires NamesAreUnshared(ds)
    ensures !(name in RuntimeNames(ds) && IsShadowed(ds, name))
  {
    RuntimeNameIsOpen(ds, name);
    forall k, j | 0 <= k < |ds| && 0 <= j < |ds| && Pins(ds[k], name)
      ensures !Opens(ds[j], name)
    {
    }
  }

  /** Without that demand a report may be idle: an alias of `A` is filled again by the input `X`. */
  lemma ShadowedAliasIsReported(w: Surroundings)
    ensures var ds := [Declaration("A", Input(Bool, ["X"], true, None)),
                       Declaration("X", Input(Bool, [], false, Some(BoolValue(true))))];
            var o := Operand.Reference("input.X");
            AreValid(ds) && OperandFinding(o, RuntimeNames(ds)).Some? && !IsObservable(ds, o, w)
  {
    var a := Declaration("A", Input(Bool, ["X"], true, None));
    var x := Declaration("X", Input(Bool, [], false, Some(BoolValue(true))));
    var ds, o := [a, x], Operand.Reference("input.X");
    assert a in ds && "X" in [a.name] + a.input.aliases;
    assert o.name[6..] == "X" && "input." <= o.name;
    assert o.name[1] == 'n';
    assert a.name != x.name;
    assert Pins(ds[1], "X");
    assert IsShadowed(ds, "X");
    InputIsObservableIff(ds, o, w);
  }
}
