/**
 What resolving the declared inputs of a request gives, name by name: where the value of
 a declaration comes from, and which declaration a shared name follows.
 */
module ResolvedInputs {
  import opened Prelude
  import opened Inputs
  import opened RuntimeInvariance

  function NamesOf(d: Declaration): seq<string> {
    [d.name] + d.input.aliases
  }

  /** The table has a value under the k-th name and under none before it. */
  predicate IsFirstIn(names: seq<string>, table: map<string, string>, k: nat) {
    k < |names| && names[k] in table && forall j :: 0 <= j < k ==> names[j] !in table
  }

  predicate IsAbsent(names: seq<string>, table: map<string, string>) {
    forall j :: 0 <= j < |names| ==> names[j] !in table
  }

  /**
   Where the raw value of a declaration comes from: the command line before the
   environment, in each of them the name before its aliases, and last the default. A
   declaration that a request may not set has its default alone.
   */
  predicate IsSupplied(d: Declaration, r: Request, raw: string) {
    var names := NamesOf(d);
    || (d.input.runtime && exists k :: 0 <= k < |names| && IsFirstIn(names, r.cliInputs, k) && raw == r.cliInputs[names[k]])
    || (d.input.runtime && IsAbsent(names, r.cliInputs)
        && exists k :: 0 <= k < |names| && IsFirstIn(names, r.environment, k) && raw == r.environment[names[k]])
    || ((!d.input.runtime || (IsAbsent(names, r.cliInputs) && IsAbsent(names, r.environment)))
        && d.input.default.Some? && raw == ValueText(d.input.default.value))
  }

  lemma {:induction false} FirstOfIs(names: seq<string>, table: map<string, string>, k: nat)
    requires IsFirstIn(names, table, k)
    ensures FirstOf(names, table) == Some(table[names[k]])
    decreases |names|
  {
    if k > 0 {
      FirstOfIs(names[1..], table, k - 1);
    }
  }

  lemma {:induction false} FirstOfNone(names: seq<string>, table: map<string, string>)
    requires IsAbsent(names, table)
    ensures FirstOf(names, table) == None
    decreases |names|
  {
    if names != [] {
      FirstOfNone(names[1..], table);
    }
  }

  lemma {:induction false} SomeIsFirst(names: seq<string>, table: map<string, string>) returns (k: nat)
    requires !IsAbsent(names, table)
    ensures IsFirstIn(names, table, k)
    decreases |names|
  {
    k := 0;
    if names[0] !in table {
      var i :| 0 <= i < |names| && names[i] in table;
      assert names[1..][i - 1] == names[i];
      k := SomeIsFirst(names[1..], table);
      k := k + 1;
    }
  }

  lemma TableAnswers(names: seq<string>, table: map<string, string>, raw: string)
    ensures FirstOf(names, table) == None <==> IsAbsent(names, table)
    ensures FirstOf(names, table) == Some(raw) <==>
              exists k :: 0 <= k < |names| && IsFirstIn(names, table, k) && raw == table[names[k]]
  {
    if IsAbsent(names, table) {
      FirstOfNone(names, table);
    } else {
      var k := SomeIsFirst(names, table);
      FirstOfIs(names, table, k);
      forall j | 0 <= j < |names| && IsFirstIn(names, table, j)
        ensures j == k
      {
      }
    }
  }

  lemma DeclaredIsSupplied(d: Declaration, r: Request, raw: string)
    ensures DeclaredValue(d, r) == Some(raw) <==> IsSupplied(d, r, raw)
  {
    TableAnswers(NamesOf(d), r.cliInputs, raw);
    TableAnswers(NamesOf(d), r.environment, raw);
  }

  // ------------------------------------------------------------------ the whole table

  /** The k-th declaration supplies the name, and no later one does. */
  ghost predicate IsLastSupplier(ds: seq<Declaration>, r: Request, name: string, k: nat, raw: string) {
    && k < |ds| && name in NamesOf(ds[k]) && IsSupplied(ds[k], r, raw)
    && forall j, other :: k < j < |ds| && IsSupplied(ds[j], r, other) ==> name !in NamesOf(ds[j])
  }

  ghost predicate IsUnsupplied(ds: seq<Declaration>, r: Request, name: string) {
    forall k, raw :: 0 <= k < |ds| && IsSupplied(ds[k], r, raw) ==> name !in NamesOf(ds[k])
  }

  /** Every supplied value parses at its declared type. */
  ghost predicate AllAccepted(ds: seq<Declaration>, r: Request) {
    forall k, raw :: 0 <= k < |ds| && IsSupplied(ds[k], r, raw) ==> Accepts(ds[k].input.inputType, raw)
  }

  /** The table after the first declaration. */
  function AfterFirst(ds: seq<Declaration>, r: Request, values: map<string, string>): map<string, string>
    requires ds != []
  {
    match DeclaredValue(ds[0], r)
    case None => values
    case Some(raw) => InsertAll(values, NamesOf(ds[0]), raw)
  }

  lemma FirstAt(ds: seq<Declaration>, r: Request, values: map<string, string>, name: string)
    requires ds != []
    ensures forall raw :: IsSupplied(ds[0], r, raw) && name in NamesOf(ds[0]) ==>
              name in AfterFirst(ds, r, values) && AfterFirst(ds, r, values)[name] == raw
    ensures (forall raw :: IsSupplied(ds[0], r, raw) ==> name !in NamesOf(ds[0])) ==>
              AgreeOn(name, values, AfterFirst(ds, r, values))
  {
    forall raw
      ensures DeclaredValue(ds[0], r) == Some(raw) <==> IsSupplied(ds[0], r, raw)
    {
      DeclaredIsSupplied(ds[0], r, raw);
    }
    match DeclaredValue(ds[0], r)
    case None =>
    case Some(raw) => InsertAllAt(values, NamesOf(ds[0]), raw, name);
  }

  lemma {:induction false} UnsuppliedIsKept(ds: seq<Declaration>, r: Request, values: map<string, string>, name: string)
    requires Resolve(ds, r, values).Some? && IsUnsupplied(ds, r, name)
    ensures AgreeOn(name, values, Resolve(ds, r, values).value)
    decreases |ds|
  {
    if ds != [] {
      FirstAt(ds, r, values, name);
      UnsuppliedIsKept(ds[1..], r, AfterFirst(ds, r, values), name);
    }
  }

  lemma {:induction false} LastSupplierCounts(ds: seq<Declaration>, r: Request, values: map<string, string>,
                                              name: string, k: nat, raw: string)
    requires Resolve(ds, r, values).Some? && IsLastSupplier(ds, r, name, k, raw)
    ensures name in Resolve(ds, r, values).value && Resolve(ds, r, values).value[name] == raw
    decreases |ds|
  {
    var next := AfterFirst(ds, r, values);
    if k == 0 {
      FirstAt(ds, r, values, name);
      assert IsUnsupplied(ds[1..], r, name);
      UnsuppliedIsKept(ds[1..], r, next, name);
    } else {
      assert ds[1..][k - 1] == ds[k];
      LastSupplierCounts(ds[1..], r, next, name, k - 1, raw);
    }
  }

  lemma {:induction false} ResolvesIff(ds: seq<Declaration>, r: Request, values: map<string, string>)
    ensures Resolve(ds, r, values).Some? <==> AllAccepted(ds, r)
    decreases |ds|
  {
    if ds != [] {
      ResolvesIff(ds[1..], r, AfterFirst(ds, r, values));
      AcceptedStep(ds, r);
    }
  }

  lemma AcceptedStep(ds: seq<Declaration>, r: Request)
    requires ds != []
    ensures AllAccepted(ds, r) <==>
              && (DeclaredValue(ds[0], r).Some? ==> Accepts(ds[0].input.inputType, DeclaredValue(ds[0], r).value))
              && AllAccepted(ds[1..], r)
  {
    forall raw
      ensures DeclaredValue(ds[0], r) == Some(raw) <==> IsSupplied(ds[0], r, raw)
    {
      DeclaredIsSupplied(ds[0], r, raw);
    }
    assert forall k :: 0 < k < |ds| ==> ds[k] == ds[1..][k - 1];
    assert forall k :: 0 <= k < |ds| - 1 ==> ds[1..][k] == ds[k + 1];
  }

  /**
   The resolved table of a request: it exists exactly when every supplied value parses;
   a name has the value of the last declaration that supplies it, and is missing when
   none does.
   */
  lemma ResolvedExactlyWhen(ds: seq<Declaration>, r: Request, name: string)
    ensures Resolve(ds, r, map[]).Some? <==> AllAccepted(ds, r)
    ensures Resolve(ds, r, map[]).Some? && IsUnsupplied(ds, r, name) ==> name !in Resolve(ds, r, map[]).value
    ensures Resolve(ds, r, map[]).Some? ==>
              forall k: nat, raw :: IsLastSupplier(ds, r, name, k, raw) ==>
                name in Resolve(ds, r, map[]).value && Resolve(ds, r, map[]).value[name] == raw
  {
    ResolvesIff(ds, r, map[]);
    if Resolve(ds, r, map[]).Some? {
      if IsUnsupplied(ds, r, name) {
        UnsuppliedIsKept(ds, r, map[], name);
      }
      forall k: nat, raw | IsLastSupplier(ds, r, name, k, raw)
        ensures name in Resolve(ds, r, map[]).value && Resolve(ds, r, map[]).value[name] == raw
      {
        LastSupplierCounts(ds, r, map[], name, k, raw);
      }
    }
  }
}
