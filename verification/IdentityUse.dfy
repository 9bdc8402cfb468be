/**
 The identity check of planning is sound: in a plan without identity resolution no
 rendered path depends on who is asking.
 */
module IdentityUse {
  import opened Prelude
  import opened TextScan
  import opened PathTemplates
  import opened Conditions
  import opened Actions
  import opened PlanOrder
  import opened Planner
  import Runtime = RuntimeInvariance

  // ---------------------------------------------------- references stand in the text

  lemma {:induction false} ContainsAfter(before: string, s: string, needle: string)
    requires Contains(s, needle)
    ensures Contains(before + s, needle)
    decreases |before|
  {
    if before == "" {
      assert before + s == s;
    } else if !(needle <= before + s) {
      assert (before + s)[1..] == before[1..] + s;
      ContainsAfter(before[1..], s, needle);
    }
  }

  lemma FirstReferenceStands(before: string, name: string, tail: string, beginning: string)
    requires beginning <= name
    ensures Contains(before + ("${" + (name + "}" + tail)), "${" + beginning)
  {
    var text := "${" + (name + "}" + tail);
    assert name + "}" + tail == beginning + (name[|beginning|..] + "}" + tail);
    AppendAssociates("${", beginning, name[|beginning|..] + "}" + tail);
    ContainsAfter(before, text, "${" + beginning);
  }

  lemma LaterReferenceStands(before: string, name: string, tail: string, needle: string)
    requires Contains(tail, needle)
    ensures Contains(before + ("${" + (name + "}" + tail)), needle)
  {
    ContainsAfter(name + "}", tail, needle);
    ContainsAfter("${", name + "}" + tail, needle);
    ContainsAfter(before, "${" + (name + "}" + tail), needle);
  }

  /** What rendering looks up begins, in the text, with an opening mark and its own beginning. */
  lemma {:induction false} ReferenceStandsInText(t: string, name: string, beginning: string)
    requires name in References(Lex(t)) && beginning <= name
    ensures Contains(t, "${" + beginning)
    decreases |t|
  {
    var (before, after) := SplitOnce(t, "${").value;
    var (first, tail) := SplitOnce(after, "}").value;
    assert t == before + ("${" + (first + "}" + tail)) by {
      SplitOnceJoins(t, "${");
      SplitOnceJoins(after, "}");
      AppendAssociates(before, "${", after);
    }
    if name == first {
      FirstReferenceStands(before, first, tail, beginning);
    } else {
      ReferenceStandsInText(tail, name, beginning);
      LaterReferenceStands(before, first, tail, "${" + beginning);
    }
  }

  lemma NoIdentityIsNamed(text: string, name: string)
    requires !Contains(text, "${identity.") && name in References(Lex(text))
    ensures !("identity." <= name)
  {
    assert "${" + "identity." == "${identity.";
    if "identity." <= name {
      ReferenceStandsInText(text, name, "identity.");
    }
  }

  // ------------------------------------------------------- values without an identity

  /** The two requests differ at most in the identity. */
  predicate DifferInIdentity(s: Supplied, t: Supplied) {
    s.inputs == t.inputs && s.environment == t.environment
  }

  lemma OtherLookupsAgree(name: string, w: Surroundings, s: Supplied, t: Supplied)
    requires DifferInIdentity(s, t) && !("identity." <= name)
    ensures Lookup(name, w, s) == Lookup(name, w, t)
  {
    Runtime.NotIdentity(name);
  }

  lemma OtherNamesAgree(name: string, w: Surroundings, s: Supplied, t: Supplied)
    requires DifferInIdentity(s, t) && !("identity." <= name)
    ensures Runtime.AgreeOn(name, Values(w, s), Values(w, t))
  {
    assert Lookup(name, w, s) == Lookup(name, w, t) by {
      OtherLookupsAgree(name, w, s, t);
    }
    ValuesAnswerLookup(name, w, s);
    ValuesAnswerLookup(name, w, t);
  }

  /** A text without an identity interpolation renders alike for every identity. */
  lemma RenderingIgnoresIdentity(text: string, w: Surroundings, s: Supplied, t: Supplied)
    requires DifferInIdentity(s, t) && !Contains(text, "${identity.")
    ensures Render(text, Values(w, s)) == Render(text, Values(w, t))
  {
    forall name | name in References(Lex(text))
      ensures Runtime.AgreeOn(name, Values(w, s), Values(w, t))
    {
      NoIdentityIsNamed(text, name);
      OtherNamesAgree(name, w, s, t);
    }
    RenderDependsOnReferences(Lex(text), Values(w, s), Values(w, t));
  }

  /**
   Every plannable configuration without identity resolution: each path its actions
   render, failures included, is the same for any two identities, and none of its actions
   is of a kind that works on the resolved account.
   */
  lemma UnresolvedIdentityIsUnused(actions: seq<Action>, a: Action, w: Surroundings, s: Supplied, t: Supplied)
    requires IsPlannable(actions) && a in actions && DifferInIdentity(s, t)
    requires forall other :: other in actions ==> !other.kind.IdentityResolve?
    ensures forall field :: field in Runtime.PathFields(a) && field.Some? ==>
              Runtime.RenderField(field.value, w, s) == Runtime.RenderField(field.value, w, t)
    ensures !a.kind.IdentityMapUser? && !a.kind.IdentityEnsureHome? && !a.kind.ServiceSshPrepare?
         && !a.kind.ProcessDropPrivileges?
    ensures a.owner != Some("identity.target") && a.user != Some("identity.target")
  {
    assert DeclaresKnown(actions, a);
    assert FirstOfKind(actions, IdentityResolve).None?;
    assert !a.ReferencesIdentity();
    forall field | field in Runtime.PathFields(a) && field.Some?
      ensures Runtime.RenderField(field.value, w, s) == Runtime.RenderField(field.value, w, t)
    {
      assert field in a.IdentityFields();
      RenderingIgnoresIdentity(field.value, w, s, t);
    }
  }
}
