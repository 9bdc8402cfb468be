/**
 A second printer, which relies on precedence: `||` binds weakest, then `&&`, then `!`,
 then the comparisons. It parenthesises a child only where its own operator does not bind
 tighter, and `Parse` undoes it.
 */
module ConditionPrecedence {
  import opened Prelude
  import opened Text
  import opened ConditionExpr
  import opened ConditionExprTheorems
  import opened ConditionPrinter

  /** Leaves and negations bind tighter than both boolean operators. */
  predicate IsTight(e: Expr) {
    !e.And? && !e.Or?
  }

  function Plain(e: Expr): string {
    match e
    case Atom(text) => text
    case Equal(left, right) => Compared(left, "==", right)
    case NotEqual(left, right) => Compared(left, "!=", right)
    case Not(child) => "!" + if IsTight(child) then Plain(child) else Parenthesise(Plain(child))
    case And(children) => Woven(Operands(children, true), "&&")
    case Or(children) => Woven(Operands(children, false), "||")
  }

  /** The children of a conjunction, or of a disjunction, as they stand between its operators. */
  function Operands(es: seq<Expr>, conjunction: bool): (r: seq<string>)
    ensures |r| == |es|
  {
    if es == [] then []
    else [if es[0].Or? || (conjunction && es[0].And?) then Parenthesise(Plain(es[0])) else Plain(es[0])]
         + Operands(es[1..], conjunction)
  }

  /** Texts with a spaced operator between them. */
  function Woven(parts: seq<string>, operator: string): string {
    if parts == [] then ""
    else if |parts| == 1 then parts[0]
    else Compared(parts[0], operator, Woven(parts[1..], operator))
  }

  // --------------------------------------------------------------------- woven texts

  predicate AreSolid(parts: seq<string>) {
    forall p :: p in parts ==> Solid(p)
  }

  predicate AreFree(parts: seq<string>, needle: string)
    requires IsOperator(needle)
  {
    forall p :: p in parts ==> Free(p, needle)
  }

  lemma {:induction false} WovenIsSolid(parts: seq<string>, operator: string)
    requires IsOperator(operator) && parts != [] && AreSolid(parts)
    ensures Solid(Woven(parts, operator))
    decreases |parts|
  {
    assert parts[0] in parts;
    if |parts| > 1 {
      assert forall p :: p in parts[1..] ==> p in parts;
      WovenIsSolid(parts[1..], operator);
      OperatorIsBalanced(operator);
      SolidAround(parts[0], [' '] + operator + [' '], Woven(parts[1..], operator));
    }
  }

  lemma {:induction false} WovenIsFree(parts: seq<string>, operator: string, needle: string)
    requires IsOperator(operator) && IsOperator(needle) && operator[0] != needle[0]
    requires parts != [] && AreSolid(parts) && AreFree(parts, needle)
    ensures Free(Woven(parts, operator), needle)
    decreases |parts|
  {
    assert parts[0] in parts;
    if |parts| > 1 {
      assert forall p :: p in parts[1..] ==> p in parts;
      WovenIsSolid(parts[1..], operator);
      WovenIsFree(parts[1..], operator, needle);
      ComparedIsFree(parts[0], operator, Woven(parts[1..], operator), needle);
    }
  }

  /** What was read before the first cut goes into the first piece. */
  lemma {:induction false} PiecesWithLead(t: string, needle: string, st: State, lead: string, current: string)
    requires IsOperator(needle)
    ensures var pieces := Pieces(t, needle, st, current);
            Pieces(t, needle, st, lead + current) == [lead + pieces[0]] + pieces[1..]
    decreases |t|
  {
    if t != "" && !IsHit(st, t, needle) && Step(st, t[0]).Some? {
      AppendAssociates(lead, current, [t[0]]);
      PiecesWithLead(t[1..], needle, Step(st, t[0]).value, lead, current + [t[0]]);
    } else {
      AppendAssociates(lead, current, t);
    }
  }

  lemma TrimAfterBlank(s: string)
    ensures Trim([' '] + s) == Trim(s)
  {
    assert ([' '] + s)[1..] == s;
  }

  /** Cutting a woven text at its operator, and trimming, gives the texts back. */
  lemma {:induction false} PiecesOfWoven(parts: seq<string>, operator: string)
    requires IsOperator(operator) && parts != [] && AreSolid(parts) && AreFree(parts, operator)
    ensures TrimEach(Pieces(Woven(parts, operator), operator, START, "")) == parts
    decreases |parts|
  {
    assert parts[0] in parts;
    if |parts| == 1 {
      PiecesKeepFree(parts[0], "", operator, START, "", "");
      assert parts[0] + "" == parts[0] && "" + parts[0] == parts[0];
      TrimIsIdentity(parts[0]);
    } else {
      var rest := parts[1..];
      var tail := Woven(rest, operator);
      assert forall p :: p in rest ==> p in parts;
      PiecesOfWoven(rest, operator);
      ComparedFirstHit(parts[0], operator, tail);
      PiecesKeepBlank(tail, operator, "");
      PiecesWithLead(tail, operator, START, [' '], "");
      assert "" + [' '] == [' '] + "";
      TrimOfFirst(Pieces(tail, operator, START, ""), parts[0]);
      assert [parts[0]] + rest == parts;
    }
  }

  lemma TrimOfFirst(pieces: seq<string>, first: string)
    requires pieces != [] && Solid(first)
    ensures TrimEach([first + [' ']] + ([[' '] + pieces[0]] + pieces[1..])) == [first] + TrimEach(pieces)
  {
    TrimOneSpace(first);
    TrimAfterBlank(pieces[0]);
    var cut := [[' '] + pieces[0]] + pieces[1..];
    assert cut[1..] == pieces[1..];
    assert ([first + [' ']] + cut)[1..] == cut;
  }

  lemma SplitOfWoven(parts: seq<string>, operator: string)
    requires IsOperator(operator) && |parts| >= 2 && AreSolid(parts) && AreFree(parts, operator)
    ensures SplitOn(Woven(parts, operator), operator) == Ok(parts)
  {
    PiecesOfWoven(parts, operator);
    WovenIsSolid(parts, operator);
  }

  lemma WovenIsNotWrapped(parts: seq<string>, operator: string)
    requires IsOperator(operator) && |parts| >= 2 && AreSolid(parts)
    ensures StripOuter(Woven(parts, operator)) == Ok(Woven(parts, operator))
  {
    assert parts[0] in parts;
    assert forall p :: p in parts[1..] ==> p in parts;
    WovenIsSolid(parts[1..], operator);
    ComparisonIsNotWrapped(parts[0], operator, Woven(parts[1..], operator));
  }

  // ------------------------------------------------------------- shape of plain texts

  /** A printed tree is solid, not wrapped, and shows no operator that binds weaker than its own. */
  predicate IsShaped(e: Expr) {
    && Solid(Plain(e)) && StripOuter(Plain(e)) == Ok(Plain(e))
    && (!e.Or? ==> Free(Plain(e), "||"))
    && (IsTight(e) ==> Free(Plain(e), "&&"))
  }

  lemma ParenthesisedIsFree(body: string, needle: string)
    requires IsOperator(needle) && Balanced(body)
    ensures Free(Parenthesise(body), needle)
  {
    PiecesKeepParenthesised(body, "", needle, "");
    assert Parenthesise(body) + "" == Parenthesise(body);
  }

  lemma NegatedIsShaped(body: string, needle: string)
    requires needle == "||" || needle == "&&"
    requires Solid(body) && Free(body, needle)
    ensures Solid("!" + body) && Free("!" + body, needle)
  {
    var s := "!" + body;
    assert s[0] == '!' && s[1..] == body && s[|s| - 1] == body[|body| - 1];
    assert !(needle <= s);
    PiecesKeepFree(body, "", needle, START, "", "!");
    assert body + "" == body && "" + ['!'] == "!";
  }

  lemma {:induction false} PlainIsShaped(e: Expr)
    requires Printable(e)
    ensures IsShaped(e)
    decreases e, 1
  {
    match e
    case Atom(_) =>
    case Equal(left, right) => ComparisonIsShaped(left, "==", right);
    case NotEqual(left, right) => ComparisonIsShaped(left, "!=", right);
    case Not(child) =>
      PlainIsShaped(child);
      var body := if IsTight(child) then Plain(child) else Parenthesise(Plain(child));
      if !IsTight(child) {
        ParenthesisedIsSolid(Plain(child));
        ParenthesisedIsFree(Plain(child), "||");
        ParenthesisedIsFree(Plain(child), "&&");
      }
      NegatedIsShaped(body, "||");
      NegatedIsShaped(body, "&&");
    case And(children) =>
      OperandsAreShaped(e, children, true);
      WovenIsSolid(Operands(children, true), "&&");
      WovenIsFree(Operands(children, true), "&&", "||");
      WovenIsNotWrapped(Operands(children, true), "&&");
    case Or(children) =>
      OperandsAreShaped(e, children, false);
      WovenIsSolid(Operands(children, false), "||");
      WovenIsNotWrapped(Operands(children, false), "||");
  }

  lemma ComparisonIsShaped(left: string, operator: string, right: string)
    requires operator == "==" || operator == "!="
    requires IsOperand(left) && IsOperand(right)
    ensures var s := Compared(left, operator, right);
            Solid(s) && Free(s, "||") && Free(s, "&&") && StripOuter(s) == Ok(s)
  {
    OperatorIsBalanced(operator);
    SolidAround(left, [' '] + operator + [' '], right);
    ComparedIsFree(left, operator, right, "||");
    ComparedIsFree(left, operator, right, "&&");
    ComparisonIsNotWrapped(left, operator, right);
  }

  lemma {:induction false} OperandsAreShaped(e: Expr, es: seq<Expr>, conjunction: bool)
    requires forall c :: c in es ==> c < e && Printable(c)
    ensures AreSolid(Operands(es, conjunction)) && AreFree(Operands(es, conjunction), "||")
    ensures conjunction ==> AreFree(Operands(es, conjunction), "&&")
    decreases e, 0, |es|
  {
    if es != [] {
      assert es[0] in es;
      assert forall c :: c in es[1..] ==> c in es;
      PlainIsShaped(es[0]);
      ParenthesisedIsSolid(Plain(es[0]));
      ParenthesisedIsFree(Plain(es[0]), "||");
      ParenthesisedIsFree(Plain(es[0]), "&&");
      OperandsAreShaped(e, es[1..], conjunction);
    }
  }

  // ------------------------------------------------------------------- the round trip

  /** One pair of parentheses around a text that is not wrapped changes nothing. */
  lemma ParseOfWrapped(body: string)
    requires Solid(body) && StripOuter(body) == Ok(body)
    ensures Parse(Parenthesise(body)) == Parse(body)
  {
    var s := Parenthesise(body);
    ParenthesisedIsSolid(body);
    TrimIsIdentity(s);
    TrimIsIdentity(body);
    CloseOfParenthesised(body, "");
    assert s + "" == s && s[1..|body| + 1] == body && s[|body| + 2..] == "";
    ParseBoundIrrelevant(body, |s|, |body|);
  }

  /**
   Parsing undoes the printer that relies on precedence, for every printable tree: the
   weakest operator of a text is its root, and a negation holds a whole comparison.
   */
  lemma {:induction false} ParseUndoesPlain(e: Expr)
    requires Printable(e)
    ensures Parse(Plain(e)) == Ok(e)
    decreases e, 1, 0
  {
    var s := Plain(e);
    PlainIsShaped(e);
    TrimIsIdentity(s);
    match e
    case Atom(_) =>
    case Equal(left, right) => ParseOfComparison(left, "==", right);
    case NotEqual(left, right) => ParseOfComparison(left, "!=", right);
    case Not(child) =>
      ParseUndoesPlain(child);
      PlainIsShaped(child);
      ParseOfWrapped(Plain(child));
      ParseOfTightNegation(child);
    case Or(children) =>
      OperandsAreShaped(e, children, false);
      SplitOfWoven(Operands(children, false), "||");
      ParseOfOperands(e, children, false, |s|);
    case And(children) =>
      OperandsAreShaped(e, children, true);
      SplitOfFree(s, "||");
      SplitOfWoven(Operands(children, true), "&&");
      ParseOfOperands(e, children, true, |s|);
  }

  lemma ParseOfTightNegation(child: Expr)
    requires IsShaped(Not(child)) && Parse(Plain(child)) == Ok(child) == Parse(Parenthesise(Plain(child)))
    ensures ParseStripped(Plain(Not(child)), |Plain(Not(child))|) == Ok(Not(child))
  {
    var s := Plain(Not(child));
    SplitOfFree(s, "||");
    SplitOfFree(s, "&&");
    assert s[1..] == if IsTight(child) then Plain(child) else Parenthesise(Plain(child));
  }

  lemma {:induction false} ParseOfOperands(e: Expr, es: seq<Expr>, conjunction: bool, bound: nat)
    requires forall c :: c in es ==> c < e && Printable(c)
    requires forall i :: 0 <= i < |es| ==> |Operands(es, conjunction)[i]| < bound
    ensures ParseAll(Operands(es, conjunction), bound) == Ok(es)
    decreases e, 0, |es|
  {
    if es != [] {
      var parts := Operands(es, conjunction);
      assert Parse(parts[0]) == Ok(es[0]) by {
        assert es[0] in es;
        ParseUndoesPlain(es[0]);
        PlainIsShaped(es[0]);
        ParseOfWrapped(Plain(es[0]));
      }
      assert ParseAll(parts[1..], bound) == Ok(es[1..]) by {
        assert parts[1..] == Operands(es[1..], conjunction);
        assert forall c :: c in es[1..] ==> c in es;
        ParseOfOperands(e, es[1..], conjunction, bound);
      }
      ParseAllStep(parts, es, bound);
    }
  }

  /** Three atoms without any parenthesis: the conjunction on the right binds tighter. */
  lemma RightConjunctionBindsTighter(a: string, b: string, c: string)
    requires Printable(Atom(a)) && Printable(Atom(b)) && Printable(Atom(c))
    ensures Parse(Woven([a, Woven([b, c], "&&")], "||")) == Ok(Or([Atom(a), And([Atom(b), Atom(c)])]))
  {
    PairIsPlain(Atom(b), Atom(c), true);
    PairIsPlain(Atom(a), And([Atom(b), Atom(c)]), false);
    ParseUndoesPlain(Or([Atom(a), And([Atom(b), Atom(c)])]));
  }

  /** And so does one on the left. */
  lemma LeftConjunctionBindsTighter(a: string, b: string, c: string)
    requires Printable(Atom(a)) && Printable(Atom(b)) && Printable(Atom(c))
    ensures Parse(Woven([Woven([a, b], "&&"), c], "||")) == Ok(Or([And([Atom(a), Atom(b)]), Atom(c)]))
  {
    PairIsPlain(Atom(a), Atom(b), true);
    PairIsPlain(And([Atom(a), Atom(b)]), Atom(c), false);
    ParseUndoesPlain(Or([And([Atom(a), Atom(b)]), Atom(c)]));
  }

  lemma PairIsPlain(a: Expr, b: Expr, conjunction: bool)
    requires !a.Or? && !b.Or? && (conjunction ==> !a.And? && !b.And?)
    ensures Operands([a, b], conjunction) == [Plain(a), Plain(b)]
  {
    assert [a, b][1..] == [b] && [b][1..] == [];
    assert Operands([b], conjunction) == [Plain(b)];
  }
}
