/**
 A canonical printer for condition trees, and the proof that `Parse` undoes it.
 Compound children are always parenthesised and no space is put just inside a
 parenthesis, because stripping parentheses does not trim again.
 */
module ConditionPrinter {
  import opened Prelude
  import opened Text
  import opened ConditionExpr
  import opened ConditionExprTheorems

  function Print(e: Expr): string {
    match e
    case Atom(text) => text
    case Equal(left, right) => Compared(left, "==", right)
    case NotEqual(left, right) => Compared(left, "!=", right)
    case Not(child) => "!" + Parenthesise(Print(child))
    case And(children) => PrintAll(children, "&&")
    case Or(children) => PrintAll(children, "||")
  }

  function Parenthesise(s: string): string {
    ['('] + s + [')']
  }

  function PrintAll(es: seq<Expr>, operator: string): string {
    if es == [] then ""
    else if |es| == 1 then Parenthesise(Print(es[0]))
    else Parenthesise(Print(es[0])) + operator + PrintAll(es[1..], operator)
  }

  /** No top-level occurrence of the operator. */
  predicate Free(s: string, operator: string)
    requires IsOperator(operator)
  {
    |Pieces(s, operator, START, "")| == 1
  }

  /** A non-empty, trimmed, balanced operand without top-level boolean operators. */
  predicate IsOperand(s: string) {
    s != "" && IsTrimmed(s) && Balanced(s) && Free(s, "||") && Free(s, "&&")
  }

  /**
   The trees the printer is for. Leaves are operands; an atom holds no top-level
   comparison, is not wrapped in parentheses and does not start with a negation;
   the left side of a comparison does not start with one either and is free of
   the operators looked for first.
   */
  predicate Printable(e: Expr) {
    match e
    case Atom(text) =>
      && IsOperand(text) && Free(text, "==") && Free(text, "!=")
      && text[0] != '!' && StripOuter(text) == Ok(text)
    case Equal(left, right) =>
      && IsOperand(left) && IsOperand(right) && left[0] != '!'
      && Free(left, "!=") && Free(left, "==") && Free(right, "!=")
    case NotEqual(left, right) =>
      && IsOperand(left) && IsOperand(right) && left[0] != '!' && Free(left, "!=")
    case Not(child) => Printable(child)
    case And(children) => |children| >= 2 && forall c :: c in children ==> Printable(c)
    case Or(children) => |children| >= 2 && forall c :: c in children ==> Printable(c)
  }

  // ----------------------------------------------------- scanning printed text

  /** Inside a parenthesis a body is never cut. */
  lemma {:induction false} PiecesKeepBody(body: string, rest: string, needle: string, st: State, current: string)
    requires IsOperator(needle) && Run(st, body).Some?
    ensures var end := Run(st, body).value;
            Pieces(body + rest, needle, State(st.depth + 1, st.quote), current) ==
            Pieces(rest, needle, State(end.depth + 1, end.quote), current + body)
    decreases |body|
  {
    if body == "" {
      assert body + rest == rest && current + body == current;
    } else {
      var t := body + rest;
      assert t[0] == body[0] && t[1..] == body[1..] + rest;
      PiecesKeepBody(body[1..], rest, needle, Step(st, body[0]).value, current + [body[0]]);
      assert current + [body[0]] + body[1..] == current + body;
    }
  }

  lemma PiecesKeepParenthesised(body: string, rest: string, needle: string, current: string)
    requires IsOperator(needle) && Balanced(body)
    ensures Pieces(Parenthesise(body) + rest, needle, START, current)
         == Pieces(rest, needle, START, current + Parenthesise(body))
  {
    var t := Parenthesise(body) + rest;
    var closing := [')'] + rest;
    assert t[0] == '(' && t[1..] == body + closing;
    PiecesKeepBody(body, closing, needle, START, current + ['(']);
    assert closing[1..] == rest;
    assert current + ['('] + body + [')'] == current + Parenthesise(body);
  }

  lemma {:induction false} CloseSkipsBody(body: string, rest: string, base: nat, st: State)
    requires Run(st, body).Some?
    ensures var end := Run(st, body).value;
            CloseAt(body + rest, base, State(st.depth + 1, st.quote)) ==
            CloseAt(rest, base + |body|, State(end.depth + 1, end.quote))
    decreases |body|
  {
    if body == "" {
      assert body + rest == rest;
    } else {
      var next := Step(st, body[0]).value;
      CloseSkipsBody(body[1..], rest, base + 1, next);
      var t := body + rest;
      assert t[0] == body[0] && t[1..] == body[1..] + rest;
    }
  }

  lemma CloseOfParenthesised(body: string, rest: string)
    requires Balanced(body)
    ensures CloseAt(Parenthesise(body) + rest, 0, START) == Ok(|body| + 1)
  {
    var t := Parenthesise(body) + rest;
    var closing := [')'] + rest;
    assert t[0] == '(' && t[1..] == body + closing;
    CloseSkipsBody(body, closing, 1, START);
  }

  lemma ParenthesisedIsBalanced(body: string)
    requires Balanced(body)
    ensures Balanced(Parenthesise(body))
  {
    var t := Parenthesise(body);
    assert t[1..] == body + [')'];
    RunLift(START, 1, body);
    RunConcat(State(1, None), body, [')']);
    assert [')'][1..] == "";
  }

  /** A text without a hit is not cut, when no needle can straddle the seam behind it. */
  lemma {:induction false} PiecesKeepFree(a: string, b: string, needle: string, st: State, mark: string, current: string)
    requires IsOperator(needle) && Run(st, a).Some? && |Pieces(a, needle, st, mark)| == 1
    requires b != "" ==> b[0] != needle[1]
    ensures Pieces(a + b, needle, st, current) == Pieces(b, needle, Run(st, a).value, current + a)
    decreases |a|
  {
    if a == "" {
      assert a + b == b && current + a == current;
    } else {
      SeamIsClean(a, b, needle);
      var t, next := a + b, Step(st, a[0]).value;
      assert t[1..] == a[1..] + b;
      PiecesKeepFree(a[1..], b, needle, next, mark + [a[0]], current + [a[0]]);
      assert current + [a[0]] + a[1..] == current + a;
    }
  }

  lemma SeamIsClean(a: string, b: string, needle: string)
    requires IsOperator(needle) && a != "" && (b != "" ==> b[0] != needle[1])
    ensures (a + b)[0] == a[0]
    ensures needle <= a + b <==> needle <= a
  {
    if |a| == 1 {
      if |a + b| >= 2 {
        assert (a + b)[1] == b[0];
      }
    } else {
      assert a[..2] == (a + b)[..2];
    }
    if needle <= a {
      assert (a + b)[..2] == a[..2];
    }
  }

  // ------------------------------------------------------ shape of printed text

  /** Printed text is balanced and neither starts nor ends with whitespace. */
  predicate Solid(s: string) {
    s != "" && IsTrimmed(s) && Balanced(s)
  }

  lemma ParenthesisedIsSolid(s: string)
    requires Balanced(s)
    ensures Solid(Parenthesise(s))
  {
    ParenthesisedIsBalanced(s);
  }

  lemma SolidAround(a: string, middle: string, b: string)
    requires Solid(a) && Solid(b) && Balanced(middle)
    ensures Solid(a + middle + b)
  {
    RunConcat(START, a, middle);
    RunConcat(START, a + middle, b);
  }

  lemma OperatorIsBalanced(operator: string)
    requires IsOperator(operator)
    ensures Balanced(operator) && Balanced([' '] + operator + [' '])
  {
    assert operator + "" == operator;
    RunSkipsOperator(START, operator, "");
    RunSkipsOperator(START, operator, [' ']);
    assert ([' '] + operator + [' '])[1..] == operator + [' '];
    assert [' '][1..] == "";
  }

  lemma {:induction false} PrintIsSolid(e: Expr)
    requires Printable(e)
    ensures Solid(Print(e))
  {
    match e
    case Atom(_) =>
    case Equal(left, right) =>
      OperatorIsBalanced("==");
      SolidAround(left, [' '] + "==" + [' '], right);
    case NotEqual(left, right) =>
      OperatorIsBalanced("!=");
      SolidAround(left, [' '] + "!=" + [' '], right);
    case Not(child) =>
      PrintIsSolid(child);
      ParenthesisedIsSolid(Print(child));
      assert ("!" + Parenthesise(Print(child)))[1..] == Parenthesise(Print(child));
    case And(children) => PrintAllIsSolid(children, "&&");
    case Or(children) => PrintAllIsSolid(children, "||");
  }

  lemma {:induction false} PrintAllIsSolid(es: seq<Expr>, operator: string)
    requires IsOperator(operator) && es != [] && forall c :: c in es ==> Printable(c)
    ensures Solid(PrintAll(es, operator)) && PrintAll(es, operator)[0] == '('
  {
    PrintIsSolid(es[0]);
    ParenthesisedIsSolid(Print(es[0]));
    if |es| > 1 {
      PrintAllIsSolid(es[1..], operator);
      OperatorIsBalanced(operator);
      SolidAround(Parenthesise(Print(es[0])), operator, PrintAll(es[1..], operator));
    }
  }

  // --------------------------------------------------------- splitting it again

  function Parts(es: seq<Expr>): (r: seq<string>)
    ensures |r| == |es|
  {
    if es == [] then [] else [Parenthesise(Print(es[0]))] + Parts(es[1..])
  }

  lemma {:induction false} PartsAreNotEmpty(es: seq<Expr>)
    ensures "" !in Parts(es)
  {
    if es != [] {
      PartsAreNotEmpty(es[1..]);
    }
  }

  /** An operator is a hit for itself. */
  lemma PiecesCutOperator(operator: string, tail: string, current: string)
    requires IsOperator(operator)
    ensures Pieces(operator + tail, operator, START, current) == [current] + Pieces(tail, operator, START, "")
  {
    var t := operator + tail;
    assert t[0] == operator[0] && operator <= t && t[2..] == tail;
  }

  /** The search for an operator with another first character passes over this one. */
  lemma PiecesKeepOperator(operator: string, tail: string, needle: string, current: string)
    requires IsOperator(operator) && IsOperator(needle) && operator[0] != needle[0]
    requires tail != "" ==> tail[0] != needle[1]
    ensures Pieces(operator + tail, needle, START, current) == Pieces(tail, needle, START, current + operator)
  {
    var t := operator + tail;
    var u := [operator[1]] + tail;
    assert t[1..] == u;
    assert t[0] == operator[0] && u[0] == operator[1] && u[1..] == tail;
    assert !(needle <= t);
    assert |u| > 1 ==> u[1] == tail[0];
    assert !(needle <= u);
    assert current + [operator[0]] + [operator[1]] == current + operator;
  }

  /** The printed list is its first child, the operator and the rest of the list. */
  lemma JoinedUnfolds(es: seq<Expr>, operator: string)
    requires IsOperator(operator) && |es| >= 2 && forall c :: c in es ==> Printable(c)
    ensures PrintAll(es, operator)
         == Parenthesise(Print(es[0])) + (operator + PrintAll(es[1..], operator))
    ensures PrintAll(es[1..], operator) != "" && PrintAll(es[1..], operator)[0] == '('
  {
    assert forall c :: c in es[1..] ==> c in es;
    PrintAllIsSolid(es[1..], operator);
    PrintAllUnfolds(es, operator);
  }

  lemma PrintAllUnfolds(es: seq<Expr>, operator: string)
    requires |es| >= 2 && forall c :: c in es ==> Printable(c)
    ensures PrintAll(es, operator)
         == Parenthesise(Print(es[0])) + (operator + PrintAll(es[1..], operator))
  {
    AppendAssociates(Parenthesise(Print(es[0])), operator, PrintAll(es[1..], operator));
  }

  /** Another operator finds nothing in a joined list. */
  lemma {:induction false} JoinedIsFree(es: seq<Expr>, operator: string, needle: string, current: string)
    requires IsOperator(operator) && IsOperator(needle) && operator[0] != needle[0]
    requires es != [] && forall c :: c in es ==> Printable(c)
    ensures |Pieces(PrintAll(es, operator), needle, START, current)| == 1
    decreases |es|
  {
    var body := Print(es[0]);
    var first := Parenthesise(body);
    PrintIsSolid(es[0]);
    if |es| == 1 {
      PiecesKeepParenthesised(body, "", needle, current);
      assert first + "" == first;
    } else {
      var tail := PrintAll(es[1..], operator);
      JoinedUnfolds(es, operator);
      PiecesKeepParenthesised(body, operator + tail, needle, current);
      PiecesKeepOperator(operator, tail, needle, current + first);
      JoinedIsFree(es[1..], operator, needle, current + first + operator);
    }
  }

  /** The joining operator finds exactly the joints. */
  lemma {:induction false} PiecesOfJoined(es: seq<Expr>, operator: string)
    requires IsOperator(operator) && es != [] && forall c :: c in es ==> Printable(c)
    ensures Pieces(PrintAll(es, operator), operator, START, "") == Parts(es)
    decreases |es|
  {
    var body := Print(es[0]);
    var first := Parenthesise(body);
    PrintIsSolid(es[0]);
    assert "" + first == first;
    if |es| == 1 {
      PiecesKeepParenthesised(body, "", operator, "");
      assert first + "" == first;
    } else {
      var tail := PrintAll(es[1..], operator);
      JoinedUnfolds(es, operator);
      PiecesKeepParenthesised(body, operator + tail, operator, "");
      PiecesCutOperator(operator, tail, first);
      PiecesOfJoined(es[1..], operator);
    }
  }

  lemma {:induction false} TrimEachKeepsParts(es: seq<Expr>)
    requires forall c :: c in es ==> Printable(c)
    ensures TrimEach(Parts(es)) == Parts(es)
  {
    if es != [] {
      PrintIsSolid(es[0]);
      ParenthesisedIsSolid(Print(es[0]));
      TrimIsIdentity(Parenthesise(Print(es[0])));
      TrimEachKeepsParts(es[1..]);
    }
  }

  lemma SplitOfJoined(es: seq<Expr>, operator: string)
    requires IsOperator(operator) && |es| >= 2 && forall c :: c in es ==> Printable(c)
    ensures SplitOn(PrintAll(es, operator), operator) == Ok(Parts(es))
  {
    PiecesOfJoined(es, operator);
    TrimEachKeepsParts(es);
    PartsAreNotEmpty(es);
    PrintAllIsSolid(es, operator);
  }

  lemma SplitOfFree(s: string, operator: string)
    requires IsOperator(operator) && Balanced(s) && Free(s, operator)
    ensures SplitOn(s, operator) == Ok([s])
  {
  }

  /** The text of a comparison, as printed. */
  function Compared(left: string, operator: string, right: string): string {
    left + ([' '] + operator + [' ']) + right
  }

  lemma ComparedUnfolds(left: string, operator: string, right: string)
    ensures Compared(left, operator, right) == left + ([' '] + (operator + ([' '] + right)))
  {
  }

  /** A blank is never part of an operator. */
  lemma PiecesKeepBlank(tail: string, needle: string, current: string)
    requires IsOperator(needle)
    ensures Pieces([' '] + tail, needle, START, current) == Pieces(tail, needle, START, current + [' '])
  {
    var t := [' '] + tail;
    assert t[0] == ' ' && t[1..] == tail && !(needle <= t);
  }

  /** An operator neither side contains at top level is not in the comparison. */
  lemma ComparedIsFree(left: string, operator: string, right: string, needle: string)
    requires IsOperator(operator) && IsOperator(needle) && operator[0] != needle[0]
    requires Balanced(left) && Balanced(right) && Free(left, needle) && Free(right, needle)
    ensures Free(Compared(left, operator, right), needle)
  {
    var spaced := [' '] + right;
    ComparedUnfolds(left, operator, right);
    PiecesKeepFree(left, [' '] + (operator + spaced), needle, START, "", "");
    var read := "" + left;
    PiecesKeepBlank(operator + spaced, needle, read);
    PiecesKeepOperator(operator, spaced, needle, read + [' ']);
    PiecesKeepBlank(right, needle, read + [' '] + operator);
    PiecesKeepFree(right, "", needle, START, "", read + [' '] + operator + [' ']);
    assert right + "" == right;
  }

  /** The first occurrence of the operator is the printed one. */
  lemma ComparedFirstHit(left: string, operator: string, right: string)
    requires IsOperator(operator) && Balanced(left) && Free(left, operator)
    ensures Pieces(Compared(left, operator, right), operator, START, "")
         == [left + [' ']] + Pieces([' '] + right, operator, START, "")
  {
    var spaced := [' '] + right;
    ComparedUnfolds(left, operator, right);
    PiecesKeepFree(left, [' '] + (operator + spaced), operator, START, "", "");
    assert "" + left == left;
    PiecesKeepBlank(operator + spaced, operator, left);
    PiecesCutOperator(operator, spaced, left + [' ']);
  }

  // -------------------------------------------------------------- the round trip

  /** A comparison text is not taken apart by stripping parentheses. */
  lemma StripKeepsComparison(left: string, rest: string)
    requires Balanced(left) && left != "" && !IsBlank(rest) && Balanced(rest)
    ensures StripOuter(left + rest) == Ok(left + rest)
  {
    var s := left + rest;
    if s[0] == '(' {
      CloseSplits(s[1..], 1, State(1, None));
      RunConcat(START, left, rest);
      var close := CloseAt(s, 0, START);
      assert close.Ok?;
      CloseWithinBalanced(left, rest, 0, START);
      assert s[close.value + 1..] == left[close.value + 1..] + rest;
      TrimEmptyIffBlank(s[close.value + 1..]);
      NotBlankSuffix(left[close.value + 1..], rest);
    }
  }

  lemma NotBlankSuffix(a: string, b: string)
    requires !IsBlank(b)
    ensures !IsBlank(a + b)
  {
    var i :| 0 <= i < |b| && !IsWhitespace(b[i]);
    assert (a + b)[|a| + i] == b[i];
  }

  /** A balanced text that opens a parenthesis closes it before it ends. */
  lemma {:induction false} CloseWithinBalanced(a: string, b: string, base: nat, st: State)
    requires a != "" && Run(st, a) == Some(START) && (st.depth >= 1 || a[0] == '(')
    requires st.depth == 0 ==> st.quote.None?
    ensures CloseAt(a + b, base, st).Ok? && CloseAt(a + b, base, st).value < base + |a|
    decreases |a|
  {
    var next := Step(st, a[0]).value;
    assert (a + b)[0] == a[0] && (a + b)[1..] == a[1..] + b;
    if !(st.quote.None? && a[0] == ')' && next.depth == 0) {
      assert next.depth >= 1;
      CloseWithinBalanced(a[1..], b, base + 1, next);
    }
  }

  /** A printed tree survives stripping unchanged. */
  lemma PrintIsNotWrapped(e: Expr)
    requires Printable(e)
    ensures StripOuter(Print(e)) == Ok(Print(e))
  {
    match e
    case Atom(_) =>
    case Not(_) =>
    case Equal(left, right) => ComparisonIsNotWrapped(left, "==", right);
    case NotEqual(left, right) => ComparisonIsNotWrapped(left, "!=", right);
    case And(children) => JoinedIsNotWrapped(children, "&&");
    case Or(children) => JoinedIsNotWrapped(children, "||");
  }

  lemma ComparisonIsNotWrapped(left: string, operator: string, right: string)
    requires IsOperator(operator) && Balanced(left) && left != "" && Balanced(right)
    ensures StripOuter(Compared(left, operator, right))
         == Ok(Compared(left, operator, right))
  {
    var rest := [' '] + operator + [' '] + right;
    OperatorIsBalanced(operator);
    RunConcat(START, [' '] + operator + [' '], right);
    assert rest[1] == operator[0] && !IsWhitespace(rest[1]);
    StripKeepsComparison(left, rest);
    assert Compared(left, operator, right) == left + rest;
  }

  lemma JoinedIsNotWrapped(es: seq<Expr>, operator: string)
    requires IsOperator(operator) && |es| >= 2 && forall c :: c in es ==> Printable(c)
    ensures StripOuter(PrintAll(es, operator)) == Ok(PrintAll(es, operator))
  {
    PrintIsSolid(es[0]);
    JoinedUnfolds(es, operator);
    GroupIsNotWrapped(Print(es[0]), operator, PrintAll(es[1..], operator));
  }

  lemma GroupIsNotWrapped(body: string, operator: string, tail: string)
    requires IsOperator(operator) && Balanced(body)
    ensures StripOuter(Parenthesise(body) + (operator + tail)) == Ok(Parenthesise(body) + (operator + tail))
  {
    var rest := operator + tail;
    var s := Parenthesise(body) + rest;
    CloseOfParenthesised(body, rest);
    assert s[0] == '(' && s[|body| + 2..] == rest;
    assert rest[0] == operator[0] && !IsWhitespace(rest[0]);
    TrimEmptyIffBlank(rest);
  }

  /** One more pair of parentheses around a printed tree changes nothing. */
  lemma ParseOfParenthesised(e: Expr)
    requires Printable(e)
    ensures Parse(Parenthesise(Print(e))) == Parse(Print(e))
  {
    var body := Print(e);
    var s := Parenthesise(body);
    PrintIsSolid(e);
    PrintIsNotWrapped(e);
    ParenthesisedIsSolid(body);
    TrimIsIdentity(s);
    TrimIsIdentity(body);
    CloseOfParenthesised(body, "");
    assert s + "" == s && s[1..|body| + 1] == body && s[|body| + 2..] == "";
    ParseBoundIrrelevant(body, |s|, |body|);
  }

  /** `ParseStripped` does not depend on the ghost bound that makes it terminate. */
  lemma ParseBoundIrrelevant(text: string, bound: nat, bound': nat)
    requires |text| <= bound && |text| <= bound'
    ensures ParseStripped(text, bound) == ParseStripped(text, bound')
  {
    var orParts := SplitOn(text, "||");
    if orParts.Ok? && |orParts.value| > 1 {
      ParseAllBoundIrrelevant(orParts.value, bound, bound');
    }
    var andParts := SplitOn(text, "&&");
    if andParts.Ok? && |andParts.value| > 1 {
      ParseAllBoundIrrelevant(andParts.value, bound, bound');
    }
  }

  lemma {:induction false} ParseAllBoundIrrelevant(parts: seq<string>, bound: nat, bound': nat)
    requires forall i :: 0 <= i < |parts| ==> |parts[i]| < bound && |parts[i]| < bound'
    ensures ParseAll(parts, bound) == ParseAll(parts, bound')
  {
    if parts != [] {
      ParseAllBoundIrrelevant(parts[1..], bound, bound');
    }
  }

  /** Parsing undoes printing, for every printable tree. */
  lemma {:induction false} ParseUndoesPrint(e: Expr)
    requires Printable(e)
    ensures Parse(Print(e)) == Ok(e)
    decreases e, 1, 0
  {
    var s := Print(e);
    PrintIsSolid(e);
    TrimIsIdentity(s);
    PrintIsNotWrapped(e);
    match e
    case Atom(_) =>
    case Equal(left, right) => ParseOfComparison(left, "==", right);
    case NotEqual(left, right) => ParseOfComparison(left, "!=", right);
    case Not(child) =>
      ParseUndoesPrint(child);
      ParseOfParenthesised(child);
      ParseOfNegation(child);
    case Or(children) =>
      SplitOfJoined(children, "||");
      ParseOfParts(e, children, |s|);
    case And(children) =>
      SplitOfJoined(children, "&&");
      JoinedIsFree(children, "&&", "||", "");
      SplitOfFree(s, "||");
      ParseOfParts(e, children, |s|);
  }

  lemma {:induction false} ParseOfParts(e: Expr, es: seq<Expr>, bound: nat)
    requires forall c :: c in es ==> c < e && Printable(c)
    requires forall i :: 0 <= i < |es| ==> |Parts(es)[i]| < bound
    ensures ParseAll(Parts(es), bound) == Ok(es)
    decreases e, 0, |es|
  {
    if es != [] {
      var parts := Parts(es);
      assert Parse(parts[0]) == Ok(es[0]) by {
        assert es[0] in es;
        ParseUndoesPrint(es[0]);
        ParseOfParenthesised(es[0]);
      }
      assert ParseAll(parts[1..], bound) == Ok(es[1..]) by {
        assert parts[1..] == Parts(es[1..]);
        assert forall c :: c in es[1..] ==> c in es;
        ParseOfParts(e, es[1..], bound);
      }
      ParseAllStep(parts, es, bound);
    }
  }

  lemma ParseAllStep(parts: seq<string>, es: seq<Expr>, bound: nat)
    requires forall i :: 0 <= i < |parts| ==> |parts[i]| < bound
    requires parts != [] && es != [] && Parse(parts[0]) == Ok(es[0]) && ParseAll(parts[1..], bound) == Ok(es[1..])
    ensures ParseAll(parts, bound) == Ok(es)
  {
    assert es == [es[0]] + es[1..];
  }

  lemma NegationIsFree(body: string, needle: string)
    requires needle == "||" || needle == "&&"
    requires Balanced(body)
    ensures Free("!" + Parenthesise(body), needle)
  {
    var s := "!" + Parenthesise(body);
    assert s[1..] == Parenthesise(body);
    PiecesKeepParenthesised(body, "", needle, "!");
    assert Parenthesise(body) + "" == Parenthesise(body);
    assert "" + ['!'] == "!";
  }

  lemma ParseOfNegation(child: Expr)
    requires Printable(child) && Parse(Parenthesise(Print(child))) == Ok(child)
    ensures ParseStripped(Print(Not(child)), |Print(Not(child))|) == Ok(Not(child))
  {
    var body := Print(child);
    var s := "!" + Parenthesise(body);
    PrintIsSolid(Not(child));
    PrintIsSolid(child);
    assert s[1..] == Parenthesise(body);
    NegationIsFree(body, "||");
    NegationIsFree(body, "&&");
    SplitOfFree(s, "||");
    SplitOfFree(s, "&&");
  }

  lemma ParseOfComparison(left: string, operator: string, right: string)
    requires operator == "==" || operator == "!="
    requires IsOperand(left) && IsOperand(right) && left[0] != '!' && Free(left, "!=")
    requires operator == "==" ==> Free(left, "==") && Free(right, "!=")
    ensures var s := Compared(left, operator, right);
            ParseStripped(s, |s|) ==
            Ok(if operator == "==" then Equal(left, right) else NotEqual(left, right))
  {
    var s := Compared(left, operator, right);
    OperatorIsBalanced(operator);
    SolidAround(left, [' '] + operator + [' '], right);
    ComparedIsFree(left, operator, right, "||");
    ComparedIsFree(left, operator, right, "&&");
    SplitOfFree(s, "||");
    SplitOfFree(s, "&&");
    assert s[0] == left[0];
    CompareOfCompared(left, operator, right);
    if operator == "==" {
      ComparedIsFree(left, operator, right, "!=");
    }
  }

  /** Taking a printed comparison apart gives its two sides back. */
  lemma CompareOfCompared(left: string, operator: string, right: string)
    requires IsOperator(operator) && Solid(left) && Solid(right) && Free(left, operator)
    requires Balanced(Compared(left, operator, right))
    ensures CompareOn(Compared(left, operator, right), operator)
         == Ok(Some(Comparison(left, operator, right)))
  {
    var s := Compared(left, operator, right);
    ComparedFirstHit(left, operator, right);
    assert Trim(left + [' ']) == left by {
      TrimOneSpace(left);
    }
    assert Trim(s[|left + [' ']| + 2..]) == right by {
      ComparedRightSide(left, operator, right);
      TrimOneSpace(right);
    }
    CompareAt(s, operator, left + [' '], left, right);
  }

  lemma CompareAt(s: string, operator: string, first: string, left: string, right: string)
    requires IsOperator(operator) && Balanced(s) && left != "" && right != ""
    requires |Pieces(s, operator, START, "")| > 1 && Pieces(s, operator, START, "")[0] == first && |first| + 2 <= |s|
    requires Trim(first) == left && Trim(s[|first| + 2..]) == right
    ensures CompareOn(s, operator) == Ok(Some(Comparison(left, operator, right)))
  {
  }

  lemma ComparedRightSide(left: string, operator: string, right: string)
    requires |operator| == 2
    ensures |left + [' ']| + 2 <= |Compared(left, operator, right)|
    ensures Compared(left, operator, right)[|left + [' ']| + 2..] == [' '] + right
  {
  }

  lemma TrimOneSpace(s: string)
    requires s != "" && IsTrimmed(s)
    ensures Trim(s + [' ']) == s && Trim([' '] + s) == s
  {
    TrimPadded("", s, [' ']);
    assert "" + s + [' '] == s + [' '];
    TrimPadded([' '], s, "");
    assert [' '] + s + "" == [' '] + s;
  }
}
