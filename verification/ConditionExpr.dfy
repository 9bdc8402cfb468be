/**
 The shared boolean grammar of conditions (crate `condition-expr`).

 The crate scans text with a (depth, quote) pair. `Step` is one character of that
 scan and `Run` a whole string; the loops of the crate are methods proved against
 functions over `Run`, and `Parse` is the recursion over their results.
 */
module ConditionExpr {
  import opened Prelude
  import opened Text

  datatype Expr =
    | Atom(text: string)
    | Equal(left: string, right: string)
    | NotEqual(left: string, right: string)
    | And(children: seq<Expr>)
    | Or(children: seq<Expr>)
    | Not(child: Expr)

  datatype ParseError =
    | Empty
    | EmptyOperand(operator: string)
    | InvalidComparison(text: string)
    | UnterminatedString
    | UnbalancedParentheses

  /** What a scan remembers between two characters. */
  datatype State = State(depth: nat, quote: Option<char>)

  const START := State(0, None)

  predicate IsQuote(c: char) {
    c == '\'' || c == '"'
  }

  predicate IsStructural(c: char) {
    IsQuote(c) || c == '(' || c == ')'
  }

  predicate IsOperator(needle: string) {
    needle == "||" || needle == "&&" || needle == "==" || needle == "!="
  }

  /** One character; `None` when a closing parenthesis has nothing to close. */
  function Step(st: State, c: char): Option<State> {
    match st.quote
    case Some(expected) => Some(if c == expected then State(st.depth, None) else st)
    case None =>
      if IsQuote(c) then Some(State(st.depth, Some(c)))
      else if c == '(' then Some(State(st.depth + 1, None))
      else if c == ')' then if st.depth == 0 then None else Some(State(st.depth - 1, None))
      else Some(st)
  }

  function Run(st: State, s: string): Option<State>
    decreases |s|
  {
    if s == "" then Some(st)
    else match Step(st, s[0])
      case None => None
      case Some(next) => Run(next, s[1..])
  }

  /** The error a scan ends with, decided by the final state alone. */
  function FinalError(end: Option<State>): Option<ParseError> {
    match end
    case None => Some(UnbalancedParentheses)
    case Some(st) =>
      if st.quote.Some? then Some(UnterminatedString)
      else if st.depth != 0 then Some(UnbalancedParentheses)
      else None
  }

  function Verdict(s: string): Option<ParseError> {
    FinalError(Run(START, s))
  }

  predicate Balanced(s: string) {
    Run(START, s) == Some(START)
  }

  predicate IsBracketError(e: ParseError) {
    e.UnterminatedString? || e.UnbalancedParentheses?
  }

  // ---------------------------------------------------------------- scanning

  /** A needle is only looked for at depth zero, outside quotes and brackets. */
  predicate IsHit(st: State, t: string, needle: string)
    requires t != ""
  {
    st == START && !IsStructural(t[0]) && needle <= t
  }

  /** The text cut at its top-level needles; `current` is the piece being read. */
  function Pieces(t: string, needle: string, st: State, current: string): (r: seq<string>)
    requires IsOperator(needle)
    ensures r != []
    decreases |t|
  {
    if t == "" then [current]
    else if IsHit(st, t, needle) then [current] + Pieces(t[2..], needle, START, "")
    else match Step(st, t[0])
      case None => [current + t]
      case Some(next) => Pieces(t[1..], needle, next, current + [t[0]])
  }

  function Scan(s: string, needle: string): Result<seq<string>, ParseError>
    requires IsOperator(needle)
  {
    match Verdict(s)
    case Some(e) => Err(e)
    case None => Ok(Pieces(s, needle, START, ""))
  }

  /**
   The cursor loop, with the callback of its callers: cut at every hit. Jumping
   over a whole needle leaves the error verdict what it would be when every
   character is stepped.
   */
  method ScanTopLevel(input: string, needle: string) returns (r: Result<seq<string>, ParseError>)
    requires IsOperator(needle)
    ensures r == Scan(input, needle)
  {
    var depth: nat := 0;
    var quote: Option<char> := None;
    var start, cursor := 0, 0;
    var parts: seq<string> := [];
    while cursor < |input|
      invariant 0 <= start <= cursor <= |input|
      invariant Run(START, input) == Run(State(depth, quote), input[cursor..])
      invariant Pieces(input, needle, START, "")
             == parts + Pieces(input[cursor..], needle, State(depth, quote), input[start..cursor])
    {
      var character := input[cursor];
      if IsHit(State(depth, quote), input[cursor..], needle) {
        ScanHit(input, start, cursor, needle);
        AppendAssociates(parts, [input[start..cursor]], Pieces(input[cursor + 2..], needle, START, ""));
        parts := parts + [input[start..cursor]];
        cursor := cursor + 2;
        start := cursor;
        continue;
      }
      ScanStep(input, start, cursor, needle, State(depth, quote));
      if quote.Some? {
        if character == quote.value {
          quote := None;
        }
      } else if IsQuote(character) {
        quote := Some(character);
      } else if character == '(' {
        depth := depth + 1;
      } else if character == ')' {
        if depth == 0 {
          return Err(UnbalancedParentheses);
        }
        depth := depth - 1;
      }
      cursor := cursor + 1;
    }
    assert input[cursor..] == "" && input[start..cursor] == input[start..];
    if quote.Some? {
      return Err(UnterminatedString);
    }
    if depth != 0 {
      return Err(UnbalancedParentheses);
    }
    return Ok(parts + [input[start..]]);
  }

  /** The jump over a needle, on the verdict and on the pieces. */
  lemma ScanHit(input: string, start: nat, cursor: nat, needle: string)
    requires IsOperator(needle) && start <= cursor < |input|
    requires IsHit(START, input[cursor..], needle)
    ensures cursor + 2 <= |input|
    ensures input[cursor + 2..cursor + 2] == ""
    ensures Run(START, input[cursor..]) == Run(START, input[cursor + 2..])
    ensures Pieces(input[cursor..], needle, START, input[start..cursor])
         == [input[start..cursor]] + Pieces(input[cursor + 2..], needle, START, "")
  {
    var tail := input[cursor + 2..];
    assert input[cursor..] == needle + tail;
    assert input[cursor..][2..] == tail;
    RunSkipsOperator(START, needle, tail);
  }

  /** Any other character, on the verdict and on the pieces. */
  lemma ScanStep(input: string, start: nat, cursor: nat, needle: string, st: State)
    requires IsOperator(needle) && start <= cursor < |input|
    requires !IsHit(st, input[cursor..], needle)
    ensures match Step(st, input[cursor])
            case None => Run(st, input[cursor..]) == None
            case Some(next) =>
              && Run(st, input[cursor..]) == Run(next, input[cursor + 1..])
              && Pieces(input[cursor..], needle, st, input[start..cursor])
              == Pieces(input[cursor + 1..], needle, next, input[start..cursor + 1])
  {
    assert input[cursor..][1..] == input[cursor + 1..];
    assert input[start..cursor] + [input[cursor]] == input[start..cursor + 1];
  }

  lemma RunSkipsOperator(st: State, needle: string, rest: string)
    requires IsOperator(needle) && st.quote.None?
    ensures Run(st, needle + rest) == Run(st, rest)
  {
    assert (needle + rest)[1..] == [needle[1]] + rest;
    assert ([needle[1]] + rest)[1..] == rest;
  }

  /** Every piece of a real cut is shorter than the text, which is why parsing terminates. */
  lemma {:induction false} PiecesAreShorter(t: string, needle: string, st: State, current: string)
    requires IsOperator(needle)
    ensures var pieces := Pieces(t, needle, st, current);
            forall piece :: piece in pieces ==>
              |piece| + (if |pieces| == 1 then 0 else 2) <= |current| + |t|
    decreases |t|
  {
    if t == "" {
    } else if IsHit(st, t, needle) {
      PiecesAreShorter(t[2..], needle, START, "");
    } else if Step(st, t[0]).Some? {
      PiecesAreShorter(t[1..], needle, Step(st, t[0]).value, current + [t[0]]);
    }
  }

  // --------------------------------------------------------------- stripping

  /** Offset of the first closing parenthesis that brings the depth back to zero. */
  function CloseAt(t: string, base: nat, st: State): (r: Result<nat, ParseError>)
    ensures r.Ok? ==> base <= r.value < base + |t|
    decreases |t|
  {
    if t == "" then Err(if st.quote.Some? then UnterminatedString else UnbalancedParentheses)
    else match Step(st, t[0])
      case None => Err(UnbalancedParentheses)
      case Some(next) =>
        if st.quote.None? && t[0] == ')' && next.depth == 0 then Ok(base)
        else CloseAt(t[1..], base + 1, next)
  }

  function StripOuter(s: string): (r: Result<string, ParseError>)
    ensures r.Ok? ==> |r.value| <= |s|
    decreases |s|
  {
    if s == "" || s[0] != '(' then Ok(s)
    else match CloseAt(s, 0, START)
      case Err(e) => Err(e)
      case Ok(close) =>
        if Trim(s[close + 1..]) == "" then StripOuter(s[1..close]) else Ok(s)
  }

  method StripOuterParentheses(input: string) returns (r: Result<string, ParseError>)
    ensures r == StripOuter(input)
    decreases |input|
  {
    if input == "" || input[0] != '(' {
      return Ok(input);
    }
    var depth: nat := 0;
    var quote: Option<char> := None;
    for index := 0 to |input|
      invariant CloseAt(input, 0, START) == CloseAt(input[index..], index, State(depth, quote))
    {
      var character := input[index];
      var rest := input[index..];
      assert rest[0] == character && rest[1..] == input[index + 1..];
      if quote.Some? {
        if character == quote.value {
          quote := None;
        }
      } else if IsQuote(character) {
        quote := Some(character);
      } else if character == '(' {
        depth := depth + 1;
      } else if character == ')' {
        if depth == 0 {
          return Err(UnbalancedParentheses);
        }
        depth := depth - 1;
        if depth == 0 {
          if Trim(input[index + 1..]) == "" {
            r := StripOuterParentheses(input[1..index]);
            return;
          }
          return Ok(input);
        }
      }
    }
    assert input[|input|..] == "";
    return Err(if quote.Some? then UnterminatedString else UnbalancedParentheses);
  }

  // --------------------------------------------------------------- splitting

  function TrimEach(parts: seq<string>): (r: seq<string>)
    ensures |r| == |parts|
  {
    if parts == [] then [] else [Trim(parts[0])] + TrimEach(parts[1..])
  }

  lemma {:induction false} TrimEachBound(parts: seq<string>, bound: nat)
    requires forall piece :: piece in parts ==> |piece| <= bound
    ensures forall piece :: piece in TrimEach(parts) ==> |piece| <= bound
  {
    if parts != [] {
      TrimEachBound(parts[1..], bound);
    }
  }

  function SplitOn(s: string, operator: string): (r: Result<seq<string>, ParseError>)
    requires IsOperator(operator)
    ensures r.Ok? && |r.value| > 1 ==> forall i :: 0 <= i < |r.value| ==> |r.value[i]| < |s|
  {
    match Scan(s, operator)
    case Err(e) => Err(e)
    case Ok(pieces) =>
      if |pieces| == 1 then Ok([s])
      else
        PiecesAreShorter(s, operator, START, "");
        TrimEachBound(pieces, |s| - 2);
        var parts := TrimEach(pieces);
        if "" in parts then Err(EmptyOperand(operator)) else Ok(parts)
  }

  method SplitTopLevel(input: string, operator: string) returns (r: Result<seq<string>, ParseError>)
    requires IsOperator(operator)
    ensures r == SplitOn(input, operator)
  {
    var scanned := ScanTopLevel(input, operator);
    if scanned.Err? {
      return Err(scanned.error);
    }
    if |scanned.value| == 1 {
      return Ok([input]);
    }
    var parts := TrimEach(scanned.value);
    if "" in parts {
      return Err(EmptyOperand(operator));
    }
    return Ok(parts);
  }

  datatype Comparison = Comparison(left: string, operator: string, right: string)

  /** The first piece against all the rest; `None` when the operator does not occur at top level. */
  function CompareOn(s: string, operator: string): Result<Option<Comparison>, ParseError>
    requires IsOperator(operator)
  {
    match Scan(s, operator)
    case Err(e) => Err(e)
    case Ok(pieces) =>
      if |pieces| == 1 then Ok(None)
      else
        PiecesAreShorter(s, operator, START, "");
        assert pieces[0] in pieces;
        var left, right := Trim(pieces[0]), Trim(s[|pieces[0]| + 2..]);
        if left == "" || right == "" then Err(InvalidComparison(s))
        else Ok(Some(Comparison(left, operator, right)))
  }

  /** `!=` is looked for before `==`, even if both occur. */
  function SplitComparison(s: string): Result<Option<Comparison>, ParseError> {
    match CompareOn(s, "!=")
    case Err(e) => Err(e)
    case Ok(Some(c)) => Ok(Some(c))
    case Ok(None) => CompareOn(s, "==")
  }

  // ----------------------------------------------------------------- parsing

  function Parse(input: string): Result<Expr, ParseError>
    decreases |input|, 2, 0
  {
    var trimmed := Trim(input);
    if trimmed == "" then Err(Empty)
    else match StripOuter(trimmed)
      case Err(e) => Err(e)
      case Ok(text) => ParseStripped(text, |input|)
  }

  /** What `parse` does once the outer parentheses are gone. */
  function ParseStripped(text: string, ghost bound: nat): Result<Expr, ParseError>
    requires |text| <= bound
    decreases bound, 1, 0
  {
    match SplitOn(text, "||")
    case Err(e) => Err(e)
    case Ok(orParts) =>
      if |orParts| > 1 then
        match ParseAll(orParts, bound) { case Err(e) => Err(e) case Ok(es) => Ok(Or(es)) }
      else match SplitOn(text, "&&")
        case Err(e) => Err(e)
        case Ok(andParts) =>
          if |andParts| > 1 then
            match ParseAll(andParts, bound) { case Err(e) => Err(e) case Ok(es) => Ok(And(es)) }
          else if text != "" && text[0] == '!' then
            match Parse(text[1..]) { case Err(e) => Err(e) case Ok(child) => Ok(Not(child)) }
          else match SplitComparison(text)
            case Err(e) => Err(e)
            case Ok(Some(c)) =>
              Ok(if c.operator == "==" then Equal(c.left, c.right) else NotEqual(c.left, c.right))
            case Ok(None) => Ok(Atom(text))
  }

  function ParseAll(parts: seq<string>, ghost bound: nat): (r: Result<seq<Expr>, ParseError>)
    requires forall i :: 0 <= i < |parts| ==> |parts[i]| < bound
    ensures r.Ok? ==> |r.value| == |parts|
    decreases bound, 0, |parts|
  {
    if parts == [] then Ok([])
    else match Parse(parts[0])
      case Err(e) => Err(e)
      case Ok(first) =>
        match ParseAll(parts[1..], bound)
        case Err(e) => Err(e)
        case Ok(rest) => Ok([first] + rest)
  }
}
