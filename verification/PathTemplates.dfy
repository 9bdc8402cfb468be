/**
 Path templates such as `/srv/${input.NAME}/x` (`PathTemplate`): what validation
 accepts, what rendering does, and that rendering meets exactly the references
 validation checked.
 */
module PathTemplates {
  import opened Prelude
  import opened TextScan

  // ------------------------------------------------------------------ references

  predicate IsAsciiUpper(c: char) {
    'A' <= c <= 'Z'
  }

  predicate IsAsciiAlphanumeric(c: char) {
    IsDigit(c) || IsAsciiUpper(c) || 'a' <= c <= 'z'
  }

  predicate IsEnvName(s: string) {
    && s != ""
    && (IsAsciiUpper(s[0]) || s[0] == '_')
    && forall i :: 1 <= i < |s| ==> IsAsciiUpper(s[i]) || IsDigit(s[i]) || s[i] == '_'
  }

  predicate IsConfigPath(s: string) {
    && s != ""
    && (forall part :: part in Split(s, '.') ==> part != "" && part != "..")
    && forall i :: 0 <= i < |s| ==> IsAsciiAlphanumeric(s[i]) || s[i] in "._-"
  }

  /** The closed set of names an interpolation or a comparison may use. */
  predicate IsReference(s: string) {
    match SplitOnce(s, ".")
    case None => false
    case Some((namespace, name)) =>
      if namespace == "bootstrap" then name == "workspace_root"
      else if namespace == "identity" then name in ["uid", "gid", "user", "home", "target"]
      else if namespace == "context" then name in ["cwd", "os", "arch"]
      else if namespace == "input" then IsEnvName(name)
      else if namespace == "config" then IsConfigPath(name)
      else namespace == "env" && IsEnvName(name)
  }

  // ------------------------------------------------------------------ validation

  datatype TemplateError =
    | EmptyPath
    | ForbiddenCharacter
    | ShellExpression
    | StrayBrace
    | UnterminatedInterpolation
    | UnsupportedReference(name: string)
    | NotAbsolute
    | Traversal

  predicate HasShellExpression(s: string) {
    Contains(s, "$(") || ContainsAny(s, "`;|&><")
  }

  predicate HasTraversal(s: string) {
    ".." in Split(s, '/')
  }

  /** What the interpolation check meets in `t`: an error, or the references it approved. */
  function CheckInterpolations(t: string): Result<seq<string>, TemplateError>
    decreases |t|
  {
    if t == "" then Ok([])
    else if t[0] !in "${}" then CheckInterpolations(t[1..])
    else if !("${" <= t) then Err(StrayBrace)
    else match SplitOnce(t[2..], "}")
      case None => Err(UnterminatedInterpolation)
      case Some((name, tail)) =>
        if !IsReference(name) then Err(UnsupportedReference(name))
        else match CheckInterpolations(tail)
          case Err(e) => Err(e)
          case Ok(names) => Ok([name] + names)
  }

  /** Prefixes the references read so far. */
  function Read(names: seq<string>, rest: Result<seq<string>, TemplateError>): Result<seq<string>, TemplateError> {
    match rest
    case Err(e) => Err(e)
    case Ok(more) => Ok(names + more)
  }

  /** The loop over the same text, with `rest` the text from the cursor on. */
  method ValidateInterpolations(value: string) returns (r: Result<seq<string>, TemplateError>)
    ensures r == CheckInterpolations(value)
  {
    var rest := value;
    var names: seq<string> := [];
    NamesStart(CheckInterpolations(value));
    while rest != ""
      invariant CheckInterpolations(value) == Read(names, CheckInterpolations(rest))
      decreases |rest|
    {
      if rest[0] !in "${}" {
        rest := rest[1..];
        continue;
      }
      if !("${" <= rest) {
        return Err(StrayBrace);
      }
      var closed := SplitOnce(rest[2..], "}");
      if closed.None? {
        return Err(UnterminatedInterpolation);
      }
      var (name, tail) := closed.value;
      if !IsReference(name) {
        return Err(UnsupportedReference(name));
      }
      NamesAppend(names, name, CheckInterpolations(tail));
      names := names + [name];
      rest := tail;
    }
    assert names + [] == names;
    return Ok(names);
  }

  lemma NamesStart(rest: Result<seq<string>, TemplateError>)
    ensures Read([], rest) == rest
  {
    if rest.Ok? {
      assert [] + rest.value == rest.value;
    }
  }

  lemma NamesAppend(names: seq<string>, name: string, rest: Result<seq<string>, TemplateError>)
    ensures rest.Ok? ==> names + ([name] + rest.value) == (names + [name]) + rest.value
  {
  }

  function ValidateTemplate(value: string): Result<seq<string>, TemplateError> {
    if value == "" then Err(EmptyPath)
    else if '\0' in value then Err(ForbiddenCharacter)
    else if HasShellExpression(value) then Err(ShellExpression)
    else if ContainsAny(value, "\n\r") then Err(ForbiddenCharacter)
    else match CheckInterpolations(value)
      case Err(e) => Err(e)
      case Ok(names) =>
        if !("/" <= value) && !("${" <= value) then Err(NotAbsolute)
        else if HasTraversal(value) then Err(Traversal)
        else Ok(names)
  }

  // ------------------------------------------------------------------- rendering

  datatype RenderError = UnterminatedReference | MissingValue(name: string) | RejectedPath

  /** A template as rendering reads it: literal text, then the end, a dangling `${` or a reference. */
  datatype Tokens =
    | End(text: string)
    | Dangling(text: string)
    | Reference(text: string, name: string, rest: Tokens)

  function Lex(s: string): Tokens
    decreases |s|
  {
    match SplitOnce(s, "${")
    case None => End(s)
    case Some((before, after)) =>
      match SplitOnce(after, "}")
      case None => Dangling(before)
      case Some((name, tail)) => Reference(before, name, Lex(tail))
  }

  function RenderTokens(tokens: Tokens, values: map<string, string>): Result<string, RenderError> {
    match tokens
    case End(text) => Ok(text)
    case Dangling(_) => Err(UnterminatedReference)
    case Reference(text, name, rest) =>
      if name !in values then Err(MissingValue(name))
      else Prepend(text + values[name], RenderTokens(rest, values))
  }

  function Prepend(text: string, rest: Result<string, RenderError>): Result<string, RenderError> {
    match rest
    case Err(e) => Err(e)
    case Ok(s) => Ok(text + s)
  }

  predicate IsAcceptableRendered(s: string) {
    && "/" <= s
    && !ContainsAny(s, "\0\n\r")
    && !HasShellExpression(s)
    && !HasTraversal(s)
  }

  function Render(template: string, values: map<string, string>): (r: Result<string, RenderError>)
    ensures r.Ok? ==> "/" <= r.value && ".." !in Split(r.value, '/')
  {
    match RenderTokens(Lex(template), values)
    case Err(e) => Err(e)
    case Ok(s) => if IsAcceptableRendered(s) then Ok(s) else Err(RejectedPath)
  }

  method RenderPath(template: string, values: map<string, string>) returns (r: Result<string, RenderError>)
    ensures r == Render(template, values)
  {
    var output, rest := "", template;
    PrependNothing(RenderTokens(Lex(template), values));
    while true
      invariant RenderTokens(Lex(template), values) == Prepend(output, RenderTokens(Lex(rest), values))
      decreases |rest|
    {
      var found := SplitOnce(rest, "${");
      if found.None? {
        break;
      }
      var (before, after) := found.value;
      var closed := SplitOnce(after, "}");
      if closed.None? {
        return Err(UnterminatedReference);
      }
      var (name, tail) := closed.value;
      if name !in values {
        return Err(MissingValue(name));
      }
      PrependTwice(output, before + values[name], RenderTokens(Lex(tail), values));
      output := output + (before + values[name]);
      rest := tail;
    }
    output := output + rest;
    return if IsAcceptableRendered(output) then Ok(output) else Err(RejectedPath);
  }

  lemma PrependNothing(rest: Result<string, RenderError>)
    ensures Prepend("", rest) == rest
  {
    if rest.Ok? {
      assert "" + rest.value == rest.value;
    }
  }

  lemma PrependTwice(a: string, b: string, rest: Result<string, RenderError>)
    ensures Prepend(a, Prepend(b, rest)) == Prepend(a + b, rest)
  {
    if rest.Ok? {
      assert a + (b + rest.value) == a + b + rest.value;
    }
  }

  // ----------------------------------- rendering meets what validation checked

  /** The references rendering looks up, in order, if none of them is missing. */
  function References(tokens: Tokens): seq<string> {
    match tokens
    case End(_) => []
    case Dangling(_) => []
    case Reference(_, name, rest) => [name] + References(rest)
  }

  predicate HasDangling(tokens: Tokens) {
    match tokens
    case End(_) => false
    case Dangling(_) => true
    case Reference(_, _, rest) => HasDangling(rest)
  }

  /** A character that opens no interpolation only lengthens the first literal. */
  lemma LexSkips(t: string)
    requires t != "" && !("${" <= t)
    ensures References(Lex(t)) == References(Lex(t[1..]))
    ensures HasDangling(Lex(t)) == HasDangling(Lex(t[1..]))
  {
  }

  /** Approved templates have no dangling interpolation, and the two scans agree. */
  lemma {:induction false} CheckedReferencesAreRendered(t: string)
    requires CheckInterpolations(t).Ok?
    ensures References(Lex(t)) == CheckInterpolations(t).value
    ensures !HasDangling(Lex(t))
    ensures forall name :: name in CheckInterpolations(t).value ==> IsReference(name)
    decreases |t|
  {
    if t == "" {
    } else if t[0] !in "${}" {
      LexSkips(t);
      CheckedReferencesAreRendered(t[1..]);
    } else {
      CheckedReferencesAreRendered(SplitOnce(t[2..], "}").value.1);
    }
  }

  /** Without a dangling end, rendering tokens fails exactly when a reference has no value. */
  lemma {:induction false} RenderTokensFails(tokens: Tokens, values: map<string, string>)
    requires !HasDangling(tokens)
    ensures RenderTokens(tokens, values).Ok? <==>
              forall name :: name in References(tokens) ==> name in values
    ensures RenderTokens(tokens, values).Err? ==>
              && RenderTokens(tokens, values).error.MissingValue?
              && RenderTokens(tokens, values).error.name in References(tokens)
              && RenderTokens(tokens, values).error.name !in values
  {
    if tokens.Reference? {
      RenderTokensFails(tokens.rest, values);
    }
  }

  /**
   Validation simulates rendering: an accepted template can fail to render only
   because a reference that validation checked has no value, or because the
   finished string is rejected; the two cases exclude each other.
   */
  lemma AcceptedTemplateRenders(template: string, values: map<string, string>)
    requires ValidateTemplate(template).Ok?
    ensures var checked := ValidateTemplate(template).value;
            && References(Lex(template)) == checked
            && (forall name :: name in checked ==> IsReference(name))
            && (match Render(template, values)
                case Ok(path) => forall name :: name in checked ==> name in values
                case Err(MissingValue(name)) => name in checked && name !in values
                case Err(RejectedPath) => forall name :: name in checked ==> name in values
                case Err(UnterminatedReference) => false)
  {
    CheckedReferencesAreRendered(template);
    RenderTokensFails(Lex(template), values);
  }

  /** Two tables that agree on the references of a template render it alike. */
  lemma {:induction false} RenderDependsOnReferences(tokens: Tokens, v: map<string, string>, w: map<string, string>)
    requires forall name :: name in References(tokens) ==>
               (name in v <==> name in w) && (name in v ==> v[name] == w[name])
    ensures RenderTokens(tokens, v) == RenderTokens(tokens, w)
  {
    if tokens.Reference? {
      RenderDependsOnReferences(tokens.rest, v, w);
    }
  }
}
