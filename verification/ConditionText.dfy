/**
 Writing a bootstrap condition as text and reading it back: the grammar, the operator
 precedence, the atoms and the comparison operands together.
 */
module ConditionText {
  import opened Prelude
  import opened Text
  import opened TextScan
  import opened PathTemplates
  import opened Conditions
  import opened ConditionPrinter
  import opened ConditionPrecedence
  import Grammar = ConditionExpr
  import Theorems = ConditionExprTheorems

  // ----------------------------------------------------------------- the written form

  function Quoted(text: string): string {
    var quote := if '\'' in text then '"' else '\'';
    [quote] + text + [quote]
  }

  function Written(o: Operand): string {
    match o
    case Reference(name) => name
    case Boolean(value) => if value then "true" else "false"
    case Literal(text) => Quoted(text)
  }

  function Shown(c: Condition): Grammar.Expr {
    match c
    case Always => Grammar.Atom("always")
    case Constant(value) => Grammar.Atom(if value then "true" else "false")
    case ContextPathExistsOrCreate => Grammar.Atom("context.path_exists_or_create")
    case Exists(path) => Grammar.Atom("exists" + Parenthesise(path))
    case Writable(path) => Grammar.Atom("writable" + Parenthesise(path))
    case InputSet(name) => Grammar.Atom("input_set" + Parenthesise(name))
    case Feature(name) => Grammar.Atom("feature:" + name)
    case Equal(left, right) => Grammar.Equal(Written(left), Written(right))
    case NotEqual(left, right) => Grammar.NotEqual(Written(left), Written(right))
    case And(children) => Grammar.And(ShownAll(children))
    case Or(children) => Grammar.Or(ShownAll(children))
    case Not(child) => Grammar.Not(Shown(child))
  }

  function ShownAll(cs: seq<Condition>): (r: seq<Grammar.Expr>)
    ensures |r| == |cs|
  {
    if cs == [] then [] else [Shown(cs[0])] + ShownAll(cs[1..])
  }

  /** An argument a call takes as it is: no parentheses, quotes in pairs, nothing to trim. */
  predicate IsArgument(s: string) {
    && s != "" && Grammar.Balanced(s) && !ContainsAny(s, "()")
    && s[0] !in " '\"" && s[|s| - 1] !in " '\""
  }

  predicate IsExpressibleOperand(o: Operand) {
    match o
    case Reference(name) => IsReference(name)
    case Boolean(_) => true
    case Literal(text) => '\'' !in text || '"' !in text
  }

  /** The conditions the language can write: valid names and paths, lists of two or more. */
  predicate IsExpressible(c: Condition) {
    match c
    case Exists(path) => ValidateTemplate(path).Ok? && IsArgument(path)
    case Writable(path) => ValidateTemplate(path).Ok? && IsArgument(path)
    case InputSet(name) => IsEnvName(name)
    case Feature(name) => IsConfigPath(name)
    case Equal(left, right) => IsExpressibleOperand(left) && IsExpressibleOperand(right)
    case NotEqual(left, right) => IsExpressibleOperand(left) && IsExpressibleOperand(right)
    case And(children) => |children| >= 2 && forall child :: child in children ==> IsExpressible(child)
    case Or(children) => |children| >= 2 && forall child :: child in children ==> IsExpressible(child)
    case Not(child) => IsExpressible(child)
    case _ => true
  }

  // ---------------------------------------------------------- leaves for the grammar

  predicate IsWordChar(c: char) {
    IsAsciiAlphanumeric(c) || c in "._-:"
  }

  predicate IsWord(s: string) {
    forall i :: 0 <= i < |s| ==> IsWordChar(s[i])
  }

  /** A text that stands as an atom, or on either side of a comparison. */
  predicate IsLeafText(s: string) {
    IsOperand(s) && Free(s, "==") && Free(s, "!=") && s[0] != '!' && s[0] != '('
  }

  lemma {:induction false} WordRuns(s: string)
    requires IsWord(s)
    ensures Grammar.Balanced(s)
    decreases |s|
  {
    if s != "" {
      assert IsWordChar(s[0]);
      WordRuns(s[1..]);
    }
  }

  lemma {:induction false} WordIsUncut(s: string, needle: string, current: string)
    requires IsWord(s) && Grammar.IsOperator(needle)
    ensures |Grammar.Pieces(s, needle, Grammar.START, current)| == 1
    decreases |s|
  {
    if s != "" {
      assert IsWordChar(s[0]);
      assert s[0] != needle[0];
      WordIsUncut(s[1..], needle, current + [s[0]]);
    }
  }

  lemma WordIsLeafText(s: string)
    requires IsWord(s) && s != ""
    ensures IsLeafText(s)
  {
    assert IsWordChar(s[0]) && IsWordChar(s[|s| - 1]);
    WordRuns(s);
    WordIsUncut(s, "||", "");
    WordIsUncut(s, "&&", "");
    WordIsUncut(s, "==", "");
    WordIsUncut(s, "!=", "");
  }

  lemma CallIsUncut(name: string, argument: string, needle: string)
    requires IsWord(name) && Grammar.Balanced(argument) && Grammar.IsOperator(needle)
    ensures Free(name + Parenthesise(argument), needle)
  {
    var call := Parenthesise(argument);
    WordRuns(name);
    WordIsUncut(name, needle, "");
    PiecesKeepFree(name, call, needle, Grammar.START, "", "");
    PiecesKeepParenthesised(argument, "", needle, "" + name);
    assert call + "" == call;
  }

  lemma CallIsLeafText(name: string, argument: string)
    requires IsWord(name) && name != "" && Grammar.Balanced(argument)
    ensures IsLeafText(name + Parenthesise(argument))
  {
    assert IsWordChar(name[0]);
    WordRuns(name);
    ParenthesisedIsBalanced(argument);
    Theorems.RunConcat(Grammar.START, name, Parenthesise(argument));
    CallIsUncut(name, argument, "||");
    CallIsUncut(name, argument, "&&");
    CallIsUncut(name, argument, "==");
    CallIsUncut(name, argument, "!=");
  }

  /** Inside quotes nothing is cut, and the closing quote ends them. */
  lemma {:induction false} QuoteCloses(text: string, quote: char, needle: string, current: string)
    requires quote !in text && Grammar.IsQuote(quote) && Grammar.IsOperator(needle)
    ensures var inside := Grammar.State(0, Some(quote));
            && Grammar.Run(inside, text + [quote]) == Some(Grammar.START)
            && |Grammar.Pieces(text + [quote], needle, inside, current)| == 1
    decreases |text|
  {
    var s := text + [quote];
    if text == "" {
      assert s[1..] == "";
    } else {
      assert s[0] == text[0] && s[1..] == text[1..] + [quote];
      QuoteCloses(text[1..], quote, needle, current + [s[0]]);
    }
  }

  lemma QuotedIsUncut(text: string, quote: char, needle: string)
    requires quote !in text && Grammar.IsQuote(quote) && Grammar.IsOperator(needle)
    ensures Grammar.Balanced([quote] + text + [quote]) && Free([quote] + text + [quote], needle)
  {
    var s := [quote] + text + [quote];
    assert s[0] == quote && s[1..] == text + [quote];
    QuoteCloses(text, quote, needle, "" + [quote]);
  }

  lemma QuotedIsLeafText(text: string)
    requires '\'' !in text || '"' !in text
    ensures IsLeafText(Quoted(text))
  {
    var quote := if '\'' in text then '"' else '\'';
    QuotedIsUncut(text, quote, "||");
    QuotedIsUncut(text, quote, "&&");
    QuotedIsUncut(text, quote, "==");
    QuotedIsUncut(text, quote, "!=");
  }

  // ------------------------------------------------------------------ names are words

  lemma EnvNameIsWord(name: string)
    requires IsEnvName(name)
    ensures IsWord(name)
  {
  }

  lemma ConfigPathIsWord(name: string)
    requires IsConfigPath(name)
    ensures IsWord(name)
  {
  }

  lemma FixedNameIsWord(name: string)
    ensures name == "workspace_root" ==> IsWord(name)
    ensures name in ["uid", "gid", "user", "home", "target"] ==> IsWord(name)
    ensures name in ["cwd", "os", "arch"] ==> IsWord(name)
  {
    assert IsWord("workspace_root");
    assert IsWord("uid") && IsWord("gid") && IsWord("user") && IsWord("home") && IsWord("target");
    assert IsWord("cwd") && IsWord("os") && IsWord("arch");
  }

  lemma NamespaceIsWord(name: string)
    ensures name in ["bootstrap", "identity", "context", "input", "config", "env"] ==> IsWord(name)
  {
    assert IsWord("bootstrap") && IsWord("identity") && IsWord("context");
    assert IsWord("input") && IsWord("config") && IsWord("env");
  }

  lemma WordsJoin(a: string, b: string)
    requires IsWord(a) && IsWord(b)
    ensures IsWord(a + b)
  {
  }

  lemma ReferenceIsWord(name: string)
    requires IsReference(name)
    ensures IsWord(name) && '.' in name
  {
    var (namespace, rest) := SplitOnce(name, ".").value;
    assert name == namespace + "." + rest by {
      SplitOnceJoins(name, ".");
    }
    assert IsWord(namespace) && IsWord(rest) by {
      NamespaceIsWord(namespace);
      FixedNameIsWord(rest);
      assert IsEnvName(rest) ==> IsWord(rest);
      assert IsConfigPath(rest) ==> IsWord(rest);
    }
    WordsJoin(namespace, ".");
    WordsJoin(namespace + ".", rest);
    assert name[|namespace|] == '.';
  }

  // ------------------------------------------------------------ reading leaves back

  lemma WrittenIsLeafText(o: Operand)
    requires IsExpressibleOperand(o)
    ensures IsLeafText(Written(o))
  {
    match o
    case Reference(name) =>
      ReferenceIsWord(name);
      WordIsLeafText(name);
    case Boolean(_) => WordIsLeafText(Written(o));
    case Literal(text) => QuotedIsLeafText(text);
  }

  lemma OperandIsReadBack(o: Operand)
    requires IsExpressibleOperand(o)
    ensures ParseOperand(Written(o)) == Some(o)
  {
    var s := Written(o);
    WrittenIsLeafText(o);
    TrimIsIdentity(s);
    match o
    case Reference(name) =>
      ReferenceIsWord(name);
      var i :| 0 <= i < |name| && name[i] == '.';
      assert !IsDigit(name[i]);
      assert name != "true" && name != "false";
      assert IsWordChar(name[0]);
    case Boolean(_) =>
    case Literal(text) =>
      assert s[1..|s| - 1] == text;
      assert |s| >= 2 && s[0] == s[|s| - 1] && s[0] in "'\"";
  }

  lemma CallIsReadBack(name: string, argument: string)
    requires IsArgument(argument)
    ensures FunctionArgument(name + Parenthesise(argument), name) == Call(argument)
  {
    var s := name + Parenthesise(argument);
    var prefix := name + "(";
    assert s[..|prefix|] == prefix && s[|s| - 1] == ')';
    assert s[|prefix|..|s| - 1] == argument;
  }

  lemma OtherCall(s: string, name: string)
    requires s != "" && name != "" && s[0] != name[0]
    ensures FunctionArgument(s, name) == NotACall
  {
    assert (name + "(")[0] == name[0];
  }

  lemma EnvNameIsArgument(name: string)
    requires IsEnvName(name)
    ensures IsArgument(name)
  {
    EnvNameIsWord(name);
    WordRuns(name);
    assert IsWordChar(name[0]) && IsWordChar(name[|name| - 1]);
  }

  /** The leaves that are atoms. */
  predicate IsAtomic(c: Condition) {
    !c.Equal? && !c.NotEqual? && !c.And? && !c.Or? && !c.Not?
  }

  lemma KeywordIsReadBack()
    ensures ParseAtom("always") == Some(Always)
    ensures ParseAtom("true") == Some(Constant(true)) && ParseAtom("false") == Some(Constant(false))
    ensures ParseAtom("context.path_exists_or_create") == Some(ContextPathExistsOrCreate)
  {
    assert "always"[0] == 'a' && "true"[0] == 't' && "false"[0] == 'f' && "context.path_exists_or_create"[0] == 'c';
  }

  lemma ExistsIsReadBack(path: string)
    requires IsExpressible(Exists(path))
    ensures ParseAtom("exists" + Parenthesise(path)) == Some(Exists(path))
  {
    var s := "exists" + Parenthesise(path);
    CallIsReadBack("exists", path);
    assert s[0] == 'e';
  }

  lemma WritableIsReadBack(path: string)
    requires IsExpressible(Writable(path))
    ensures ParseAtom("writable" + Parenthesise(path)) == Some(Writable(path))
  {
    var s := "writable" + Parenthesise(path);
    CallIsReadBack("writable", path);
    assert s[0] == 'w';
    OtherCall(s, "exists");
  }

  lemma InputSetIsReadBack(name: string)
    requires IsEnvName(name)
    ensures ParseAtom("input_set" + Parenthesise(name)) == Some(InputSet(name))
  {
    var s := "input_set" + Parenthesise(name);
    EnvNameIsArgument(name);
    CallIsReadBack("input_set", name);
    assert s[0] == 'i';
    OtherCall(s, "exists");
    OtherCall(s, "writable");
  }

  lemma FeatureIsReadBack(name: string)
    requires IsConfigPath(name)
    ensures ParseAtom("feature:" + name) == Some(Feature(name))
  {
    var s := "feature:" + name;
    assert s[0] == 'f' && s[1] == 'e' && s[8..] == name && "feature:" <= s;
    OtherCall(s, "exists");
    OtherCall(s, "writable");
    OtherCall(s, "input_set");
  }

  lemma AtomIsReadBack(c: Condition)
    requires IsAtomic(c) && IsExpressible(c)
    ensures ParseAtom(Shown(c).text) == Some(c)
  {
    KeywordIsReadBack();
    match c
    case Exists(path) => ExistsIsReadBack(path);
    case Writable(path) => WritableIsReadBack(path);
    case InputSet(name) => InputSetIsReadBack(name);
    case Feature(name) => FeatureIsReadBack(name);
    case _ =>
  }

  lemma KeywordsAreWords()
    ensures IsWord("always") && IsWord("true") && IsWord("false") && IsWord("context.path_exists_or_create")
    ensures IsWord("exists") && IsWord("writable") && IsWord("input_set") && IsWord("feature:")
  {
  }

  lemma AtomIsLeafText(c: Condition)
    requires IsAtomic(c) && IsExpressible(c)
    ensures IsLeafText(Shown(c).text)
  {
    match c
    case Exists(path) =>
      KeywordsAreWords();
      CallIsLeafText("exists", path);
    case Writable(path) =>
      KeywordsAreWords();
      CallIsLeafText("writable", path);
    case InputSet(name) =>
      KeywordsAreWords();
      EnvNameIsArgument(name);
      CallIsLeafText("input_set", name);
    case Feature(name) =>
      KeywordsAreWords();
      ConfigPathIsWord(name);
      WordsJoin("feature:", name);
      WordIsLeafText("feature:" + name);
    case Always =>
      KeywordsAreWords();
      WordIsLeafText("always");
    case Constant(value) =>
      KeywordsAreWords();
      WordIsLeafText(if value then "true" else "false");
    case ContextPathExistsOrCreate =>
      KeywordsAreWords();
      WordIsLeafText("context.path_exists_or_create");
  }

  // ------------------------------------------------------------------ whole conditions

  lemma {:induction false} ShownIsPrintable(c: Condition)
    requires IsExpressible(c)
    ensures Printable(Shown(c))
    decreases c, 1
  {
    match c
    case Equal(left, right) =>
      WrittenIsLeafText(left);
      WrittenIsLeafText(right);
    case NotEqual(left, right) =>
      WrittenIsLeafText(left);
      WrittenIsLeafText(right);
    case And(children) => ShownAllArePrintable(c, children);
    case Or(children) => ShownAllArePrintable(c, children);
    case Not(child) => ShownIsPrintable(child);
    case _ => AtomIsLeafText(c);
  }

  lemma {:induction false} ShownAllArePrintable(c: Condition, cs: seq<Condition>)
    requires forall child :: child in cs ==> child < c && IsExpressible(child)
    ensures forall e :: e in ShownAll(cs) ==> Printable(e)
    decreases c, 0, |cs|
  {
    if cs != [] {
      assert cs[0] in cs;
      ShownIsPrintable(cs[0]);
      assert forall child :: child in cs[1..] ==> child in cs;
      ShownAllArePrintable(c, cs[1..]);
    }
  }

  lemma {:induction false} SharedIsReadBack(c: Condition)
    requires IsExpressible(c)
    ensures FromShared(Shown(c)) == Some(c)
    decreases c, 1
  {
    match c
    case Equal(left, right) =>
      OperandIsReadBack(left);
      OperandIsReadBack(right);
    case NotEqual(left, right) =>
      OperandIsReadBack(left);
      OperandIsReadBack(right);
    case And(children) => AllAreReadBack(c, children);
    case Or(children) => AllAreReadBack(c, children);
    case Not(child) => SharedIsReadBack(child);
    case _ => AtomIsReadBack(c);
  }

  lemma {:induction false} AllAreReadBack(c: Condition, cs: seq<Condition>)
    requires forall child :: child in cs ==> child < c && IsExpressible(child)
    ensures FromAll(ShownAll(cs)) == Some(cs)
    decreases c, 0, |cs|
  {
    if cs != [] {
      assert cs[0] in cs;
      SharedIsReadBack(cs[0]);
      assert forall child :: child in cs[1..] ==> child in cs;
      AllAreReadBack(c, cs[1..]);
      assert ShownAll(cs)[0] == Shown(cs[0]) && ShownAll(cs)[1..] == ShownAll(cs[1..]);
      assert [cs[0]] + cs[1..] == cs;
    }
  }

  /**
   Reading undoes writing for every expressible condition: written with parentheses only
   where precedence asks for them, the text is read as that condition.
   */
  lemma ConditionIsReadBack(c: Condition)
    requires IsExpressible(c)
    ensures ParseCondition(Plain(Shown(c))) == Some(c)
  {
    ShownIsPrintable(c);
    PlainIsShaped(Shown(c));
    TrimIsIdentity(Plain(Shown(c)));
    ParseUndoesPlain(Shown(c));
    SharedIsReadBack(c);
  }
}
