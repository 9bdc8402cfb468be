/**
 Reconciling `/etc/passwd` with a target identity, and reading the result back.
 A line that is neither a comment nor blank is a record of colon-separated fields.
 */
module PasswdFile {
  import opened Prelude
  import opened Text
  import opened TextScan
  import opened TextLines

  datatype Target = Target(user: string, uid: nat, gid: nat, home: string)

  datatype AccountError = InvalidIdentity | Malformed | Occupied | DuplicateUser | Unreadable | WriteFailed | NotReadBack

  predicate IsUserNameChar(c: char) {
    'a' <= c <= 'z' || 'A' <= c <= 'Z' || IsDigit(c) || c == '_' || c == '-'
  }

  predicate IsUserName(s: string) {
    0 < |s| <= 32 && forall i :: 0 <= i < |s| ==> IsUserNameChar(s[i])
  }

  predicate IsAccountField(s: string) {
    ':' !in s && '\0' !in s && '\n' !in s && '\r' !in s
  }

  /** What `map_user` has checked before it rewrites either file. */
  predicate IsTarget(t: Target) {
    IsUserName(t.user) && IsAccountField(t.home) && t.uid <= U32_MAX && t.gid <= U32_MAX
  }

  predicate IsRecord(f: seq<string>) {
    && |f| == 7 && IsUserName(f[0]) && ParseU32(f[2]).Some? && ParseU32(f[3]).Some?
    && IsAccountField(f[5]) && IsAccountField(f[6])
  }

  function Retarget(f: seq<string>, t: Target): seq<string>
    requires |f| == 7
  {
    f[2 := ToDecimal(t.uid)][3 := ToDecimal(t.gid)][5 := t.home]
  }

  function NewRecord(t: Target): seq<string> {
    [t.user, "x", ToDecimal(t.uid), ToDecimal(t.gid), "", t.home, "/bin/sh"]
  }

  // ------------------------------------------------------------------ the rewriting

  /** Rewritten lines, whether the entry looked for was seen, and whether anything changed. */
  datatype Rewrite = Rewrite(lines: seq<string>, found: bool, changed: bool)

  function Then(lines: seq<string>, changed: bool, r: Result<Rewrite, AccountError>): Result<Rewrite, AccountError> {
    match r
    case Err(e) => Err(e)
    case Ok(rest) => Ok(Rewrite(lines + rest.lines, rest.found, changed || rest.changed))
  }

  lemma ThenNothing(r: Result<Rewrite, AccountError>)
    ensures Then([], false, r) == r
  {
    if r.Ok? {
      assert [] + r.value.lines == r.value.lines;
    }
  }

  lemma ThenThen(a: seq<string>, ca: bool, b: seq<string>, cb: bool, r: Result<Rewrite, AccountError>)
    ensures Then(a, ca, Then(b, cb, r)) == Then(a + b, ca || cb, r)
  {
    if r.Ok? {
      AppendAssociates(a, b, r.value.lines);
    }
  }

  /** What becomes of one line. */
  datatype Line = Line(text: string, isTarget: bool, changed: bool)

  function RewriteLine(line: string, found: bool, t: Target): Result<Line, AccountError> {
    if IsSkipped(line) then Ok(Line(line, false, false))
    else
      var f := Split(line, ':');
      if !IsRecord(f) then Err(Malformed)
      else if ParseU32(f[2]) == Some(t.uid) && f[0] != t.user then Err(Occupied)
      else if f[0] != t.user then Ok(Line(Join(f, ':'), false, false))
      else if found then Err(DuplicateUser)
      else Ok(Line(Join(Retarget(f, t), ':'), true, Retarget(f, t) != f))
  }

  function RewriteLines(lines: seq<string>, found: bool, t: Target): Result<Rewrite, AccountError>
    decreases |lines|
  {
    if lines == [] then Ok(Rewrite([], found, false))
    else match RewriteLine(lines[0], found, t)
      case Err(e) => Err(e)
      case Ok(s) => Then([s.text], s.changed, RewriteLines(lines[1..], found || s.isTarget, t))
  }

  /** The lines of the new file: a record is appended when the user had none. */
  function Completed(r: Rewrite, t: Target): seq<string> {
    if r.found then r.lines else r.lines + [Join(NewRecord(t), ':')]
  }

  datatype Reconciled = Reconciled(contents: string, changed: bool)

  function ReconciledPasswd(contents: string, t: Target): Result<Reconciled, AccountError> {
    match RewriteLines(Lines(contents), false, t)
    case Err(e) => Err(e)
    case Ok(r) => Ok(Reconciled(Written(Completed(r, t), EndsWith(contents, '\n')), r.changed || !r.found))
  }

  /** The file after a reconciliation: it is only replaced when something changed. */
  function Applied(contents: string, t: Target): Result<string, AccountError> {
    match ReconciledPasswd(contents, t)
    case Err(e) => Err(e)
    case Ok(r) => Ok(if r.changed then r.contents else contents)
  }

  method ReconcilePasswd(contents: string, t: Target) returns (r: Result<Reconciled, AccountError>)
    requires IsTarget(t)
    ensures r == ReconciledPasswd(contents, t)
  {
    var input := Lines(contents);
    var found, changed, output := false, false, [];
    LinesStart(input, t);
    for k := 0 to |input|
      invariant LinesPartWay(input, k, output, found, changed, t)
    {
      var step := RewriteLine(input[k], found, t);
      LinesStep(input, k, output, found, changed, t);
      if step.Err? {
        return Err(step.error);
      }
      var s := step.value;
      output := output + [s.text];
      found := found || s.isTarget;
      changed := changed || s.changed;
    }
    LinesEnd(input, output, found, changed, t);
    if !found {
      output := output + [Join(NewRecord(t), ':')];
    }
    return Ok(Reconciled(Written(output, EndsWith(contents, '\n')), changed || !found));
  }

  /** The loop over the lines, before line `k`. */
  ghost predicate LinesPartWay(input: seq<string>, k: nat, output: seq<string>, found: bool, changed: bool, t: Target)
    requires k <= |input|
  {
    RewriteLines(input, false, t) == Then(output, changed, RewriteLines(input[k..], found, t))
  }

  lemma LinesStart(input: seq<string>, t: Target)
    ensures LinesPartWay(input, 0, [], false, false, t)
  {
    ThenNothing(RewriteLines(input, false, t));
    assert input[0..] == input;
  }

  lemma LinesStep(input: seq<string>, k: nat, output: seq<string>, found: bool, changed: bool, t: Target)
    requires k < |input| && LinesPartWay(input, k, output, found, changed, t)
    ensures match RewriteLine(input[k], found, t)
            case Err(e) => RewriteLines(input, false, t) == Err(e)
            case Ok(s) => LinesPartWay(input, k + 1, output + [s.text], found || s.isTarget, changed || s.changed, t)
  {
    assert input[k..][0] == input[k] && input[k..][1..] == input[k + 1..];
    var step := RewriteLine(input[k], found, t);
    if step.Ok? {
      var s := step.value;
      ThenThen(output, changed, [s.text], s.changed, RewriteLines(input[k + 1..], found || s.isTarget, t));
    }
  }

  lemma LinesEnd(input: seq<string>, output: seq<string>, found: bool, changed: bool, t: Target)
    requires LinesPartWay(input, |input|, output, found, changed, t)
    ensures RewriteLines(input, false, t) == Ok(Rewrite(output, found, changed))
  {
    assert output + [] == output;
  }

  // ----------------------------------------------------------------- settled files

  /** A line that reconciliation has nothing left to do with. */
  predicate IsSettledLine(line: string, t: Target) {
    || IsSkipped(line)
    || (var f := Split(line, ':');
        && IsRecord(f)
        && (if f[0] == t.user then Retarget(f, t) == f else ParseU32(f[2]) != Some(t.uid)))
  }

  predicate IsTargetLine(line: string, t: Target) {
    !IsSkipped(line) && Split(line, ':')[0] == t.user
  }

  /** All lines are settled and exactly one is the target's, one before them counting as `found`. */
  predicate IsSettled(lines: seq<string>, found: bool, t: Target) {
    if lines == [] then found
    else
      && IsSettledLine(lines[0], t)
      && (IsTargetLine(lines[0], t) ==> !found)
      && IsSettled(lines[1..], found || IsTargetLine(lines[0], t), t)
  }

  /** A record does not look like a comment or a blank line. */
  lemma RecordIsNotSkipped(f: seq<string>)
    requires |f| > 1 && IsUserName(f[0])
    ensures !IsSkipped(Join(f, ':'))
  {
    var line := Join(f, ':');
    assert line[0] == f[0][0];
    assert IsUserNameChar(f[0][0]);
    TrimEmptyIffBlank(line);
  }

  predicate HasNoColon(f: seq<string>) {
    forall i :: 0 <= i < |f| ==> ':' !in f[i]
  }

  lemma SplitIsPlain(line: string)
    ensures HasNoColon(Split(line, ':'))
  {
    SplitHasNoSeparator(line, ':');
  }

  lemma SplitOfRecord(f: seq<string>)
    requires f != [] && HasNoColon(f)
    ensures Split(Join(f, ':'), ':') == f
  {
    SplitOfJoin(f, ':');
  }

  lemma DigitsArePlain(s: string)
    requires AllDigits(s)
    ensures IsAccountField(s)
  {
  }

  lemma UserNamesArePlain(s: string)
    requires IsUserName(s)
    ensures IsAccountField(s)
  {
  }

  lemma RetargetedIsRecord(f: seq<string>, t: Target)
    requires IsTarget(t) && IsRecord(f) && HasNoColon(f)
    ensures IsRecord(Retarget(f, t)) && HasNoColon(Retarget(f, t))
  {
    ParseOfToDecimal(t.uid);
    ParseOfToDecimal(t.gid);
    DigitsArePlain(ToDecimal(t.uid));
    DigitsArePlain(ToDecimal(t.gid));
  }

  lemma NewRecordIsRecord(t: Target)
    requires IsTarget(t)
    ensures IsRecord(NewRecord(t)) && HasNoColon(NewRecord(t)) && Retarget(NewRecord(t), t) == NewRecord(t)
  {
    ParseOfToDecimal(t.uid);
    ParseOfToDecimal(t.gid);
    DigitsArePlain(ToDecimal(t.uid));
    DigitsArePlain(ToDecimal(t.gid));
    UserNamesArePlain(t.user);
  }

  /** A rewritten or appended line is settled and is the target's. */
  lemma TargetRecordSettles(f: seq<string>, t: Target)
    requires IsTarget(t) && IsRecord(f) && HasNoColon(f) && f[0] == t.user && Retarget(f, t) == f
    ensures IsSettledLine(Join(f, ':'), t) && IsTargetLine(Join(f, ':'), t)
    ensures Split(Join(f, ':'), ':') == f
  {
    RecordIsNotSkipped(f);
    SplitOfRecord(f);
  }

  lemma OtherLineSettles(line: string, found: bool, t: Target)
    requires RewriteLine(line, found, t).Ok? && !IsTargetLine(line, t)
    ensures RewriteLine(line, found, t).value == Line(line, false, false) && IsSettledLine(line, t)
  {
    JoinOfSplit(line, ':');
  }

  lemma TargetLineSettles(line: string, found: bool, t: Target)
    requires IsTarget(t) && RewriteLine(line, found, t).Ok? && IsTargetLine(line, t)
    ensures var s := RewriteLine(line, found, t).value;
            && s.isTarget && !found
            && IsSettledLine(s.text, t) && IsTargetLine(s.text, t)
            && |Split(line, ':')| == 7 && Split(s.text, ':') == Retarget(Split(line, ':'), t)
  {
    var f := Split(line, ':');
    SplitIsPlain(line);
    RetargetedIsRecord(f, t);
    TargetRecordSettles(Retarget(f, t), t);
  }

  /** One rewritten line is settled, and is the target's exactly when it was before. */
  lemma LineSettles(line: string, found: bool, t: Target)
    requires IsTarget(t) && RewriteLine(line, found, t).Ok?
    ensures var s := RewriteLine(line, found, t).value;
            && IsSettledLine(s.text, t)
            && IsTargetLine(s.text, t) == s.isTarget == IsTargetLine(line, t)
            && (s.isTarget ==> !found)
            && (!s.isTarget ==> s.text == line)
            && (s.isTarget ==> |Split(line, ':')| == 7 && Split(s.text, ':') == Retarget(Split(line, ':'), t))
  {
    if IsTargetLine(line, t) {
      TargetLineSettles(line, found, t);
    } else {
      OtherLineSettles(line, found, t);
    }
  }

  lemma SettledLineIsUnchanged(line: string, found: bool, t: Target)
    requires IsSettledLine(line, t) && (IsTargetLine(line, t) ==> !found)
    ensures RewriteLine(line, found, t) == Ok(Line(line, IsTargetLine(line, t), false))
  {
    JoinOfSplit(line, ':');
  }

  lemma UnchangedLine(line: string, found: bool, t: Target)
    requires RewriteLine(line, found, t).Ok? && !RewriteLine(line, found, t).value.changed
    ensures RewriteLine(line, found, t).value.text == line
  {
    JoinOfSplit(line, ':');
  }

  /** Whatever file was accepted, the new lines are settled. */
  lemma {:induction false} RewriteSettles(lines: seq<string>, found: bool, t: Target)
    requires IsTarget(t) && RewriteLines(lines, found, t).Ok?
    ensures IsSettled(Completed(RewriteLines(lines, found, t).value, t), found, t)
    decreases |lines|
  {
    if lines == [] {
      NewRecordSettles(t, found);
    } else {
      LineSettles(lines[0], found, t);
      var s := RewriteLine(lines[0], found, t).value;
      RewriteSettles(lines[1..], found || s.isTarget, t);
      var rest := RewriteLines(lines[1..], found || s.isTarget, t).value;
      CompletedStep(s, rest, t);
    }
  }

  lemma NewRecordSettles(t: Target, found: bool)
    requires IsTarget(t)
    ensures IsSettled(Completed(Rewrite([], found, false), t), found, t)
  {
    NewRecordIsRecord(t);
    TargetRecordSettles(NewRecord(t), t);
    if !found {
      assert Completed(Rewrite([], found, false), t)[1..] == [];
    }
  }

  lemma CompletedStep(s: Line, rest: Rewrite, t: Target)
    ensures var whole := Completed(Then([s.text], s.changed, Ok(rest)).value, t);
            whole == [s.text] + Completed(rest, t) && whole[1..] == Completed(rest, t)
  {
    assert rest.found || [s.text] + rest.lines + [Join(NewRecord(t), ':')] == [s.text] + (rest.lines + [Join(NewRecord(t), ':')]);
  }

  /** A settled file is accepted and left alone. */
  lemma {:induction false} SettledIsUnchanged(lines: seq<string>, found: bool, t: Target)
    requires IsSettled(lines, found, t)
    ensures RewriteLines(lines, found, t) == Ok(Rewrite(lines, true, false))
    decreases |lines|
  {
    if lines != [] {
      var isTarget := IsTargetLine(lines[0], t);
      assert RewriteLine(lines[0], found, t) == Ok(Line(lines[0], isTarget, false)) by {
        SettledLineIsUnchanged(lines[0], found, t);
      }
      SettledIsUnchanged(lines[1..], found || isTarget, t);
      UnchangedStep(lines, found, isTarget, t);
    }
  }

  lemma UnchangedStep(lines: seq<string>, found: bool, isTarget: bool, t: Target)
    requires lines != [] && RewriteLine(lines[0], found, t) == Ok(Line(lines[0], isTarget, false))
    requires RewriteLines(lines[1..], found || isTarget, t) == Ok(Rewrite(lines[1..], true, false))
    ensures RewriteLines(lines, found, t) == Ok(Rewrite(lines, true, false))
  {
    assert [lines[0]] + lines[1..] == lines;
  }

  /** Nothing but the target's line is rewritten, and of that only uid, gid and home. */
  lemma {:induction false} RewriteKeepsTheRest(lines: seq<string>, found: bool, t: Target, i: nat)
    requires IsTarget(t) && RewriteLines(lines, found, t).Ok? && i < |lines|
    ensures var r := RewriteLines(lines, found, t).value;
            && |r.lines| == |lines|
            && (if IsTargetLine(lines[i], t)
                then |Split(lines[i], ':')| == 7 && Split(r.lines[i], ':') == Retarget(Split(lines[i], ':'), t)
                else r.lines[i] == lines[i])
    decreases |lines|
  {
    LineSettles(lines[0], found, t);
    if |lines| > 1 {
      RewriteKeepsTheRest(lines[1..], found || IsTargetLine(lines[0], t), t, if i == 0 then 0 else i - 1);
    }
  }

  /** No change reported means no line changed. */
  lemma {:induction false} UnchangedLines(lines: seq<string>, found: bool, t: Target)
    requires RewriteLines(lines, found, t).Ok? && !RewriteLines(lines, found, t).value.changed
    ensures RewriteLines(lines, found, t).value.lines == lines
    decreases |lines|
  {
    if lines != [] {
      UnchangedLine(lines[0], found, t);
      UnchangedLines(lines[1..], found || RewriteLine(lines[0], found, t).value.isTarget, t);
    }
  }

  // ------------------------------------------------------------- back through the text

  /** The last character of a line, unless it is a colon, is in its last field. */
  lemma {:induction false} LastFieldEndsLine(line: string, c: char)
    requires EndsWith(line, c) && c != ':'
    ensures c in Split(line, ':')[|Split(line, ':')| - 1]
    decreases |line|
  {
    if |line| > 1 {
      LastFieldEndsLine(line[1..], c);
    }
  }

  lemma SettledWithoutCr(line: string, t: Target)
    requires IsSettledLine(line, t)
    ensures IsSettledLine(DropCr(line), t) && IsTargetLine(DropCr(line), t) == IsTargetLine(line, t)
    ensures !IsSkipped(line) ==> DropCr(line) == line
  {
    if IsSkipped(line) {
      SkippedWithoutCr(line);
    } else if EndsWith(line, '\r') {
      LastFieldEndsLine(line, '\r');
    }
  }

  lemma {:induction false} SettledReadBack(lines: seq<string>, terminated: bool, found: bool, t: Target)
    requires lines != [] && IsSettled(lines, found, t)
    ensures IsSettled(ReadBack(lines, terminated), found, t)
    decreases |lines|
  {
    SettledWithoutCr(lines[0], t);
    var read := ReadBack(lines, terminated);
    if |lines| > 1 {
      SettledReadBack(lines[1..], terminated, found || IsTargetLine(lines[0], t), t);
      assert read[1..] == ReadBack(lines[1..], terminated);
    } else {
      assert read[1..] == [] && lines[1..] == [];
    }
  }

  lemma {:induction false} JoinIsPlain(f: seq<string>)
    requires HasNoNewline(f)
    ensures '\n' !in Join(f, ':')
    decreases |f|
  {
    if |f| > 1 {
      JoinIsPlain(f[1..]);
    }
  }

  lemma {:induction false} FieldsArePlain(line: string)
    requires '\n' !in line
    ensures HasNoNewline(Split(line, ':'))
    decreases |line|
  {
    if line != "" {
      FieldsArePlain(line[1..]);
    }
  }

  lemma RewrittenLineIsSingle(line: string, text: string, t: Target)
    requires IsTarget(t) && '\n' !in line && |Split(line, ':')| == 7 && Split(text, ':') == Retarget(Split(line, ':'), t)
    ensures '\n' !in text
  {
    FieldsArePlain(line);
    DigitsArePlain(ToDecimal(t.uid));
    DigitsArePlain(ToDecimal(t.gid));
    JoinIsPlain(Retarget(Split(line, ':'), t));
    JoinOfSplit(text, ':');
  }

  lemma NewRecordIsSingle(t: Target)
    requires IsTarget(t)
    ensures '\n' !in Join(NewRecord(t), ':') && Join(NewRecord(t), ':') != ""
  {
    DigitsArePlain(ToDecimal(t.uid));
    DigitsArePlain(ToDecimal(t.gid));
    UserNamesArePlain(t.user);
    JoinIsPlain(NewRecord(t));
  }

  /** The new lines are lines, and the last of them is one even without a newline after it. */
  lemma CompletedIsWritable(contents: string, t: Target)
    requires IsTarget(t) && RewriteLines(Lines(contents), false, t).Ok?
    ensures var lines := Completed(RewriteLines(Lines(contents), false, t).value, t);
            lines != [] && HasNoNewline(lines) && (EndsWith(contents, '\n') || lines[|lines| - 1] != "")
  {
    var input := Lines(contents);
    var r := RewriteLines(input, false, t).value;
    LinesAreSingle(contents);
    NewRecordIsSingle(t);
    RewriteSettles(input, false, t);
    RewriteLength(input, false, t);
    forall i | 0 <= i < |r.lines|
      ensures '\n' !in r.lines[i] && (input[i] != "" ==> r.lines[i] != "")
    {
      RewriteKeepsTheRest(input, false, t, i);
      if IsTargetLine(input[i], t) {
        RewrittenLineIsSingle(input[i], r.lines[i], t);
      }
    }
    if r.found && !EndsWith(contents, '\n') {
      UnterminatedLastLine(contents);
    }
  }

  lemma {:induction false} RewriteLength(lines: seq<string>, found: bool, t: Target)
    requires RewriteLines(lines, found, t).Ok?
    ensures |RewriteLines(lines, found, t).value.lines| == |lines|
    decreases |lines|
  {
    if lines != [] {
      RewriteLength(lines[1..], found || RewriteLine(lines[0], found, t).value.isTarget, t);
    }
  }

  // ----------------------------------------------------------------- main results

  /** The file a reconciliation leaves is settled, whatever file was accepted. */
  lemma AppliedSettles(contents: string, t: Target)
    requires IsTarget(t) && Applied(contents, t).Ok?
    ensures IsSettled(Lines(Applied(contents, t).value), false, t)
  {
    var r := RewriteLines(Lines(contents), false, t).value;
    RewriteSettles(Lines(contents), false, t);
    if r.changed || !r.found {
      CompletedIsWritable(contents, t);
      LinesOfWritten(Completed(r, t), EndsWith(contents, '\n'));
      SettledReadBack(Completed(r, t), EndsWith(contents, '\n'), false, t);
    } else {
      UnchangedLines(Lines(contents), false, t);
    }
  }

  /** Reconciling a reconciled file succeeds, reports no change and replaces nothing. */
  lemma ReapplyingChangesNothing(contents: string, t: Target)
    requires IsTarget(t) && Applied(contents, t).Ok?
    ensures var after := Applied(contents, t).value;
            && Applied(after, t) == Ok(after)
            && ReconciledPasswd(after, t).Ok? && !ReconciledPasswd(after, t).value.changed
  {
    AppliedSettles(contents, t);
    SettledIsUnchanged(Lines(Applied(contents, t).value), false, t);
  }

  /**
   Every line of the old file, as lines are read, is in the new one at the same place: the
   target's with uid, gid and home replaced, any other as it was, but for a second carriage
   return at the end of a comment or blank line.
   */
  lemma LinesAreKept(contents: string, t: Target, i: nat)
    requires IsTarget(t) && Applied(contents, t).Ok? && i < |Lines(contents)|
    ensures var before, after := Lines(contents), Lines(Applied(contents, t).value);
            |before| <= |after| <= |before| + 1 && IsKept(before[i], after[i], t)
  {
    var before := Lines(contents);
    var terminated := EndsWith(contents, '\n');
    var r := RewriteLines(before, false, t).value;
    RewrittenLineIsKept(before, t, i);
    if r.changed || !r.found {
      CompletedIsWritable(contents, t);
      LinesOfWritten(Completed(r, t), terminated);
      ReadBackAt(Completed(r, t), terminated, i);
    } else {
      UnchangedLines(before, false, t);
    }
  }

  /** What becomes of a line: of the target's three fields change, of a skipped one at most its end. */
  predicate IsKept(before: string, after: string, t: Target) {
    if IsTargetLine(before, t)
    then |Split(before, ':')| == 7 && Split(after, ':') == Retarget(Split(before, ':'), t)
    else after == before || (IsSkipped(before) && after == DropCr(before))
  }

  lemma RewrittenLineIsKept(before: seq<string>, t: Target, i: nat)
    requires IsTarget(t) && RewriteLines(before, false, t).Ok? && i < |before|
    ensures var r := RewriteLines(before, false, t).value;
            |r.lines| == |before| && IsKept(before[i], r.lines[i], t) && IsKept(before[i], DropCr(r.lines[i]), t)
  {
    var r := RewriteLines(before, false, t).value;
    RewriteKeepsTheRest(before, false, t, i);
    LineAtIsSettled(before, false, t, i);
    SettledWithoutCr(r.lines[i], t);
  }

  lemma {:induction false} LineAtIsSettled(lines: seq<string>, found: bool, t: Target, i: nat)
    requires IsTarget(t) && RewriteLines(lines, found, t).Ok? && i < |lines|
    ensures var r := RewriteLines(lines, found, t).value;
            i < |r.lines| && IsSettledLine(r.lines[i], t) && IsTargetLine(r.lines[i], t) == IsTargetLine(lines[i], t)
    decreases |lines|
  {
    LineSettles(lines[0], found, t);
    if i > 0 {
      LineAtIsSettled(lines[1..], found || IsTargetLine(lines[0], t), t, i - 1);
    }
  }

  predicate IsAcceptableLine(line: string, t: Target) {
    || IsSkipped(line)
    || (var f := Split(line, ':'); IsRecord(f) && (ParseU32(f[2]) == Some(t.uid) ==> f[0] == t.user))
  }

  /** A file is accepted exactly when its records are well formed, the uid is free and the user unique. */
  lemma {:induction false} AcceptedExactlyWhen(lines: seq<string>, found: bool, t: Target)
    ensures RewriteLines(lines, found, t).Ok? <==>
              && (forall i :: 0 <= i < |lines| ==> IsAcceptableLine(lines[i], t))
              && (forall i :: 0 <= i < |lines| && found ==> !IsTargetLine(lines[i], t))
              && (forall i, j :: 0 <= i < j < |lines| ==> !IsTargetLine(lines[i], t) || !IsTargetLine(lines[j], t))
    decreases |lines|
  {
    if lines != [] {
      var rest, later := lines[1..], found || IsTargetLine(lines[0], t);
      AcceptedExactlyWhen(rest, later, t);
      assert forall i :: 0 < i < |lines| ==> lines[i] == rest[i - 1];
      assert forall i :: 0 <= i < |rest| ==> rest[i] == lines[i + 1];
      assert RewriteLine(lines[0], found, t).Ok? <==>
               IsAcceptableLine(lines[0], t) && (found ==> !IsTargetLine(lines[0], t));
      assert RewriteLine(lines[0], found, t).Ok? ==>
               RewriteLine(lines[0], found, t).value.isTarget == IsTargetLine(lines[0], t);
    }
  }

  /** In a settled file the target has one record, and no other record has its uid. */
  lemma {:induction false} SettledIsUnique(lines: seq<string>, found: bool, t: Target) returns (k: int)
    requires IsTarget(t) && IsSettled(lines, found, t)
    ensures found ==> k == -1
    ensures !found ==> 0 <= k < |lines| && IsTargetLine(lines[k], t)
    ensures forall i :: 0 <= i < |lines| && i != k && !IsSkipped(lines[i]) ==>
              Split(lines[i], ':')[0] != t.user && |Split(lines[i], ':')| == 7 && ParseU32(Split(lines[i], ':')[2]) != Some(t.uid)
    decreases |lines|
  {
    k := -1;
    if lines != [] {
      var isTarget := IsTargetLine(lines[0], t);
      var rest := SettledIsUnique(lines[1..], found || isTarget, t);
      k := if isTarget then 0 else if rest == -1 then -1 else rest + 1;
      assert forall i :: 0 < i < |lines| ==> lines[i] == lines[1..][i - 1];
    }
  }

  /** After a reconciliation exactly one record is the target's, and it alone has the uid. */
  lemma TargetIsUnique(contents: string, t: Target) returns (k: nat)
    requires IsTarget(t) && Applied(contents, t).Ok?
    ensures var after := Lines(Applied(contents, t).value);
            && k < |after| && IsTargetLine(after[k], t)
            && |Split(after[k], ':')| == 7 && Retarget(Split(after[k], ':'), t) == Split(after[k], ':')
            && forall i :: 0 <= i < |after| && i != k && !IsSkipped(after[i]) ==>
                 Split(after[i], ':')[0] != t.user && |Split(after[i], ':')| == 7 && ParseU32(Split(after[i], ':')[2]) != Some(t.uid)
  {
    AppliedSettles(contents, t);
    var after := Lines(Applied(contents, t).value);
    var found := SettledIsUnique(after, false, t);
    k := found;
    SettledIsUnchanged(after, false, t);
    LineAtIsSettled(after, false, t, k);
  }

  lemma {:induction false} FoundIsSeen(lines: seq<string>, found: bool, t: Target)
    requires IsTarget(t) && RewriteLines(lines, found, t).Ok? && RewriteLines(lines, found, t).value.found
    ensures found || exists i :: 0 <= i < |lines| && IsTargetLine(lines[i], t)
    decreases |lines|
  {
    if lines != [] {
      LineSettles(lines[0], found, t);
      var rest := lines[1..];
      FoundIsSeen(rest, found || IsTargetLine(lines[0], t), t);
      if i :| 0 <= i < |rest| && IsTargetLine(rest[i], t) {
        assert lines[i + 1] == rest[i];
      }
    }
  }

  /** A user without a record gets one at the end, with a locked password and the default shell. */
  lemma NewRecordIsAppended(contents: string, t: Target)
    requires IsTarget(t) && Applied(contents, t).Ok?
    requires forall i :: 0 <= i < |Lines(contents)| ==> !IsTargetLine(Lines(contents)[i], t)
    ensures var before, after := Lines(contents), Lines(Applied(contents, t).value);
            |after| == |before| + 1
            && Split(after[|before|], ':') == [t.user, "x", ToDecimal(t.uid), ToDecimal(t.gid), "", t.home, "/bin/sh"]
  {
    var before, terminated := Lines(contents), EndsWith(contents, '\n');
    var r := RewriteLines(before, false, t).value;
    assert !r.found by {
      if r.found {
        FoundIsSeen(before, false, t);
      }
    }
    RewriteLength(before, false, t);
    CompletedIsWritable(contents, t);
    LinesOfWritten(Completed(r, t), terminated);
    ReadBackAt(Completed(r, t), terminated, |before|);
    NewRecordIsRecord(t);
    TargetRecordSettles(NewRecord(t), t);
    SettledWithoutCr(Join(NewRecord(t), ':'), t);
  }

  // ----------------------------------------------------------------- reading back

  datatype Query = ByName(name: string) | ByUid(uid: nat)

  datatype User = User(name: string, uid: nat, gid: nat, home: string, shell: string)

  predicate Matches(f: seq<string>, q: Query)
    requires |f| == 7
  {
    match q
    case ByName(name) => f[0] == name
    case ByUid(uid) => ParseU32(f[2]) == Some(uid)
  }

  function LookupLine(line: string, q: Query): Result<Option<User>, AccountError> {
    if IsSkipped(line) then Ok(None)
    else
      var f := Split(line, ':');
      if |f| != 7 || f[0] == "" || ParseU32(f[2]).None? || ParseU32(f[3]).None? then Err(Malformed)
      else if Matches(f, q) then Ok(Some(User(f[0], ParseU32(f[2]).value, ParseU32(f[3]).value, f[5], f[6])))
      else Ok(None)
  }

  function Lookup(lines: seq<string>, q: Query): Result<Option<User>, AccountError> {
    if lines == [] then Ok(None)
    else match LookupLine(lines[0], q)
      case Err(e) => Err(e)
      case Ok(Some(user)) => Ok(Some(user))
      case Ok(None) => Lookup(lines[1..], q)
  }

  method LookupFileUser(contents: Option<string>, q: Query) returns (r: Result<Option<User>, AccountError>)
    ensures r == if contents.None? then Ok(None) else Lookup(Lines(contents.value), q)
  {
    if contents.None? {
      return Ok(None);
    }
    var lines := Lines(contents.value);
    for k := 0 to |lines|
      invariant Lookup(lines, q) == Lookup(lines[k..], q)
    {
      var here := LookupLine(lines[k], q);
      assert lines[k..][0] == lines[k] && lines[k..][1..] == lines[k + 1..];
      if here.Err? || here.value.Some? {
        return here;
      }
    }
    return Ok(None);
  }

  predicate IsTheTarget(r: Result<Option<User>, AccountError>, t: Target) {
    && r.Ok? && r.value.Some?
    && r.value.value.name == t.user && r.value.value.uid == t.uid && r.value.value.gid == t.gid
    && r.value.value.home == t.home
  }

  predicate AsksFor(q: Query, t: Target) {
    q == ByName(t.user) || q == ByUid(t.uid)
  }

  lemma SettledLineAnswers(line: string, t: Target, q: Query)
    requires IsTarget(t) && IsSettledLine(line, t) && AsksFor(q, t)
    ensures if IsTargetLine(line, t) then IsTheTarget(LookupLine(line, q), t) else LookupLine(line, q) == Ok(None)
  {
    ParseOfToDecimal(t.uid);
    ParseOfToDecimal(t.gid);
  }

  lemma {:induction false} SettledAnswers(lines: seq<string>, t: Target, q: Query)
    requires IsTarget(t) && IsSettled(lines, false, t) && AsksFor(q, t)
    ensures IsTheTarget(Lookup(lines, q), t)
    decreases |lines|
  {
    SettledLineAnswers(lines[0], t, q);
    if !IsTargetLine(lines[0], t) {
      SettledAnswers(lines[1..], t, q);
    }
  }

  /** Looking the target up in the reconciled file, by name or by uid, finds exactly it. */
  lemma ReadBackFindsTarget(contents: string, t: Target, q: Query)
    requires IsTarget(t) && Applied(contents, t).Ok? && AsksFor(q, t)
    ensures IsTheTarget(Lookup(Lines(Applied(contents, t).value), q), t)
  {
    AppliedSettles(contents, t);
    SettledAnswers(Lines(Applied(contents, t).value), t, q);
  }
}
