/**
 Reconciling `/etc/group` with a target identity: every group with the target's gid
 lists the user once; a group is appended when there is none.
 */
module GroupFile {
  import opened Prelude
  import opened Text
  import opened TextScan
  import opened TextLines
  import opened PasswdFile

  // ------------------------------------------------------------------------ members

  function Members(field: string): seq<string> {
    NonEmpty(Split(field, ','))
  }

  function Count(members: seq<string>, user: string): nat {
    if members == [] then 0 else (if members[0] == user then 1 else 0) + Count(members[1..], user)
  }

  /** The members with the user kept where it first stands, or added at the end. */
  function Enrolled(members: seq<string>, user: string, seen: bool): seq<string> {
    if members == [] then (if seen then [] else [user])
    else if members[0] == user && seen then Enrolled(members[1..], user, true)
    else [members[0]] + Enrolled(members[1..], user, seen || members[0] == user)
  }

  function Others(members: seq<string>, user: string): seq<string> {
    if members == [] then []
    else (if members[0] == user then [] else [members[0]]) + Others(members[1..], user)
  }

  /** After enrolling, the user is there exactly once. */
  lemma {:induction false} EnrolledOnce(members: seq<string>, user: string, seen: bool)
    ensures Count(Enrolled(members, user, seen), user) == if seen then 0 else 1
    decreases |members|
  {
    if members == [] {
      assert seen || [user][1..] == [];
    } else {
      var later := seen || members[0] == user;
      EnrolledOnce(members[1..], user, later);
      assert ([members[0]] + Enrolled(members[1..], user, later))[1..] == Enrolled(members[1..], user, later);
    }
  }

  /** Enrolling neither loses, nor adds, nor reorders anybody else. */
  lemma {:induction false} EnrollingKeepsOthers(members: seq<string>, user: string, seen: bool)
    ensures Others(Enrolled(members, user, seen), user) == Others(members, user)
    decreases |members|
  {
    if members == [] {
      assert seen || [user][1..] == [];
    } else {
      var later := seen || members[0] == user;
      EnrollingKeepsOthers(members[1..], user, later);
      assert ([members[0]] + Enrolled(members[1..], user, later))[1..] == Enrolled(members[1..], user, later);
    }
  }

  /** A list with the user in it once, or not at all once it was seen, is left alone. */
  lemma {:induction false} EnrolledIsUnchanged(members: seq<string>, user: string, seen: bool)
    requires Count(members, user) == if seen then 0 else 1
    ensures Enrolled(members, user, seen) == members
    decreases |members|
  {
    if members != [] {
      EnrolledIsUnchanged(members[1..], user, seen || members[0] == user);
      assert [members[0]] + members[1..] == members;
    }
  }

  predicate AreNames(members: seq<string>) {
    forall i :: 0 <= i < |members| ==> IsUserName(members[i])
  }

  lemma {:induction false} EnrolledAreNames(members: seq<string>, user: string, seen: bool)
    requires AreNames(members) && IsUserName(user)
    ensures AreNames(Enrolled(members, user, seen))
    ensures !seen ==> Enrolled(members, user, seen) != []
    decreases |members|
  {
    if members != [] {
      EnrolledAreNames(members[1..], user, seen || members[0] == user);
    }
  }

  lemma {:induction false} NamesAreNonEmpty(members: seq<string>)
    requires AreNames(members)
    ensures NonEmpty(members) == members
    decreases |members|
  {
    if members != [] {
      NamesAreNonEmpty(members[1..]);
      assert [members[0]] + members[1..] == members;
    }
  }

  /** Names joined by commas are read back as the same names. */
  lemma MembersOfJoin(members: seq<string>)
    requires members != [] && AreNames(members)
    ensures Members(Join(members, ',')) == members
  {
    forall m | m in members
      ensures ',' !in m
    {
      assert forall i :: 0 <= i < |m| ==> IsUserNameChar(m[i]);
    }
    SplitOfJoin(members, ',');
    NamesAreNonEmpty(members);
  }

  // -------------------------------------------------------------------- the records

  predicate IsGroup(f: seq<string>) {
    |f| == 4 && IsUserName(f[0]) && ParseU32(f[2]).Some? && IsAccountField(f[3]) && AreNames(Members(f[3]))
  }

  function MemberField(field: string, user: string): string {
    Join(Enrolled(Members(field), user, false), ',')
  }

  function NewGroup(t: Target): seq<string> {
    [t.user, "x", ToDecimal(t.gid), ""]
  }

  /** Whether the loop over the members, or the comparison after it, notes a change. */
  predicate MembersChange(field: string, user: string) {
    Count(Members(field), user) != 1 || MemberField(field, user) != field
  }

  function RewriteGroup(line: string, t: Target): Result<Line, AccountError> {
    if IsSkipped(line) then Ok(Line(line, false, false))
    else
      var f := Split(line, ':');
      if !IsGroup(f) then Err(Malformed)
      else if ParseU32(f[2]) != Some(t.gid) then Ok(Line(Join(f, ':'), false, false))
      else Ok(Line(Join(f[3 := MemberField(f[3], t.user)], ':'), true, MembersChange(f[3], t.user)))
  }

  function RewriteGroups(lines: seq<string>, matched: bool, t: Target): Result<Rewrite, AccountError>
    decreases |lines|
  {
    if lines == [] then Ok(Rewrite([], matched, false))
    else match RewriteGroup(lines[0], t)
      case Err(e) => Err(e)
      case Ok(s) => Then([s.text], s.changed, RewriteGroups(lines[1..], matched || s.isTarget, t))
  }

  function CompletedGroups(r: Rewrite, t: Target): seq<string> {
    if r.found then r.lines else r.lines + [Join(NewGroup(t), ':')]
  }

  function ReconciledGroup(contents: string, t: Target): Result<Reconciled, AccountError> {
    match RewriteGroups(Lines(contents), false, t)
    case Err(e) => Err(e)
    case Ok(r) =>
      var changed := r.changed || !r.found;
      Ok(Reconciled(Written(CompletedGroups(r, t), EndsWith(contents, '\n') || changed), changed))
  }

  function AppliedGroup(contents: string, t: Target): Result<string, AccountError> {
    match ReconciledGroup(contents, t)
    case Err(e) => Err(e)
    case Ok(r) => Ok(if r.changed then r.contents else contents)
  }

  /** The loop over the members of one group. */
  method EnrollUser(field: string, user: string) returns (value: string, changed: bool)
    ensures value == MemberField(field, user)
    ensures changed == MembersChange(field, user)
  {
    var members := Members(field);
    var reconciled: seq<string> := [];
    var seen := false;
    changed := false;
    ghost var counted := 0;
    for k := 0 to |members|
      invariant Enrolled(members, user, false) == reconciled + Enrolled(members[k..], user, seen)
      invariant Count(members, user) == counted + Count(members[k..], user)
      invariant seen <==> counted >= 1
      invariant changed <==> counted >= 2
    {
      var member := members[k];
      assert members[k..][0] == member && members[k..][1..] == members[k + 1..];
      counted := counted + if member == user then 1 else 0;
      if member == user && seen {
        changed := true;
      } else {
        seen := seen || member == user;
        reconciled := reconciled + [member];
      }
    }
    assert reconciled + [] == reconciled;
    if !seen {
      reconciled := reconciled + [user];
      changed := true;
    }
    assert reconciled == Enrolled(members, user, false);
    value := Join(reconciled, ',');
    if field != value {
      changed := true;
    }
  }

  method ReconcileGroup(contents: string, t: Target) returns (r: Result<Reconciled, AccountError>)
    requires IsTarget(t)
    ensures r == ReconciledGroup(contents, t)
  {
    var input := Lines(contents);
    var matched, changed, output := false, false, [];
    GroupsStart(input, t);
    for k := 0 to |input|
      invariant GroupsPartWay(input, k, output, matched, changed, t)
    {
      var step := ReconcileGroupLine(input[k], t);
      GroupsStep(input, k, output, matched, changed, t);
      if step.Err? {
        return Err(step.error);
      }
      var s := step.value;
      output := output + [s.text];
      matched := matched || s.isTarget;
      changed := changed || s.changed;
    }
    GroupsEnd(input, output, matched, changed, t);
    if !matched {
      output := output + [Join(NewGroup(t), ':')];
      changed := true;
    }
    return Ok(Reconciled(Written(output, EndsWith(contents, '\n') || changed), changed));
  }

  /** The loop over the lines, before line `k`. */
  ghost predicate GroupsPartWay(input: seq<string>, k: nat, output: seq<string>, matched: bool, changed: bool, t: Target)
    requires k <= |input|
  {
    RewriteGroups(input, false, t) == Then(output, changed, RewriteGroups(input[k..], matched, t))
  }

  lemma GroupsStart(input: seq<string>, t: Target)
    ensures GroupsPartWay(input, 0, [], false, false, t)
  {
    ThenNothing(RewriteGroups(input, false, t));
    assert input[0..] == input;
  }

  lemma GroupsStep(input: seq<string>, k: nat, output: seq<string>, matched: bool, changed: bool, t: Target)
    requires k < |input| && GroupsPartWay(input, k, output, matched, changed, t)
    ensures match RewriteGroup(input[k], t)
            case Err(e) => RewriteGroups(input, false, t) == Err(e)
            case Ok(s) => GroupsPartWay(input, k + 1, output + [s.text], matched || s.isTarget, changed || s.changed, t)
  {
    assert input[k..][0] == input[k] && input[k..][1..] == input[k + 1..];
    var step := RewriteGroup(input[k], t);
    if step.Ok? {
      var s := step.value;
      ThenThen(output, changed, [s.text], s.changed, RewriteGroups(input[k + 1..], matched || s.isTarget, t));
    }
  }

  lemma GroupsEnd(input: seq<string>, output: seq<string>, matched: bool, changed: bool, t: Target)
    requires GroupsPartWay(input, |input|, output, matched, changed, t)
    ensures RewriteGroups(input, false, t) == Ok(Rewrite(output, matched, changed))
  {
    assert output + [] == output;
  }

  method ReconcileGroupLine(line: string, t: Target) returns (r: Result<Line, AccountError>)
    ensures r == RewriteGroup(line, t)
  {
    if IsSkipped(line) {
      return Ok(Line(line, false, false));
    }
    var f := Split(line, ':');
    if !IsGroup(f) {
      return Err(Malformed);
    }
    if ParseU32(f[2]) != Some(t.gid) {
      return Ok(Line(Join(f, ':'), false, false));
    }
    var value, changed := EnrollUser(f[3], t.user);
    return Ok(Line(Join(f[3 := value], ':'), true, changed));
  }

  // ----------------------------------------------------------------- settled groups

  predicate IsTargetGroup(line: string, t: Target) {
    !IsSkipped(line) && |Split(line, ':')| == 4 && ParseU32(Split(line, ':')[2]) == Some(t.gid)
  }

  /** A group line with nothing left to do: the user stands in it once, and nothing is empty. */
  predicate IsSettledGroup(line: string, t: Target) {
    || IsSkipped(line)
    || (var f := Split(line, ':');
        IsGroup(f) && (ParseU32(f[2]) == Some(t.gid) ==> !MembersChange(f[3], t.user)))
  }

  predicate AreSettled(lines: seq<string>, t: Target) {
    forall i :: 0 <= i < |lines| ==> IsSettledGroup(lines[i], t)
  }

  predicate HasTargetGroup(lines: seq<string>, t: Target) {
    exists i :: 0 <= i < |lines| && IsTargetGroup(lines[i], t)
  }

  lemma GroupIsNotSkipped(f: seq<string>)
    requires |f| > 1 && IsUserName(f[0])
    ensures !IsSkipped(Join(f, ':'))
  {
    RecordIsNotSkipped(f);
  }

  /** The rewritten member field is a valid one that needs no second change. */
  lemma MemberFieldSettles(field: string, user: string)
    requires IsUserName(user) && AreNames(Members(field))
    ensures IsAccountField(MemberField(field, user))
    ensures Members(MemberField(field, user)) == Enrolled(Members(field), user, false)
    ensures AreNames(Members(MemberField(field, user))) && !MembersChange(MemberField(field, user), user)
  {
    var members := Enrolled(Members(field), user, false);
    EnrolledAreNames(Members(field), user, false);
    MembersOfJoin(members);
    EnrolledOnce(Members(field), user, false);
    EnrolledIsUnchanged(members, user, false);
    NamesJoinPlainly(members);
  }

  lemma {:induction false} NamesJoinPlainly(members: seq<string>)
    requires AreNames(members)
    ensures IsAccountField(Join(members, ','))
    decreases |members|
  {
    if members != [] {
      UserNamesArePlain(members[0]);
      NamesJoinPlainly(members[1..]);
    }
  }

  lemma GroupOtherSettles(line: string, t: Target)
    requires RewriteGroup(line, t).Ok? && !RewriteGroup(line, t).value.isTarget
    ensures RewriteGroup(line, t).value == Line(line, false, false) && IsSettledGroup(line, t) && !IsTargetGroup(line, t)
  {
    JoinOfSplit(line, ':');
  }

  lemma GroupTargetSettles(line: string, t: Target)
    requires IsTarget(t) && RewriteGroup(line, t).Ok? && RewriteGroup(line, t).value.isTarget
    ensures var s := RewriteGroup(line, t).value;
            && IsTargetGroup(line, t) && IsTargetGroup(s.text, t) && IsSettledGroup(s.text, t)
            && Split(s.text, ':') == Split(line, ':')[3 := MemberField(Split(line, ':')[3], t.user)]
  {
    var f := Split(line, ':');
    var g := f[3 := MemberField(f[3], t.user)];
    MemberFieldSettles(f[3], t.user);
    SplitIsPlain(line);
    SplitOfRecord(g);
    GroupIsNotSkipped(g);
  }

  lemma GroupSettles(line: string, t: Target)
    requires IsTarget(t) && RewriteGroup(line, t).Ok?
    ensures var s := RewriteGroup(line, t).value;
            && IsSettledGroup(s.text, t) && IsTargetGroup(s.text, t) == s.isTarget == IsTargetGroup(line, t)
            && (!s.isTarget ==> s.text == line)
            && (s.isTarget ==> Split(s.text, ':') == Split(line, ':')[3 := MemberField(Split(line, ':')[3], t.user)])
  {
    if RewriteGroup(line, t).value.isTarget {
      GroupTargetSettles(line, t);
    } else {
      GroupOtherSettles(line, t);
    }
  }

  /** What the rewriting makes of every line: settled, and only a member field different. */
  lemma {:induction false} GroupLineAt(lines: seq<string>, matched: bool, t: Target, i: nat)
    requires IsTarget(t) && RewriteGroups(lines, matched, t).Ok? && i < |lines|
    ensures var r := RewriteGroups(lines, matched, t).value;
            && |r.lines| == |lines|
            && RewriteGroup(lines[i], t).Ok? && r.lines[i] == RewriteGroup(lines[i], t).value.text
            && IsSettledGroup(r.lines[i], t)
            && (RewriteGroup(lines[i], t).value.changed ==> r.changed)
    decreases |lines|
  {
    GroupSettles(lines[0], t);
    if |lines| > 1 {
      GroupLineAt(lines[1..], matched || RewriteGroup(lines[0], t).value.isTarget, t, if i == 0 then 0 else i - 1);
    }
  }

  lemma {:induction false} GroupsMatched(lines: seq<string>, matched: bool, t: Target)
    requires IsTarget(t) && RewriteGroups(lines, matched, t).Ok?
    ensures |RewriteGroups(lines, matched, t).value.lines| == |lines|
    ensures RewriteGroups(lines, matched, t).value.found <==> matched || HasTargetGroup(lines, t)
    decreases |lines|
  {
    if lines != [] {
      GroupSettles(lines[0], t);
      var rest := lines[1..];
      GroupsMatched(rest, matched || IsTargetGroup(lines[0], t), t);
      assert forall i :: 0 < i < |lines| ==> lines[i] == rest[i - 1];
      assert forall i :: 0 <= i < |rest| ==> rest[i] == lines[i + 1];
    }
  }

  lemma SettledGroupIsUnchanged(line: string, t: Target)
    requires IsSettledGroup(line, t)
    ensures RewriteGroup(line, t) == Ok(Line(line, IsTargetGroup(line, t), false))
  {
    JoinOfSplit(line, ':');
    var f := Split(line, ':');
    assert |f| == 4 ==> f[3 := f[3]] == f;
  }

  /** Settled groups are left alone. */
  lemma {:induction false} SettledGroupsAreUnchanged(lines: seq<string>, matched: bool, t: Target)
    requires AreSettled(lines, t)
    ensures RewriteGroups(lines, matched, t) == Ok(Rewrite(lines, matched || HasTargetGroup(lines, t), false))
    decreases |lines|
  {
    if lines != [] {
      var rest := lines[1..];
      SettledGroupIsUnchanged(lines[0], t);
      SettledGroupsAreUnchanged(rest, matched || IsTargetGroup(lines[0], t), t);
      assert [lines[0]] + rest == lines;
      assert forall i :: 0 < i < |lines| ==> lines[i] == rest[i - 1];
      assert forall i :: 0 <= i < |rest| ==> rest[i] == lines[i + 1];
    }
  }

  lemma UnchangedGroup(line: string, t: Target)
    requires RewriteGroup(line, t).Ok? && !RewriteGroup(line, t).value.changed
    ensures RewriteGroup(line, t).value.text == line
  {
    JoinOfSplit(line, ':');
    var f := Split(line, ':');
    assert |f| == 4 ==> f[3 := f[3]] == f;
  }

  // -------------------------------------------------------------- back through the text

  lemma SettledGroupWithoutCr(line: string, t: Target)
    requires IsSettledGroup(line, t)
    ensures IsSettledGroup(DropCr(line), t) && IsTargetGroup(DropCr(line), t) == IsTargetGroup(line, t)
    ensures !IsSkipped(line) ==> DropCr(line) == line
  {
    if IsSkipped(line) {
      SkippedWithoutCr(line);
    } else if EndsWith(line, '\r') {
      LastFieldEndsLine(line, '\r');
    }
  }

  lemma NewGroupIsGroup(t: Target)
    requires IsTarget(t)
    ensures var line := Join(NewGroup(t), ':');
            && !IsSkipped(line) && Split(line, ':') == NewGroup(t) && IsGroup(NewGroup(t)) && IsTargetGroup(line, t)
            && RewriteGroup(line, t).Ok? && '\n' !in line
  {
    ParseOfToDecimal(t.gid);
    DigitsArePlain(ToDecimal(t.gid));
    UserNamesArePlain(t.user);
    GroupIsNotSkipped(NewGroup(t));
    SplitOfRecord(NewGroup(t));
    JoinIsPlain(NewGroup(t));
    assert Members("") == [] by {
      assert Split("", ',') == [""];
      assert [""][1..] == [];
    }
  }

  lemma GroupTextIsSingle(line: string, t: Target)
    requires IsTarget(t) && RewriteGroup(line, t).Ok? && '\n' !in line
    ensures '\n' !in RewriteGroup(line, t).value.text
  {
    JoinOfSplit(line, ':');
    var f := Split(line, ':');
    if IsTargetGroup(line, t) {
      FieldsArePlain(line);
      MemberFieldSettles(f[3], t.user);
      JoinIsPlain(f[3 := MemberField(f[3], t.user)]);
    }
  }

  /** The lines the new text is read back as: those written, up to carriage returns. */
  lemma ChangedGroupLines(contents: string, t: Target)
    requires IsTarget(t) && ReconciledGroup(contents, t).Ok? && ReconciledGroup(contents, t).value.changed
    ensures var written := CompletedGroups(RewriteGroups(Lines(contents), false, t).value, t);
            && written != []
            && Lines(AppliedGroup(contents, t).value) == ReadBack(written, true)
  {
    var input := Lines(contents);
    var r := RewriteGroups(input, false, t).value;
    LinesAreSingle(contents);
    NewGroupIsGroup(t);
    GroupsMatched(input, false, t);
    forall i | 0 <= i < |r.lines|
      ensures '\n' !in r.lines[i]
    {
      GroupLineAt(input, false, t, i);
      GroupTextIsSingle(input[i], t);
    }
    LinesOfWritten(CompletedGroups(r, t), true);
  }

  lemma {:induction false} AcceptedGroups(lines: seq<string>, matched: bool, t: Target)
    ensures RewriteGroups(lines, matched, t).Ok? <==> forall i :: 0 <= i < |lines| ==> RewriteGroup(lines[i], t).Ok?
    decreases |lines|
  {
    if lines != [] {
      var rest := lines[1..];
      if RewriteGroup(lines[0], t).Ok? {
        AcceptedGroups(rest, matched || RewriteGroup(lines[0], t).value.isTarget, t);
      }
      assert forall i :: 0 < i < |lines| ==> lines[i] == rest[i - 1];
      assert forall i :: 0 <= i < |rest| ==> rest[i] == lines[i + 1];
    }
  }

  // ------------------------------------------------------------------ main results

  /**
   Line by line, as lines are read: a group of the target's gid lists the user once and
   everybody else in the old order; any other line is as it was, but for a second carriage
   return at the end of a comment or blank line.
   */
  lemma GroupLinesAreKept(contents: string, t: Target, i: nat)
    requires IsTarget(t) && AppliedGroup(contents, t).Ok? && i < |Lines(contents)|
    ensures var before, after := Lines(contents), Lines(AppliedGroup(contents, t).value);
            && |before| <= |after| <= |before| + 1
            && IsSettledGroup(after[i], t)
            && IsTargetGroup(after[i], t) == IsTargetGroup(before[i], t)
            && (IsTargetGroup(before[i], t) ==>
                  var f, g := Split(before[i], ':'), Split(after[i], ':');
                  && g[..3] == f[..3]
                  && Count(Members(g[3]), t.user) == 1
                  && Others(Members(g[3]), t.user) == Others(Members(f[3]), t.user))
            && (!IsTargetGroup(before[i], t) ==>
                  after[i] == before[i] || (IsSkipped(before[i]) && after[i] == DropCr(before[i])))
  {
    var before := Lines(contents);
    var r := RewriteGroups(before, false, t).value;
    GroupLineAt(before, false, t, i);
    GroupSettles(before[i], t);
    SettledGroupWithoutCr(r.lines[i], t);
    if IsTargetGroup(before[i], t) {
      EnrolledFields(before[i], r.lines[i], t);
    }
    if r.changed || !r.found {
      ChangedGroupLines(contents, t);
      ReadBackAt(CompletedGroups(r, t), true, i);
    } else {
      UnchangedGroup(before[i], t);
    }
  }

  lemma EnrolledFields(line: string, text: string, t: Target)
    requires IsTarget(t) && RewriteGroup(line, t).Ok? && IsTargetGroup(line, t)
    requires Split(text, ':') == Split(line, ':')[3 := MemberField(Split(line, ':')[3], t.user)]
    ensures var f, g := Split(line, ':'), Split(text, ':');
            && g[..3] == f[..3]
            && Count(Members(g[3]), t.user) == 1
            && Others(Members(g[3]), t.user) == Others(Members(f[3]), t.user)
  {
    var field := Split(line, ':')[3];
    MemberFieldSettles(field, t.user);
    EnrolledOnce(Members(field), t.user, false);
    EnrollingKeepsOthers(Members(field), t.user, false);
  }

  /** Where the gid has a group already, one application is enough. */
  lemma OneApplicationSuffices(contents: string, t: Target)
    requires IsTarget(t) && AppliedGroup(contents, t).Ok? && HasTargetGroup(Lines(contents), t)
    ensures var after := AppliedGroup(contents, t).value;
            && HasTargetGroup(Lines(after), t)
            && AppliedGroup(after, t) == Ok(after)
            && ReconciledGroup(after, t).Ok? && !ReconciledGroup(after, t).value.changed
  {
    var before, after := Lines(contents), Lines(AppliedGroup(contents, t).value);
    GroupsMatched(before, false, t);
    assert |after| == |before| by {
      AppliedLength(contents, t);
    }
    forall i | 0 <= i < |before|
      ensures IsSettledGroup(after[i], t) && IsTargetGroup(after[i], t) == IsTargetGroup(before[i], t)
    {
      GroupLinesAreKept(contents, t, i);
    }
    SettledGroupsAreUnchanged(after, false, t);
  }

  lemma AppliedLength(contents: string, t: Target)
    requires IsTarget(t) && AppliedGroup(contents, t).Ok?
    ensures |Lines(AppliedGroup(contents, t).value)| ==
            |Lines(contents)| + if HasTargetGroup(Lines(contents), t) then 0 else 1
  {
    var r := RewriteGroups(Lines(contents), false, t).value;
    GroupsMatched(Lines(contents), false, t);
    if r.changed || !r.found {
      ChangedGroupLines(contents, t);
      ReadBackAt(CompletedGroups(r, t), true, 0);
    }
  }

  lemma AppendedAtEnd(contents: string, t: Target)
    requires IsTarget(t) && AppliedGroup(contents, t).Ok? && !HasTargetGroup(Lines(contents), t)
    ensures var before, after := Lines(contents), Lines(AppliedGroup(contents, t).value);
            |after| == |before| + 1 && after[|before|] == Join(NewGroup(t), ':')
  {
    var before := Lines(contents);
    var r := RewriteGroups(before, false, t).value;
    AppliedLength(contents, t);
    GroupsMatched(before, false, t);
    ChangedGroupLines(contents, t);
    ReadBackAt(CompletedGroups(r, t), true, |before|);
    NewGroupEndsPlainly(t);
  }

  lemma KeptLineIsAccepted(contents: string, t: Target, i: nat)
    requires IsTarget(t) && AppliedGroup(contents, t).Ok? && i < |Lines(contents)|
    ensures i < |Lines(AppliedGroup(contents, t).value)| && RewriteGroup(Lines(AppliedGroup(contents, t).value)[i], t).Ok?
  {
    GroupLinesAreKept(contents, t, i);
    SettledGroupIsUnchanged(Lines(AppliedGroup(contents, t).value)[i], t);
  }

  lemma AcceptedText(text: string, t: Target)
    requires forall i :: 0 <= i < |Lines(text)| ==> RewriteGroup(Lines(text)[i], t).Ok?
    ensures AppliedGroup(text, t).Ok?
  {
    AcceptedGroups(Lines(text), false, t);
  }

  lemma NewGroupIsAccepted(line: string, t: Target)
    requires IsTarget(t) && line == Join(NewGroup(t), ':')
    ensures RewriteGroup(line, t).Ok?
  {
    NewGroupIsGroup(t);
  }

  lemma AppliedLinesAreAccepted(contents: string, t: Target, once: string, i: nat)
    requires IsTarget(t) && AppliedGroup(contents, t) == Ok(once) && !HasTargetGroup(Lines(contents), t)
    requires i < |Lines(once)|
    ensures RewriteGroup(Lines(once)[i], t).Ok?
  {
    AppendedAtEnd(contents, t);
    var line := Lines(once)[i];
    if i < |Lines(contents)| {
      KeptLineIsAccepted(contents, t, i);
      assert RewriteGroup(line, t).Ok?;
    } else {
      assert i == |Lines(contents)|;
      NewGroupIsAccepted(line, t);
    }
  }

  /** Where the gid has none, the appended group is there for the next application. */
  lemma AppendedGroupIsFound(contents: string, t: Target, once: string)
    requires IsTarget(t) && AppliedGroup(contents, t) == Ok(once) && !HasTargetGroup(Lines(contents), t)
    ensures AppliedGroup(once, t).Ok? && HasTargetGroup(Lines(once), t)
  {
    forall i | 0 <= i < |Lines(once)|
      ensures RewriteGroup(Lines(once)[i], t).Ok?
    {
      AppliedLinesAreAccepted(contents, t, once, i);
    }
    AcceptedText(once, t);
    AppendedAtEnd(contents, t);
    NewGroupIsGroup(t);
    assert IsTargetGroup(Lines(once)[|Lines(contents)|], t);
  }

  lemma NewGroupEndsPlainly(t: Target)
    requires IsTarget(t)
    ensures DropCr(Join(NewGroup(t), ':')) == Join(NewGroup(t), ':')
  {
    NewGroupIsGroup(t);
    if EndsWith(Join(NewGroup(t), ':'), '\r') {
      LastFieldEndsLine(Join(NewGroup(t), ':'), '\r');
    }
  }

  /**
   For every accepted file a second application is accepted and reaches a text that a
   third one leaves as it is.
   */
  lemma TwoApplicationsSuffice(contents: string, t: Target)
    requires IsTarget(t) && AppliedGroup(contents, t).Ok?
    ensures var once := AppliedGroup(contents, t).value;
            && AppliedGroup(once, t).Ok?
            && var twice := AppliedGroup(once, t).value;
               AppliedGroup(twice, t) == Ok(twice) && HasTargetGroup(Lines(twice), t)
  {
    var once := AppliedGroup(contents, t).value;
    if HasTargetGroup(Lines(contents), t) {
      OneApplicationSuffices(contents, t);
    } else {
      AppendedGroupIsFound(contents, t, once);
      OneApplicationSuffices(once, t);
    }
  }

  /** A second application changes the text where the first one appended a group without members. */
  lemma AppendedGroupIsEmpty(contents: string, t: Target)
    requires IsTarget(t) && AppliedGroup(contents, t).Ok? && !HasTargetGroup(Lines(contents), t)
    ensures AppliedGroup(AppliedGroup(contents, t).value, t) != AppliedGroup(contents, t)
  {
    var once := AppliedGroup(contents, t).value;
    var n := |Lines(contents)|;
    AppendedGroupIsFound(contents, t, once);
    AppendedAtEnd(contents, t);
    NewGroupIsGroup(t);
    GroupLinesAreKept(once, t, n);
    EmptyHasNoMembers(t.user);
  }

  lemma EmptyHasNoMembers(user: string)
    ensures Count(Members(""), user) == 0
  {
    assert Split("", ',') == [""];
    assert [""][1..] == [];
  }

  /** One application reaches the fixed point exactly when the gid already had a group. */
  lemma OneApplicationSufficesIff(contents: string, t: Target)
    requires IsTarget(t) && AppliedGroup(contents, t).Ok?
    ensures AppliedGroup(AppliedGroup(contents, t).value, t) == AppliedGroup(contents, t) <==>
              HasTargetGroup(Lines(contents), t)
  {
    if HasTargetGroup(Lines(contents), t) {
      OneApplicationSuffices(contents, t);
    } else {
      AppendedGroupIsEmpty(contents, t);
    }
  }

  /** For an empty file, for one, a single application is not enough. */
  lemma OneApplicationMayNotSuffice(t: Target)
    requires IsTarget(t)
    ensures AppliedGroup("", t).Ok? && AppliedGroup(AppliedGroup("", t).value, t) != AppliedGroup("", t)
  {
    assert Split("", '\n') == [""];
    assert Lines("") == [];
    OneApplicationSufficesIff("", t);
  }
}
