/**
 The account files down to their line endings: when a reconciliation touches nothing but
 the lines of the target and the line it appends.
 */
module AccountText {
  import opened Prelude
  import opened Text
  import opened TextScan
  import opened TextLines
  import opened RawText
  import opened PasswdFile
  import opened GroupFile

  // --------------------------------------------------------------------------- passwd

  /** Where the records of the user stand. */
  function TargetPlaces(contents: string, t: Target): set<nat> {
    set i: nat | i < |Lines(contents)| && IsTargetLine(Lines(contents)[i], t)
  }

  /** The new text as one would edit it by hand: rewritten or appended records, nothing else. */
  function EditedPasswd(contents: string, r: Rewrite, t: Target): string {
    if r.found then Patched(contents, r.lines, TargetPlaces(contents, t))
    else Appended(contents, Join(NewRecord(t), ':'), EndsWith(contents, '\n'))
  }

  lemma PasswdRewrites(contents: string, t: Target)
    requires IsTarget(t) && RewriteLines(Lines(contents), false, t).Ok? && Lines(contents) != []
    ensures IsRewriting(contents, RewriteLines(Lines(contents), false, t).value.lines, TargetPlaces(contents, t))
  {
    var lines := Lines(contents);
    var r := RewriteLines(lines, false, t).value;
    CompletedIsWritable(contents, t);
    RewriteLength(lines, false, t);
    forall i: nat | i < |lines|
      ensures '\n' !in r.lines[i] && (i !in TargetPlaces(contents, t) ==> r.lines[i] == lines[i])
    {
      assert r.lines[i] == Completed(r, t)[i];
      RewriteKeepsTheRest(lines, false, t, i);
    }
  }

  /**
   A rewrite of the passwd file touches no byte outside the user's record, rewritten or
   appended, if and only if no other line of it ends in CRLF.
   */
  lemma PasswdTextIsKeptIff(contents: string, t: Target)
    requires IsTarget(t) && RewriteLines(Lines(contents), false, t).Ok?
    ensures var r := RewriteLines(Lines(contents), false, t).value;
            && ReconciledPasswd(contents, t).Ok?
            && (ReconciledPasswd(contents, t).value.contents == EditedPasswd(contents, r, t) <==>
                  NoCrLfOutside(contents, TargetPlaces(contents, t)))
  {
    var lines := Lines(contents);
    var r := RewriteLines(lines, false, t).value;
    if r.found {
      FoundIsSeen(lines, false, t);
      PasswdRewrites(contents, t);
      RewritingPatchesIff(contents, r.lines, TargetPlaces(contents, t));
    } else {
      UnfoundIsUnseen(contents, t);
      AppendingIsExactIff(contents, Join(NewRecord(t), ':'), EndsWith(contents, '\n'));
      HasCrLfIff(contents);
    }
  }

  lemma {:induction false} UnfoundHasNoTarget(lines: seq<string>, found: bool, t: Target)
    requires IsTarget(t) && RewriteLines(lines, found, t).Ok? && !RewriteLines(lines, found, t).value.found
    ensures !found && RewriteLines(lines, found, t).value.lines == lines
    ensures forall i :: 0 <= i < |lines| ==> !IsTargetLine(lines[i], t)
    decreases |lines|
  {
    if lines != [] {
      LineSettles(lines[0], found, t);
      UnfoundHasNoTarget(lines[1..], found || IsTargetLine(lines[0], t), t);
      assert [lines[0]] + lines[1..] == lines;
    }
  }

  lemma UnfoundIsUnseen(contents: string, t: Target)
    requires IsTarget(t) && RewriteLines(Lines(contents), false, t).Ok?
    requires !RewriteLines(Lines(contents), false, t).value.found
    ensures TargetPlaces(contents, t) == {}
    ensures RewriteLines(Lines(contents), false, t).value.lines == Lines(contents)
  {
    UnfoundHasNoTarget(Lines(contents), false, t);
  }

  /** Where the user had no record, the file is appended to exactly when it holds no CRLF at all. */
  lemma PasswdIsAppendedToIff(contents: string, t: Target)
    requires IsTarget(t) && Applied(contents, t).Ok?
    requires forall i :: 0 <= i < |Lines(contents)| ==> !IsTargetLine(Lines(contents)[i], t)
    ensures Applied(contents, t).value == Appended(contents, Join(NewRecord(t), ':'), EndsWith(contents, '\n')) <==>
              !HasCrLf(contents)
  {
    var r := RewriteLines(Lines(contents), false, t).value;
    assert !r.found by {
      if r.found {
        FoundIsSeen(Lines(contents), false, t);
      }
    }
    PasswdTextIsKeptIff(contents, t);
    HasCrLfIff(contents);
    assert TargetPlaces(contents, t) == {};
  }

  /** Any other raw line is kept by a rewrite exactly when it does not end in CRLF. */
  lemma PasswdRawLineIsKeptIff(contents: string, t: Target, i: nat)
    requires IsTarget(t) && ReconciledPasswd(contents, t).Ok? && ReconciledPasswd(contents, t).value.changed
    requires i < |Lines(contents)| && !IsTargetLine(Lines(contents)[i], t)
    ensures var after := Applied(contents, t).value;
            && i < |Raw(contents)| && i < |Raw(after)|
            && (Raw(after)[i] == Raw(contents)[i] <==> !EndsInCrLf(contents, i))
            && Raw(after)[i] == Lines(contents)[i]
  {
    var lines, terminated := Lines(contents), EndsWith(contents, '\n');
    var r := RewriteLines(lines, false, t).value;
    CompletedIsWritable(contents, t);
    RawOfWritten(Completed(r, t), terminated);
    RewriteLength(lines, false, t);
    RewriteKeepsTheRest(lines, false, t, i);
    LineIsRaw(contents, i);
    assert Completed(r, t)[i] == r.lines[i];
  }

  /** A CRLF file with a record of somebody else loses its carriage return. */
  lemma PasswdLosesCr(line: string, t: Target)
    requires IsTarget(t) && '\n' !in line && !IsSkipped(line) && IsSettledLine(line, t) && !IsTargetLine(line, t)
    ensures var contents := line + "\r\n";
            Applied(contents, t).Ok? && !(contents <= Applied(contents, t).value)
  {
    var contents := line + "\r\n";
    SettledWithoutCr(line, t);
    CrLfLine(contents, line);
    SettledLineIsUnchanged(line, false, t);
    assert RewriteLines([], false, t) == Ok(Rewrite([], false, false));
    assert Lines(contents)[1..] == [];
    PasswdRawLineIsKeptIff(contents, t, 0);
    if contents <= Applied(contents, t).value {
      PrefixSharesFirst(contents, Applied(contents, t).value);
    }
  }

  lemma CrLfLine(contents: string, line: string)
    requires contents == line + "\r\n" && '\n' !in line && !EndsWith(line, '\r')
    ensures Raw(contents) == [line + "\r", ""] && Lines(contents) == [line] && EndsInCrLf(contents, 0)
  {
    var pieces := [line + "\r", ""];
    assert pieces[1..] == [""];
    assert Join(pieces, '\n') == line + "\r" + ['\n'] + "";
    assert contents == Join(pieces, '\n');
    RawOfJoin(pieces);
    assert DropCr(line + "\r") == line;
    assert FromPieces([""]) == [];
  }

  /** A text that begins with a terminated one begins with its first raw line. */
  lemma PrefixSharesFirst(s: string, longer: string)
    requires s <= longer && |Raw(s)| > 1
    ensures Raw(longer)[0] == Raw(s)[0]
  {
    RawIsSingle(s);
    var head, tail := Raw(s)[0], Join(Raw(s)[1..], '\n');
    assert s == head + ['\n'] + tail;
    var rest := tail + longer[|s|..];
    assert longer == head + ['\n'] + rest;
    SplitPrepend(head, rest, '\n');
  }

  // ---------------------------------------------------------------------------- group

  /** Where the groups of the gid stand. */
  function GroupPlaces(contents: string, t: Target): set<nat> {
    set i: nat | i < |Lines(contents)| && IsTargetGroup(Lines(contents)[i], t)
  }

  /** The new text as one would edit it by hand; a rewritten file always ends in a newline. */
  function EditedGroup(contents: string, r: Rewrite, t: Target): string {
    if r.found then Patched(contents, r.lines, GroupPlaces(contents, t)) + if EndsWith(contents, '\n') then "" else "\n"
    else Appended(contents, Join(NewGroup(t), ':'), true)
  }

  lemma GroupRewrites(contents: string, t: Target)
    requires IsTarget(t) && RewriteGroups(Lines(contents), false, t).Ok? && Lines(contents) != []
    ensures IsRewriting(contents, RewriteGroups(Lines(contents), false, t).value.lines, GroupPlaces(contents, t))
  {
    var lines := Lines(contents);
    var r := RewriteGroups(lines, false, t).value;
    LinesAreSingle(contents);
    GroupsMatched(lines, false, t);
    forall i: nat | i < |lines|
      ensures '\n' !in r.lines[i] && (i !in GroupPlaces(contents, t) ==> r.lines[i] == lines[i])
    {
      GroupLineAt(lines, false, t, i);
      GroupSettles(lines[i], t);
      GroupTextIsSingle(lines[i], t);
    }
  }

  /**
   A rewrite of the group file touches no byte outside the groups of the gid, rewritten
   or appended, but for a newline at its end, if and only if no other line ends in CRLF.
   */
  lemma GroupTextIsKeptIff(contents: string, t: Target)
    requires IsTarget(t) && ReconciledGroup(contents, t).Ok? && ReconciledGroup(contents, t).value.changed
    ensures var r := RewriteGroups(Lines(contents), false, t).value;
            && (AppliedGroup(contents, t) == Ok(EditedGroup(contents, r, t)) <==> NoCrLfOutside(contents, GroupPlaces(contents, t)))
            && EndsWith(AppliedGroup(contents, t).value, '\n')
  {
    var lines := Lines(contents);
    var r := RewriteGroups(lines, false, t).value;
    GroupsMatched(lines, false, t);
    if r.found {
      GroupRewrites(contents, t);
      MatchedTextIsKeptIff(contents, r.lines, GroupPlaces(contents, t));
    } else {
      UnmatchedIsUnchanged(contents, t);
      AppendingIsExactIff(contents, Join(NewGroup(t), ':'), true);
      HasCrLfIff(contents);
    }
  }

  /** The newline at the end of a rewritten file is the only other thing added. */
  lemma MatchedTextIsKeptIff(s: string, lines: seq<string>, places: set<nat>)
    requires IsRewriting(s, lines, places)
    ensures Written(lines, true) == Patched(s, lines, places) + (if EndsWith(s, '\n') then "" else "\n") <==>
              NoCrLfOutside(s, places)
  {
    RewritingPatchesIff(s, lines, places);
    if EndsWith(s, '\n') {
      assert Patched(s, lines, places) + "" == Patched(s, lines, places);
    } else {
      assert Written(lines, true) == Written(lines, false) + "\n";
      SameSuffix(Written(lines, false), Patched(s, lines, places), "\n");
    }
  }

  lemma UnmatchedIsUnchanged(contents: string, t: Target)
    requires IsTarget(t) && RewriteGroups(Lines(contents), false, t).Ok?
    requires !RewriteGroups(Lines(contents), false, t).value.found
    ensures GroupPlaces(contents, t) == {}
    ensures RewriteGroups(Lines(contents), false, t).value.lines == Lines(contents)
  {
    var lines := Lines(contents);
    GroupsMatched(lines, false, t);
    forall i | 0 <= i < |lines|
      ensures !IsTargetGroup(lines[i], t)
      ensures |RewriteGroups(lines, false, t).value.lines| == |lines|
      ensures RewriteGroups(lines, false, t).value.lines[i] == lines[i]
    {
      GroupLineAt(lines, false, t, i);
      GroupSettles(lines[i], t);
    }
  }

  /** Any other raw line is kept by a rewrite exactly when it does not end in CRLF. */
  lemma GroupRawLineIsKeptIff(contents: string, t: Target, i: nat)
    requires IsTarget(t) && ReconciledGroup(contents, t).Ok? && ReconciledGroup(contents, t).value.changed
    requires i < |Lines(contents)| && !IsTargetGroup(Lines(contents)[i], t)
    ensures var after := AppliedGroup(contents, t).value;
            && i < |Raw(contents)| && i < |Raw(after)|
            && (Raw(after)[i] == Raw(contents)[i] <==> !EndsInCrLf(contents, i))
            && Raw(after)[i] == Lines(contents)[i]
  {
    var r := RewriteGroups(Lines(contents), false, t).value;
    CompletedGroupsKeep(contents, t, i);
    RawOfWritten(CompletedGroups(r, t), true);
    LineIsRaw(contents, i);
  }

  lemma CompletedGroupsKeep(contents: string, t: Target, i: nat)
    requires IsTarget(t) && RewriteGroups(Lines(contents), false, t).Ok?
    requires i < |Lines(contents)| && !IsTargetGroup(Lines(contents)[i], t)
    ensures var lines := CompletedGroups(RewriteGroups(Lines(contents), false, t).value, t);
            i < |lines| && HasNoNewline(lines) && lines[i] == Lines(contents)[i]
  {
    GroupRewrites(contents, t);
    NewGroupIsSingle(t);
  }

  lemma NewGroupIsSingle(t: Target)
    requires IsTarget(t)
    ensures '\n' !in Join(NewGroup(t), ':')
  {
    NewGroupIsGroup(t);
  }

  /** A CRLF file with a group of another gid loses its carriage return. */
  lemma GroupLosesCr(line: string, t: Target)
    requires IsTarget(t) && '\n' !in line && !IsSkipped(line) && IsSettledGroup(line, t) && !IsTargetGroup(line, t)
    ensures var contents := line + "\r\n";
            AppliedGroup(contents, t).Ok? && !(contents <= AppliedGroup(contents, t).value)
  {
    var contents := line + "\r\n";
    SettledGroupWithoutCr(line, t);
    CrLfLine(contents, line);
    SettledGroupsAreUnchanged([line], false, t);
    GroupRawLineIsKeptIff(contents, t, 0);
    if contents <= AppliedGroup(contents, t).value {
      PrefixSharesFirst(contents, AppliedGroup(contents, t).value);
    }
  }

  // ------------------------------------------------------------------- concrete files

  /** A passwd file of one CRLF record: a reconciliation for anybody else drops its carriage return. */
  lemma CrLfPasswdIsRewritten(t: Target)
    requires IsTarget(t) && t.user != "a" && t.uid != 1
    ensures var contents := Join(["a", "x", "1", "1", "", "/", "/"], ':') + "\r\n";
            Applied(contents, t).Ok? && !(contents <= Applied(contents, t).value)
  {
    var f := ["a", "x", "1", "1", "", "/", "/"];
    assert "1"[..0] == "";
    assert ParseU32("1") == Some(1);
    assert IsRecord(f) && HasNoColon(f) && HasNoNewline(f);
    RecordIsNotSkipped(f);
    SplitOfRecord(f);
    JoinIsPlain(f);
    PasswdLosesCr(Join(f, ':'), t);
  }
}
