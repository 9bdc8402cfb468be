/**
 Texts down to their line endings: what is lost between reading a text line by line and
 writing the lines again. `str::lines` drops the carriage return of every CRLF.
 */
module RawText {
  import opened Prelude
  import opened TextScan
  import opened TextLines

  /** The text between the newlines, carriage returns included. */
  function Raw(s: string): (r: seq<string>)
    ensures r != []
  {
    Split(s, '\n')
  }

  predicate HasCrLf(s: string) {
    exists i :: 0 <= i < |s| - 1 && s[i] == '\r' && s[i + 1] == '\n'
  }

  /** The line at `i` is ended by a carriage return and a newline. */
  predicate EndsInCrLf(s: string, i: nat) {
    i < |Raw(s)| - 1 && EndsWith(Raw(s)[i], '\r')
  }

  // ------------------------------------------------------------------ texts and pieces

  lemma RawIsSingle(s: string)
    ensures HasNoNewline(Raw(s)) && Join(Raw(s), '\n') == s
  {
    SplitHasNoSeparator(s, '\n');
    JoinOfSplit(s, '\n');
  }

  lemma RawOfJoin(pieces: seq<string>)
    requires pieces != [] && HasNoNewline(pieces)
    ensures Raw(Join(pieces, '\n')) == pieces
  {
    SplitOfJoin(pieces, '\n');
  }

  lemma RawOfWritten(lines: seq<string>, terminated: bool)
    requires lines != [] && HasNoNewline(lines)
    ensures Raw(Written(lines, terminated)) == lines + if terminated then [""] else []
  {
    if terminated {
      JoinWithEnd(lines);
      assert Written(lines, terminated) == Join(lines + [""], '\n');
      RawOfJoin(lines + [""]);
    } else {
      assert Written(lines, terminated) == Join(lines, '\n') && lines + [] == lines;
      RawOfJoin(lines);
    }
  }

  /** Only the empty text and a terminated one end in an empty piece. */
  lemma {:induction false} LastPieceIsEmptyIff(s: string)
    ensures Raw(s)[|Raw(s)| - 1] == "" <==> s == "" || EndsWith(s, '\n')
    ensures |Raw(s)| == 1 ==> !EndsWith(s, '\n')
    decreases |s|
  {
    if |s| > 1 {
      LastPieceIsEmptyIff(s[1..]);
    } else if |s| == 1 {
      assert s[1..] == "" && Split("", '\n') == [""];
      if s[0] != '\n' {
        SplitOfPlain(s, '\n');
      }
    }
  }

  lemma {:induction false} FromPiecesAt(pieces: seq<string>, i: nat)
    requires pieces != []
    ensures |FromPieces(pieces)| == |pieces| - if pieces[|pieces| - 1] == "" then 1 else 0
    ensures i < |FromPieces(pieces)| ==>
              FromPieces(pieces)[i] == if i < |pieces| - 1 then DropCr(pieces[i]) else pieces[i]
    decreases |pieces|
  {
    if |pieces| > 1 {
      FromPiecesAt(pieces[1..], if i == 0 then 0 else i - 1);
    }
  }

  /** A line is its raw text, without the carriage return if a newline follows. */
  lemma LineIsRaw(s: string, i: nat)
    ensures |Lines(s)| == |Raw(s)| - if s == "" || EndsWith(s, '\n') then 1 else 0
    ensures i < |Lines(s)| ==> Lines(s)[i] == if i < |Raw(s)| - 1 then DropCr(Raw(s)[i]) else Raw(s)[i]
    ensures i < |Lines(s)| ==> (Lines(s)[i] == Raw(s)[i] <==> !EndsInCrLf(s, i))
  {
    LastPieceIsEmptyIff(s);
    FromPiecesAt(Raw(s), i);
  }

  // --------------------------------------------------------------------- the condition

  lemma CrLfAtJoint(head: string, tail: string)
    requires '\n' !in head
    ensures HasCrLf(head + ['\n'] + tail) <==> EndsWith(head, '\r') || HasCrLf(tail)
  {
    var s := head + ['\n'] + tail;
    if EndsWith(head, '\r') {
      assert s[|head| - 1] == '\r' && s[|head| - 1 + 1] == '\n';
    }
    if i :| 0 <= i < |tail| - 1 && tail[i] == '\r' && tail[i + 1] == '\n' {
      assert s[|head| + 1 + i] == '\r' && s[|head| + 1 + i + 1] == '\n';
    }
    if i :| 0 <= i < |s| - 1 && s[i] == '\r' && s[i + 1] == '\n' {
      CrLfPlace(head, tail, i);
    }
  }

  lemma CrLfPlace(head: string, tail: string, i: nat)
    requires '\n' !in head
    requires var s := head + ['\n'] + tail; i < |s| - 1 && s[i] == '\r' && s[i + 1] == '\n'
    ensures EndsWith(head, '\r') || HasCrLf(tail)
  {
    var s := head + ['\n'] + tail;
    assert i + 1 >= |head|;
    if i > |head| {
      var k := i - |head| - 1;
      assert tail[k] == s[i] && tail[k + 1] == s[i + 1];
    } else {
      assert i != |head|;
    }
  }

  lemma {:induction false} CrLfOfJoin(pieces: seq<string>)
    requires pieces != [] && HasNoNewline(pieces)
    ensures HasCrLf(Join(pieces, '\n')) <==> exists i :: 0 <= i < |pieces| - 1 && EndsWith(pieces[i], '\r')
    decreases |pieces|
  {
    if |pieces| == 1 {
      assert forall i :: 0 <= i < |pieces[0]| ==> pieces[0][i] != '\n';
    } else {
      var rest := pieces[1..];
      CrLfOfJoin(rest);
      CrLfAtJoint(pieces[0], Join(rest, '\n'));
      assert forall i :: 0 < i < |pieces| ==> pieces[i] == rest[i - 1];
      assert forall i :: 0 <= i < |rest| ==> rest[i] == pieces[i + 1];
    }
  }

  /** A text holds a CRLF exactly when one of its lines ends in it. */
  lemma HasCrLfIff(s: string)
    ensures HasCrLf(s) <==> exists i: nat :: EndsInCrLf(s, i)
  {
    RawIsSingle(s);
    CrLfOfJoin(Raw(s));
    if i :| 0 <= i < |Raw(s)| - 1 && EndsWith(Raw(s)[i], '\r') {
      assert EndsInCrLf(s, i);
    }
  }

  // ------------------------------------------------------------------- rewriting lines

  /** The text with the lines at the given places replaced, and nothing else touched. */
  function Patched(s: string, lines: seq<string>, places: set<nat>): string {
    Join(PatchedRaw(s, lines, places), '\n')
  }

  function PatchedRaw(s: string, lines: seq<string>, places: set<nat>): seq<string> {
    seq(|Raw(s)|, i requires 0 <= i < |Raw(s)| => if i in places && i < |lines| then lines[i] else Raw(s)[i])
  }

  /** No line outside the given places ends in CRLF. */
  ghost predicate NoCrLfOutside(s: string, places: set<nat>) {
    forall i: nat :: EndsInCrLf(s, i) ==> i in places
  }

  /** Only the lines at the given places were rewritten. */
  predicate IsRewriting(s: string, lines: seq<string>, places: set<nat>) {
    && lines != [] && |lines| == |Lines(s)| && HasNoNewline(lines)
    && forall i :: 0 <= i < |lines| && i !in places ==> lines[i] == Lines(s)[i]
  }

  /** The raw line at a place that was not rewritten is kept exactly when it does not end in CRLF. */
  lemma RawLineIsKeptIff(s: string, lines: seq<string>, places: set<nat>, terminated: bool, i: nat)
    requires IsRewriting(s, lines, places) && i < |lines| && i !in places
    ensures i < |Raw(Written(lines, terminated))| && i < |Raw(s)|
    ensures Raw(Written(lines, terminated))[i] == Raw(s)[i] <==> !EndsInCrLf(s, i)
  {
    RawOfWritten(lines, terminated);
    LineIsRaw(s, i);
  }

  /**
   Writing rewritten lines touches nothing else of the text if and only if no other line
   ends in CRLF.
   */
  lemma RewritingPatchesIff(s: string, lines: seq<string>, places: set<nat>)
    requires IsRewriting(s, lines, places)
    ensures Written(lines, EndsWith(s, '\n')) == Patched(s, lines, places) <==> NoCrLfOutside(s, places)
  {
    var terminated := EndsWith(s, '\n');
    var written, patched := Raw(Written(lines, terminated)), PatchedRaw(s, lines, places);
    RawOfWritten(lines, terminated);
    PatchedIsSingle(s, lines, places);
    RawOfJoin(patched);
    LineIsRaw(s, 0);
    assert |written| == |patched|;
    forall i: nat | i < |written|
      ensures written[i] == patched[i] <==> i in places || !EndsInCrLf(s, i)
    {
      PieceIsPatched(s, lines, places, terminated, i);
    }
    SameRaw(Written(lines, terminated), Patched(s, lines, places));
  }

  /** Texts are equal exactly when their pieces are. */
  lemma SameRaw(a: string, b: string)
    ensures a == b <==> Raw(a) == Raw(b)
  {
    RawIsSingle(a);
    RawIsSingle(b);
  }

  lemma PatchedIsSingle(s: string, lines: seq<string>, places: set<nat>)
    requires HasNoNewline(lines)
    ensures HasNoNewline(PatchedRaw(s, lines, places)) && PatchedRaw(s, lines, places) != []
  {
    RawIsSingle(s);
  }

  lemma PieceIsPatched(s: string, lines: seq<string>, places: set<nat>, terminated: bool, i: nat)
    requires IsRewriting(s, lines, places) && terminated == EndsWith(s, '\n')
    requires i < |Raw(Written(lines, terminated))| && i < |Raw(s)|
    ensures Raw(Written(lines, terminated))[i] == PatchedRaw(s, lines, places)[i] <==> i in places || !EndsInCrLf(s, i)
  {
    RawOfWritten(lines, terminated);
    LineIsRaw(s, i);
    if i < |lines| {
      if i !in places {
        RawLineIsKeptIff(s, lines, places, terminated, i);
      }
    } else {
      LastPieceIsEmptyIff(s);
    }
  }

  /** Reading a text and writing its lines again gives the text back if and only if it holds no CRLF. */
  lemma WrittenOfLinesIff(s: string)
    ensures Written(Lines(s), EndsWith(s, '\n')) == s <==> !HasCrLf(s)
  {
    HasCrLfIff(s);
    if s == "" {
      assert Split("", '\n') == [""];
      assert Lines(s) == [];
    } else {
      LineIsRaw(s, 0);
      LinesAreSingle(s);
      LastPieceIsEmptyIff(s);
      RewritingPatchesIff(s, Lines(s), {});
      assert PatchedRaw(s, Lines(s), {}) == Raw(s);
      RawIsSingle(s);
    }
  }

  // -------------------------------------------------------------------- appending a line

  /** The text, a newline if it lacks one, and one more line. */
  function Appended(s: string, line: string, terminated: bool): string {
    s + (if s == "" || EndsWith(s, '\n') then "" else "\n") + (line + if terminated then "\n" else "")
  }

  lemma {:induction false} JoinOneMore(lines: seq<string>, line: string)
    requires lines != []
    ensures Join(lines + [line], '\n') == Join(lines, '\n') + "\n" + line
    decreases |lines|
  {
    var longer := lines + [line];
    if |lines| == 1 {
      assert longer[1..] == [line];
    } else {
      assert longer[0] == lines[0] && longer[1..] == lines[1..] + [line];
      JoinOneMore(lines[1..], line);
    }
  }

  lemma SameSuffix(a: string, b: string, suffix: string)
    ensures a + suffix == b + suffix <==> a == b
  {
    if a + suffix == b + suffix {
      assert a == (a + suffix)[..|a|] && b == (b + suffix)[..|b|];
    }
  }

  /** Writing the lines with one more at the end appends to the text if and only if it holds no CRLF. */
  lemma AppendingIsExactIff(s: string, line: string, terminated: bool)
    ensures Written(Lines(s) + [line], terminated) == Appended(s, line, terminated) <==> !HasCrLf(s)
  {
    WrittenOfLinesIff(s);
    var end := line + if terminated then "\n" else "";
    if s == "" {
      assert Split("", '\n') == [""];
      assert Lines(s) == [] && Lines(s) + [line] == [line];
    } else {
      LineIsRaw(s, 0);
      LastPieceIsEmptyIff(s);
      var again := Written(Lines(s), EndsWith(s, '\n'));
      var separator := if EndsWith(s, '\n') then "" else "\n";
      WrittenWithOneMore(Lines(s), EndsWith(s, '\n'), line, terminated);
      AppendAssociates(s, separator, end);
      AppendAssociates(again, separator, end);
      SameSuffix(again, s, separator + end);
    }
  }

  lemma WrittenWithOneMore(lines: seq<string>, before: bool, line: string, terminated: bool)
    requires lines != []
    ensures Written(lines + [line], terminated)
         == Written(lines, before) + (if before then "" else "\n") + (line + if terminated then "\n" else "")
  {
    JoinOneMore(lines, line);
    assert Written(lines, before) + (if before then "" else "\n") == Join(lines, '\n') + "\n";
    AppendAssociates(Join(lines, '\n') + "\n", line, if terminated then "\n" else "");
  }
}
