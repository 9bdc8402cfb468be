/** Lines of a text as `str::lines` reads them, and texts written line by line. */
module TextLines {
  import opened Prelude
  import opened Text
  import opened TextScan

  predicate EndsWith(s: string, c: char) {
    s != "" && s[|s| - 1] == c
  }

  /** A line without the carriage return of a CRLF ending. */
  function DropCr(line: string): string {
    if EndsWith(line, '\r') then line[..|line| - 1] else line
  }

  /** All pieces but the last were ended by a newline; an empty last piece is no line. */
  function FromPieces(pieces: seq<string>): seq<string>
    requires pieces != []
  {
    if |pieces| == 1 then (if pieces[0] == "" then [] else pieces)
    else [DropCr(pieces[0])] + FromPieces(pieces[1..])
  }

  function Lines(s: string): seq<string> {
    FromPieces(Split(s, '\n'))
  }

  /** Lines joined by newlines, with or without one at the end. */
  function Written(lines: seq<string>, terminated: bool): string {
    Join(lines, '\n') + if terminated then "\n" else ""
  }

  /** Every line but an unterminated last one loses a carriage return when it is read. */
  function ReadBack(lines: seq<string>, terminated: bool): seq<string>
    requires lines != []
  {
    if |lines| == 1 then [if terminated then DropCr(lines[0]) else lines[0]]
    else [DropCr(lines[0])] + ReadBack(lines[1..], terminated)
  }

  predicate HasNoNewline(lines: seq<string>) {
    forall i :: 0 <= i < |lines| ==> '\n' !in lines[i]
  }

  lemma {:induction false} LinesHaveNoNewline(pieces: seq<string>)
    requires pieces != [] && forall p :: p in pieces ==> '\n' !in p
    ensures HasNoNewline(FromPieces(pieces))
    decreases |pieces|
  {
    assert pieces[0] in pieces;
    if |pieces| > 1 {
      assert forall p :: p in pieces[1..] ==> p in pieces;
      LinesHaveNoNewline(pieces[1..]);
    }
  }

  lemma LinesAreSingle(s: string)
    ensures HasNoNewline(Lines(s))
  {
    SplitHasNoSeparator(s, '\n');
    LinesHaveNoNewline(Split(s, '\n'));
  }

  lemma {:induction false} JoinWithEnd(lines: seq<string>)
    requires lines != []
    ensures Join(lines + [""], '\n') == Join(lines, '\n') + "\n"
    decreases |lines|
  {
    var longer := lines + [""];
    if |lines| == 1 {
      assert longer[1..] == [""];
    } else {
      assert longer[0] == lines[0] && longer[1..] == lines[1..] + [""];
      JoinWithEnd(lines[1..]);
    }
  }

  lemma {:induction false} PiecesReadBack(lines: seq<string>, terminated: bool)
    requires lines != [] && (terminated || lines[|lines| - 1] != "")
    ensures FromPieces(if terminated then lines + [""] else lines) == ReadBack(lines, terminated)
    decreases |lines|
  {
    if |lines| == 1 {
      assert (lines + [""])[1..] == [""];
    } else {
      assert (lines + [""])[1..] == lines[1..] + [""];
      PiecesReadBack(lines[1..], terminated);
    }
  }

  /** Reading what was written gives the lines back, up to carriage returns at line ends. */
  lemma LinesOfWritten(lines: seq<string>, terminated: bool)
    requires lines != [] && HasNoNewline(lines) && (terminated || lines[|lines| - 1] != "")
    ensures Lines(Written(lines, terminated)) == ReadBack(lines, terminated)
  {
    var pieces := if terminated then lines + [""] else lines;
    if terminated {
      JoinWithEnd(lines);
    }
    assert Written(lines, terminated) == Join(pieces, '\n');
    forall p | p in pieces
      ensures '\n' !in p
    {
      assert p == "" || p in lines;
    }
    SplitOfJoin(pieces, '\n');
    PiecesReadBack(lines, terminated);
  }

  lemma {:induction false} ReadBackAt(lines: seq<string>, terminated: bool, i: nat)
    requires i < |lines|
    ensures |ReadBack(lines, terminated)| == |lines|
    ensures ReadBack(lines, terminated)[i] == if terminated || i < |lines| - 1 then DropCr(lines[i]) else lines[i]
    decreases |lines|
  {
    if |lines| > 1 {
      ReadBackAt(lines[1..], terminated, if i == 0 then 0 else i - 1);
    }
  }

  /** A text that does not end in a newline has a last line, and that line is not empty. */
  lemma {:induction false} LastPieceIsLine(pieces: seq<string>)
    requires pieces != [] && FromPieces(pieces) != []
    ensures pieces[|pieces| - 1] != "" ==> FromPieces(pieces)[|FromPieces(pieces)| - 1] == pieces[|pieces| - 1]
    decreases |pieces|
  {
    if |pieces| > 1 && pieces[|pieces| - 1] != "" {
      PiecesEndInLine(pieces[1..]);
      LastPieceIsLine(pieces[1..]);
    }
  }

  lemma {:induction false} PiecesEndInLine(pieces: seq<string>)
    requires pieces != [] && pieces[|pieces| - 1] != ""
    ensures FromPieces(pieces) != []
    decreases |pieces|
  {
  }

  lemma {:induction false} LastPieceOfUnterminated(s: string)
    requires s != "" && !EndsWith(s, '\n')
    ensures Split(s, '\n')[|Split(s, '\n')| - 1] != ""
    decreases |s|
  {
    if |s| > 1 {
      LastPieceOfUnterminated(s[1..]);
    }
  }

  lemma UnterminatedLastLine(s: string)
    requires Lines(s) != [] && !EndsWith(s, '\n')
    ensures Lines(s)[|Lines(s)| - 1] != ""
  {
    if s != "" {
      LastPieceOfUnterminated(s);
      LastPieceIsLine(Split(s, '\n'));
    }
  }

  /** A comment line or a blank one. */
  predicate IsSkipped(line: string) {
    (line != "" && line[0] == '#') || Trim(line) == ""
  }

  lemma SkippedWithoutCr(line: string)
    requires IsSkipped(line)
    ensures IsSkipped(DropCr(line))
  {
    TrimEmptyIffBlank(line);
    TrimEmptyIffBlank(DropCr(line));
  }
}
