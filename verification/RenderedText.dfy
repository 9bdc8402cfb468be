/**
 What rendering makes of a template, said over its text: literal pieces stay in place and
 every reference between them is replaced by its value.
 */
module RenderedText {
  import opened Prelude
  import opened TextScan
  import opened PathTemplates

  /** A literal piece, then the name of the reference that follows it. */
  type Piece = (string, string)

  /** No `${` in the text. */
  predicate IsLiteral(s: string) {
    forall i :: 0 <= i < |s| - 1 ==> !(s[i] == '$' && s[i + 1] == '{')
  }

  predicate ArePieces(pieces: seq<Piece>) {
    forall i :: 0 <= i < |pieces| ==> IsLiteral(pieces[i].0) && '}' !in pieces[i].1
  }

  /** Literal text, then a `${` that is never closed. */
  predicate IsDangling(s: string) {
    exists i :: 0 <= i < |s| && DanglesAt(s, i)
  }

  predicate DanglesAt(s: string, i: nat) {
    i < |s| - 1 && s[i] == '$' && s[i + 1] == '{' && IsLiteral(s[..i]) && '}' !in s[i + 2..]
  }

  function TemplateText(pieces: seq<Piece>, last: string): string {
    if pieces == [] then last
    else pieces[0].0 + "${" + pieces[0].1 + "}" + TemplateText(pieces[1..], last)
  }

  predicate HaveValues(pieces: seq<Piece>, values: map<string, string>) {
    forall i :: 0 <= i < |pieces| ==> pieces[i].1 in values
  }

  function FilledText(pieces: seq<Piece>, last: string, values: map<string, string>): string
    requires HaveValues(pieces, values)
  {
    if pieces == [] then last
    else pieces[0].0 + values[pieces[0].1] + FilledText(pieces[1..], last, values)
  }

  // -------------------------------------------------------------- finding the marks

  lemma {:induction false} LiteralIff(s: string)
    ensures IsLiteral(s) <==> SplitOnce(s, "${").None?
    decreases |s|
  {
    if "${" <= s {
      assert s[0] == '$' && s[0 + 1] == '{';
    } else if s != "" {
      LiteralIff(s[1..]);
      LiteralTail(s);
    }
  }

  lemma LiteralTail(s: string)
    requires s != "" && !("${" <= s)
    ensures IsLiteral(s) <==> IsLiteral(s[1..])
  {
    assert |s| > 1 ==> !(s[0] == '$' && s[1] == '{');
    var t := s[1..];
    if IsLiteral(t) {
      forall i | 0 <= i < |s| - 1
        ensures !(s[i] == '$' && s[i + 1] == '{')
      {
        if i > 0 {
          assert s[i] == t[i - 1] && s[i + 1] == t[i - 1 + 1];
        }
      }
    }
    if IsLiteral(s) {
      forall i | 0 <= i < |t| - 1
        ensures !(t[i] == '$' && t[i + 1] == '{')
      {
        assert t[i] == s[i + 1] && t[i + 1] == s[i + 1 + 1];
      }
    }
  }

  /** The first `${` is the one after the literal text. */
  lemma {:induction false} SplitsAfterLiteral(before: string, rest: string)
    requires IsLiteral(before)
    ensures SplitOnce(before + "${" + rest, "${") == Some((before, rest))
    decreases |before|
  {
    var s := before + "${" + rest;
    if before != "" {
      assert s[1..] == before[1..] + "${" + rest;
      assert |before| > 1 ==> !(before[0] == '$' && before[0 + 1] == '{');
      assert |before| == 1 ==> s[1] == '$';
      LiteralTail(before);
      SplitsAfterLiteral(before[1..], rest);
      assert [before[0]] + before[1..] == before;
    }
  }

  lemma {:induction false} SplitsAtBrace(name: string, rest: string)
    requires '}' !in name
    ensures SplitOnce(name + "}" + rest, "}") == Some((name, rest))
    decreases |name|
  {
    var s := name + "}" + rest;
    if name != "" {
      assert s[0] == name[0] && s[1..] == name[1..] + "}" + rest;
      SplitsAtBrace(name[1..], rest);
      assert [name[0]] + name[1..] == name;
    }
  }

  lemma {:induction false} BraceIff(s: string)
    ensures '}' !in s <==> SplitOnce(s, "}").None?
    decreases |s|
  {
    if "}" <= s {
      assert s[0] == '}';
    } else if s != "" {
      BraceIff(s[1..]);
      assert s == [s[0]] + s[1..];
    }
  }

  /** What stands before a mark does not hold it. */
  lemma {:induction false} BeforeIsLiteral(s: string)
    requires SplitOnce(s, "${").Some?
    ensures IsLiteral(SplitOnce(s, "${").value.0)
    decreases |s|
  {
    if !("${" <= s) {
      BeforeIsLiteral(s[1..]);
      var before := SplitOnce(s[1..], "${").value.0;
      SplitOnceJoins(s[1..], "${");
      var longer := [s[0]] + before;
      assert before != "" ==> before[0] == s[1];
      assert !("${" <= longer);
      assert longer[1..] == before;
      LiteralTail(longer);
    }
  }

  lemma {:induction false} NameHasNoBrace(s: string)
    requires SplitOnce(s, "}").Some?
    ensures '}' !in SplitOnce(s, "}").value.0
    decreases |s|
  {
    if !("}" <= s) {
      NameHasNoBrace(s[1..]);
    }
  }

  // ------------------------------------------------------------- filling in values

  lemma LexOfPiece(piece: Piece, rest: string)
    requires IsLiteral(piece.0) && '}' !in piece.1
    ensures Lex(piece.0 + "${" + piece.1 + "}" + rest) == Reference(piece.0, piece.1, Lex(rest))
  {
    var after := piece.1 + "}" + rest;
    assert piece.0 + "${" + piece.1 + "}" + rest == piece.0 + "${" + after;
    SplitsAfterLiteral(piece.0, after);
    SplitsAtBrace(piece.1, rest);
  }

  lemma LexOfDangling(before: string, after: string)
    requires IsLiteral(before) && '}' !in after
    ensures Lex(before + "${" + after).Dangling?
  {
    SplitsAfterLiteral(before, after);
    BraceIff(after);
  }

  lemma LexOfLast(last: string)
    ensures IsLiteral(last) ==> Lex(last) == End(last)
    ensures IsDangling(last) ==> Lex(last).Dangling?
  {
    LiteralIff(last);
    if IsDangling(last) {
      var i :| 0 <= i < |last| && DanglesAt(last, i);
      LexOfDangling(last[..i], last[i + 2..]);
      CutAtMark(last, i);
    }
  }

  lemma CutAtMark(s: string, i: nat)
    requires i < |s| - 1 && s[i] == '$' && s[i + 1] == '{'
    ensures s == s[..i] + "${" + s[i + 2..]
  {
  }

  /** The first piece whose reference has no value. */
  predicate IsFirstMissing(pieces: seq<Piece>, values: map<string, string>, k: nat) {
    k < |pieces| && pieces[k].1 !in values && HaveValues(pieces[..k], values)
  }

  lemma {:induction false} TokensAreFilled(pieces: seq<Piece>, last: string, values: map<string, string>)
    requires ArePieces(pieces)
    ensures HaveValues(pieces, values) && IsLiteral(last) ==>
              RenderTokens(Lex(TemplateText(pieces, last)), values) == Ok(FilledText(pieces, last, values))
    ensures HaveValues(pieces, values) && IsDangling(last) ==>
              RenderTokens(Lex(TemplateText(pieces, last)), values) == Err(UnterminatedReference)
    decreases |pieces|
  {
    if pieces == [] {
      LexOfLast(last);
    } else {
      LexOfPiece(pieces[0], TemplateText(pieces[1..], last));
      TokensAreFilled(pieces[1..], last, values);
    }
  }

  lemma {:induction false} TokensMiss(pieces: seq<Piece>, last: string, values: map<string, string>, k: nat)
    requires ArePieces(pieces) && IsFirstMissing(pieces, values, k)
    ensures RenderTokens(Lex(TemplateText(pieces, last)), values) == Err(MissingValue(pieces[k].1))
    decreases |pieces|
  {
    LexOfPiece(pieces[0], TemplateText(pieces[1..], last));
    if k > 0 {
      assert pieces[..k][0] == pieces[0];
      assert pieces[1..][..k - 1] == pieces[..k][1..];
      TokensMiss(pieces[1..], last, values, k - 1);
    }
  }

  /**
   Rendering fills in a template: every literal piece in its place, every reference
   replaced by its value, and the finished text is taken as it is or rejected. The first
   reference without a value is reported; a `${` that is never closed is, if none before
   it is missing.
   */
  lemma RenderFillsIn(pieces: seq<Piece>, last: string, values: map<string, string>)
    requires ArePieces(pieces)
    ensures HaveValues(pieces, values) && IsLiteral(last) ==>
              Render(TemplateText(pieces, last), values) ==
              if IsAcceptableRendered(FilledText(pieces, last, values)) then Ok(FilledText(pieces, last, values))
              else Err(RejectedPath)
    ensures HaveValues(pieces, values) && IsDangling(last) ==>
              Render(TemplateText(pieces, last), values) == Err(UnterminatedReference)
    ensures forall k: nat :: IsFirstMissing(pieces, values, k) ==>
              Render(TemplateText(pieces, last), values) == Err(MissingValue(pieces[k].1))
  {
    TokensAreFilled(pieces, last, values);
    forall k: nat | IsFirstMissing(pieces, values, k)
      ensures Render(TemplateText(pieces, last), values) == Err(MissingValue(pieces[k].1))
    {
      TokensMiss(pieces, last, values, k);
    }
  }

  /** Every text is a template of that form, so the law above covers every rendering. */
  lemma {:induction false} EveryTextIsTemplate(s: string) returns (pieces: seq<Piece>, last: string)
    ensures ArePieces(pieces) && (IsLiteral(last) || IsDangling(last)) && TemplateText(pieces, last) == s
    decreases |s|
  {
    pieces, last := [], s;
    LiteralIff(s);
    if !IsLiteral(s) {
      var (before, after) := SplitOnce(s, "${").value;
      assert s == before + "${" + after && IsLiteral(before) by {
        SplitOnceJoins(s, "${");
        BeforeIsLiteral(s);
      }
      match SplitOnce(after, "}")
      case None =>
        BraceIff(after);
        DanglingText(before, after);
      case Some((name, tail)) =>
        assert after == name + "}" + tail && '}' !in name by {
          SplitOnceJoins(after, "}");
          NameHasNoBrace(after);
        }
        var rest;
        rest, last := EveryTextIsTemplate(tail);
        pieces := [(before, name)] + rest;
        PiecesPrepend(before, name, rest, last);
        assert before + "${" + name + "}" + tail == before + "${" + (name + "}" + tail);
    }
  }

  lemma PiecesPrepend(before: string, name: string, rest: seq<Piece>, last: string)
    requires IsLiteral(before) && '}' !in name && ArePieces(rest)
    ensures ArePieces([(before, name)] + rest)
    ensures TemplateText([(before, name)] + rest, last) == before + "${" + name + "}" + TemplateText(rest, last)
  {
    assert ([(before, name)] + rest)[1..] == rest;
  }

  lemma DanglingText(before: string, after: string)
    requires IsLiteral(before) && '}' !in after
    ensures IsDangling(before + "${" + after)
  {
    var s, i := before + "${" + after, |before|;
    assert s[..i] == before && s[i] == '$' && s[i + 1] == '{' && s[i + 2..] == after;
    assert DanglesAt(s, i);
  }
}
