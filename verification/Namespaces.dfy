/**
 User namespace id maps, as in "User and group ID mappings: uid_map and gid_map" of
 user_namespaces(7).
 */
module Namespaces {
  import opened Prelude
  import opened Text
  import opened TextScan
  import opened TextLines

  datatype Entry = Entry(containerStart: nat, parentStart: nat, length: nat)

  /** Not empty, and neither interval end leaves 64 bits. */
  predicate IsInterval(e: Entry) {
    && e.length > 0
    && e.containerStart + e.length <= U64_MAX
    && e.parentStart + e.length <= U64_MAX
  }

  predicate IsMap(entries: seq<Entry>) {
    forall i :: 0 <= i < |entries| ==> IsInterval(entries[i])
  }

  datatype MapError = NotThreeFields | NotDecimal | BadInterval | Empty | Uncovered | OutOfRange

  // ------------------------------------------------------------------------ parsing

  /** Pieces between single whitespace characters. */
  function Pieces(s: string): (r: seq<string>)
    ensures r != []
  {
    if s == "" then [""]
    else
      var rest := Pieces(s[1..]);
      if IsWhitespace(s[0]) then [""] + rest else [[s[0]] + rest[0]] + rest[1..]
  }

  /** `str::split_whitespace`. */
  function Words(s: string): seq<string> {
    NonEmpty(Pieces(s))
  }

  function ParseU64(s: string): Option<nat> {
    if s != "" && AllDigits(s) && DecimalValue(s) <= U64_MAX then Some(DecimalValue(s)) else None
  }

  function ParseEntry(line: string): Result<Entry, MapError> {
    var fields := Words(line);
    if |fields| != 3 then Err(NotThreeFields)
    else if ParseU64(fields[0]).None? || ParseU64(fields[1]).None? || ParseU64(fields[2]).None? then Err(NotDecimal)
    else
      var e := Entry(ParseU64(fields[0]).value, ParseU64(fields[1]).value, ParseU64(fields[2]).value);
      if IsInterval(e) then Ok(e) else Err(BadInterval)
  }

  function ParseEntries(lines: seq<string>): Result<seq<Entry>, MapError> {
    if lines == [] then Ok([])
    else if Trim(lines[0]) == "" then ParseEntries(lines[1..])
    else match ParseEntry(lines[0])
      case Err(e) => Err(e)
      case Ok(entry) =>
        match ParseEntries(lines[1..])
        case Err(e) => Err(e)
        case Ok(rest) => Ok([entry] + rest)
  }

  function Prepend(entries: seq<Entry>, r: Result<seq<Entry>, MapError>): Result<seq<Entry>, MapError> {
    if r.Err? then r else Ok(entries + r.value)
  }

  method ParseMap(contents: string) returns (r: Result<seq<Entry>, MapError>)
    ensures r.Ok? ==> r.value != [] && IsMap(r.value)
    ensures match ParseEntries(Lines(contents))
            case Err(e) => r == Err(e)
            case Ok(entries) => r == if entries == [] then Err(Empty) else Ok(entries)
  {
    var lines := Lines(contents);
    var entries: seq<Entry> := [];
    assert lines[0..] == lines;
    PrependNothing(ParseEntries(lines));
    for k := 0 to |lines|
      invariant IsMap(entries)
      invariant ParseEntries(lines) == Prepend(entries, ParseEntries(lines[k..]))
    {
      assert lines[k..][0] == lines[k] && lines[k..][1..] == lines[k + 1..];
      if Trim(lines[k]) != "" {
        var entry := ParseEntry(lines[k]);
        if entry.Err? {
          return Err(entry.error);
        }
        PrependTwice(entries, entry.value, ParseEntries(lines[k + 1..]));
        entries := entries + [entry.value];
      }
    }
    assert entries + [] == entries;
    if entries == [] {
      return Err(Empty);
    }
    return Ok(entries);
  }

  lemma PrependNothing(r: Result<seq<Entry>, MapError>)
    ensures Prepend([], r) == r
  {
    if r.Ok? {
      assert [] + r.value == r.value;
    }
  }

  lemma PrependTwice(a: seq<Entry>, e: Entry, r: Result<seq<Entry>, MapError>)
    ensures Prepend(a, Prepend([e], r)) == Prepend(a + [e], r)
  {
    if r.Ok? {
      AppendAssociates(a, [e], r.value);
    }
  }

  // -------------------------------------------------------------- parsing undoes printing

  /** An entry as the kernel prints it, up to the number of blanks. */
  function PrintEntry(e: Entry): string {
    ToDecimal(e.containerStart) + " " + (ToDecimal(e.parentStart) + " " + ToDecimal(e.length))
  }

  function PrintLines(entries: seq<Entry>): seq<string> {
    seq(|entries|, i requires 0 <= i < |entries| => PrintEntry(entries[i]))
  }

  lemma {:induction false} PiecesOfWord(word: string, rest: string)
    requires AllDigits(word)
    ensures Pieces(word + " " + rest) == [word] + Pieces(rest)
  {
    var s := word + " " + rest;
    if word == "" {
      assert s[0] == ' ' && s[1..] == rest;
    } else {
      assert s[0] == word[0] && s[1..] == word[1..] + " " + rest;
      assert IsDigit(word[0]);
      PiecesOfWord(word[1..], rest);
      assert [word[0]] + word[1..] == word;
    }
  }

  lemma {:induction false} PiecesOfLastWord(word: string)
    requires AllDigits(word)
    ensures Pieces(word) == [word]
  {
    if word != "" {
      assert IsDigit(word[0]);
      PiecesOfLastWord(word[1..]);
      assert [word[0]] + word[1..] == word;
    }
  }

  lemma WordsOfEntry(a: string, b: string, c: string)
    requires AllDigits(a) && AllDigits(b) && AllDigits(c) && a != "" && b != "" && c != ""
    ensures Words(a + " " + (b + " " + c)) == [a, b, c]
  {
    PiecesOfWord(a, b + " " + c);
    PiecesOfWord(b, c);
    PiecesOfLastWord(c);
    assert [a] + ([b] + [c]) == [a, b, c];
    assert [a, b, c][1..] == [b, c] && [b, c][1..] == [c] && [c][1..] == [];
    assert NonEmpty([c]) == [c];
    assert NonEmpty([b, c]) == [b, c];
  }

  lemma ParseOfPrintedEntry(e: Entry)
    requires IsInterval(e)
    ensures ParseEntry(PrintEntry(e)) == Ok(e)
  {
    WordsOfEntry(ToDecimal(e.containerStart), ToDecimal(e.parentStart), ToDecimal(e.length));
  }

  lemma PrintedEntryIsLine(e: Entry)
    ensures Trim(PrintEntry(e)) != "" && '\n' !in PrintEntry(e) && DropCr(PrintEntry(e)) == PrintEntry(e)
  {
    var a, b, c := ToDecimal(e.containerStart), ToDecimal(e.parentStart), ToDecimal(e.length);
    assert PrintEntry(e)[0] == a[0];
    assert IsDigit(a[0]);
    TrimEmptyIffBlank(PrintEntry(e));
    assert PrintEntry(e)[|PrintEntry(e)| - 1] == c[|c| - 1];
    assert IsDigit(c[|c| - 1]);
  }

  lemma {:induction false} ParseOfPrintedLines(entries: seq<Entry>)
    requires IsMap(entries)
    ensures ParseEntries(PrintLines(entries)) == Ok(entries)
    decreases |entries|
  {
    var lines := PrintLines(entries);
    if entries != [] {
      assert lines[1..] == PrintLines(entries[1..]);
      ParseOfPrintedLines(entries[1..]);
      ParseOfPrintedEntry(entries[0]);
      PrintedEntryIsLine(entries[0]);
      ParseOfMore(lines, entries);
    }
  }

  lemma ParseOfMore(lines: seq<string>, entries: seq<Entry>)
    requires lines != [] && entries != [] && Trim(lines[0]) != "" && ParseEntry(lines[0]) == Ok(entries[0])
    requires ParseEntries(lines[1..]) == Ok(entries[1..])
    ensures ParseEntries(lines) == Ok(entries)
  {
    assert [entries[0]] + entries[1..] == entries;
  }

  /** Every map survives being printed, one entry a line, and parsed. */
  lemma ParseUndoesPrint(entries: seq<Entry>)
    requires entries != [] && IsMap(entries)
    ensures ParseEntries(Lines(Written(PrintLines(entries), true))) == Ok(entries)
  {
    var lines := PrintLines(entries);
    forall i | 0 <= i < |lines|
      ensures '\n' !in lines[i] && DropCr(lines[i]) == lines[i]
    {
      PrintedEntryIsLine(entries[i]);
    }
    LinesOfWritten(lines, true);
    forall i | 0 <= i < |lines|
      ensures |ReadBack(lines, true)| == |lines| && ReadBack(lines, true)[i] == lines[i]
    {
      ReadBackAt(lines, true, i);
    }
    ReadBackAt(lines, true, 0);
    assert ReadBack(lines, true) == lines;
    ParseOfPrintedLines(entries);
  }

  // ------------------------------------------------------------------------ mapping

  function SaturatingAdd(a: nat, b: nat): nat {
    if a + b > U64_MAX then U64_MAX else a + b
  }

  predicate Covers(e: Entry, id: nat) {
    e.parentStart <= id < SaturatingAdd(e.parentStart, e.length)
  }

  function FirstCovering(entries: seq<Entry>, id: nat): (r: Option<Entry>)
    ensures r.Some? ==> Covers(r.value, id)
  {
    if entries == [] then None
    else if Covers(entries[0], id) then Some(entries[0])
    else FirstCovering(entries[1..], id)
  }

  function MapParentId(entries: seq<Entry>, id: nat): Result<nat, MapError> {
    match FirstCovering(entries, id)
    case None => Err(Uncovered)
    case Some(e) =>
      var mapped := e.containerStart + (id - e.parentStart);
      if mapped > U32_MAX then Err(OutOfRange) else Ok(mapped)
  }

  ghost predicate IsFirstCovering(entries: seq<Entry>, id: nat, i: nat) {
    && i < |entries| && Holds(entries[i], id)
    && forall j :: 0 <= j < i ==> !Holds(entries[j], id)
  }

  /** The id lies in the parent interval, in exact arithmetic. */
  predicate Holds(e: Entry, id: nat) {
    e.parentStart <= id < e.parentStart + e.length
  }

  /** In a parsed map saturation never happens, so covering is lying in the interval. */
  lemma CoveringIsExact(e: Entry, id: nat)
    requires IsInterval(e)
    ensures Covers(e, id) <==> Holds(e, id)
  {
  }

  lemma {:induction false} FirstCoveringIsFirst(entries: seq<Entry>, id: nat)
    requires IsMap(entries)
    ensures FirstCovering(entries, id).None? <==> forall i :: 0 <= i < |entries| ==> !Holds(entries[i], id)
    ensures FirstCovering(entries, id).Some? ==>
              exists i: nat :: IsFirstCovering(entries, id, i) && entries[i] == FirstCovering(entries, id).value
    decreases |entries|
  {
    if entries != [] {
      var rest := entries[1..];
      FirstCoveringIsFirst(rest, id);
      assert forall i :: 0 < i < |entries| ==> entries[i] == rest[i - 1];
      assert forall i :: 0 <= i < |rest| ==> rest[i] == entries[i + 1];
      CoveringIsExact(entries[0], id);
      if Covers(entries[0], id) {
        assert IsFirstCovering(entries, id, 0);
      } else if FirstCovering(rest, id).Some? {
        var i: nat :| IsFirstCovering(rest, id, i) && rest[i] == FirstCovering(rest, id).value;
        assert IsFirstCovering(entries, id, i + 1);
      }
    }
  }

  /** The offset inside the first interval that holds the id is kept. */
  lemma MappedKeepsOffset(entries: seq<Entry>, id: nat, i: nat)
    requires IsMap(entries) && IsFirstCovering(entries, id, i)
    ensures var image := entries[i].containerStart + (id - entries[i].parentStart);
            MapParentId(entries, id) == if image <= U32_MAX then Ok(image) else Err(OutOfRange)
  {
    FirstCoveringIsFirst(entries, id);
    var k: nat :| IsFirstCovering(entries, id, k) && entries[k] == FirstCovering(entries, id).value;
    assert k == i;
  }

  /** Mapping fails exactly where no interval holds the id or the image leaves 32 bits. */
  lemma MappingSucceedsIff(entries: seq<Entry>, id: nat)
    requires IsMap(entries)
    ensures MapParentId(entries, id).Ok? <==>
              exists i: nat :: IsFirstCovering(entries, id, i)
                && entries[i].containerStart + (id - entries[i].parentStart) <= U32_MAX
    ensures MapParentId(entries, id) == Err(Uncovered) <==> forall i :: 0 <= i < |entries| ==> !Holds(entries[i], id)
  {
    FirstCoveringIsFirst(entries, id);
    forall i: nat | IsFirstCovering(entries, id, i)
      ensures var image := entries[i].containerStart + (id - entries[i].parentStart);
              MapParentId(entries, id) == if image <= U32_MAX then Ok(image) else Err(OutOfRange)
    {
      MappedKeepsOffset(entries, id, i);
    }
  }

  // ----------------------------------------------------------------------- inverses

  function Swap(e: Entry): Entry {
    Entry(e.parentStart, e.containerStart, e.length)
  }

  function Swapped(entries: seq<Entry>): seq<Entry> {
    seq(|entries|, i requires 0 <= i < |entries| => Swap(entries[i]))
  }

  /** No two entries share a container id. */
  ghost predicate HasDisjointContainers(entries: seq<Entry>) {
    forall i, j, id :: 0 <= i < j < |entries| ==> !(Holds(Swap(entries[i]), id) && Holds(Swap(entries[j]), id))
  }

  /** Over disjoint container intervals the swapped map takes every image back. */
  lemma SwappedMapInverts(entries: seq<Entry>, id: nat)
    requires IsMap(entries) && HasDisjointContainers(entries) && id <= U32_MAX
    requires MapParentId(entries, id).Ok?
    ensures MapParentId(Swapped(entries), MapParentId(entries, id).value) == Ok(id)
  {
    var image := MapParentId(entries, id).value;
    MappingSucceedsIff(entries, id);
    var i: nat :| IsFirstCovering(entries, id, i);
    MappedKeepsOffset(entries, id, i);
    var swapped := Swapped(entries);
    forall j | 0 <= j < i
      ensures !Holds(swapped[j], image)
    {
      assert Holds(Swap(entries[i]), image);
    }
    assert IsFirstCovering(swapped, image, i);
    MappedKeepsOffset(swapped, image, i);
  }

  /** Hence no two parent ids have the same image. */
  lemma MappingIsInjective(entries: seq<Entry>, a: nat, b: nat)
    requires IsMap(entries) && HasDisjointContainers(entries) && a <= U32_MAX && b <= U32_MAX
    requires MapParentId(entries, a).Ok? && MapParentId(entries, a) == MapParentId(entries, b)
    ensures a == b
  {
    SwappedMapInverts(entries, a);
    SwappedMapInverts(entries, b);
  }
}
