/** Searching, splitting and number formatting on text. */
module TextScan {
  import opened Prelude

  /** The text before and after the first occurrence of the needle. */
  function SplitOnce(s: string, needle: string): (r: Option<(string, string)>)
    ensures r.Some? ==> |r.value.0| + |needle| + |r.value.1| == |s|
    decreases |s|
  {
    if needle <= s then Some(("", s[|needle|..]))
    else if s == "" then None
    else match SplitOnce(s[1..], needle)
      case None => None
      case Some((before, after)) => Some(([s[0]] + before, after))
  }

  predicate Contains(s: string, needle: string) {
    SplitOnce(s, needle).Some?
  }

  /** The two halves and the needle between them are the whole text. */
  lemma {:induction false} SplitOnceJoins(s: string, needle: string)
    requires SplitOnce(s, needle).Some?
    ensures s == SplitOnce(s, needle).value.0 + needle + SplitOnce(s, needle).value.1
    decreases |s|
  {
    if !(needle <= s) {
      SplitOnceJoins(s[1..], needle);
    }
  }

  predicate ContainsAny(s: string, chars: string) {
    exists i :: 0 <= i < |s| && s[i] in chars
  }

  // ------------------------------------------------------------------- splitting

  function Split(s: string, separator: char): (r: seq<string>)
    ensures r != []
  {
    if s == "" then [""]
    else
      var rest := Split(s[1..], separator);
      if s[0] == separator then [""] + rest else [[s[0]] + rest[0]] + rest[1..]
  }

  function Join(parts: seq<string>, separator: char): string {
    if parts == [] then ""
    else if |parts| == 1 then parts[0]
    else parts[0] + [separator] + Join(parts[1..], separator)
  }

  /** Joining undoes splitting. */
  lemma {:induction false} JoinOfSplit(s: string, separator: char)
    ensures Join(Split(s, separator), separator) == s
  {
    if s != "" {
      var rest := Split(s[1..], separator);
      JoinOfSplit(s[1..], separator);
      if s[0] == separator {
        assert ([""] + rest)[1..] == rest;
        assert s == [separator] + s[1..];
      } else {
        var parts := [[s[0]] + rest[0]] + rest[1..];
        assert parts[1..] == rest[1..];
        assert s == [s[0]] + s[1..];
        if |rest| > 1 {
          assert Join(parts, separator) == [s[0]] + rest[0] + [separator] + Join(rest[1..], separator);
          assert s[1..] == rest[0] + [separator] + Join(rest[1..], separator);
        }
      }
    }
  }

  lemma {:induction false} SplitHasNoSeparator(s: string, separator: char)
    ensures forall part :: part in Split(s, separator) ==> separator !in part
  {
    if s != "" {
      SplitHasNoSeparator(s[1..], separator);
      var rest := Split(s[1..], separator);
      assert rest[0] in rest;
      assert forall part :: part in rest[1..] ==> part in rest;
    }
  }

  lemma {:induction false} SplitPrepend(head: string, tail: string, separator: char)
    requires separator !in head
    ensures Split(head + [separator] + tail, separator) == [head] + Split(tail, separator)
  {
    var s := head + [separator] + tail;
    if head == "" {
      assert s[0] == separator && s[1..] == tail;
    } else {
      assert s[0] == head[0] && s[1..] == head[1..] + [separator] + tail;
      SplitPrepend(head[1..], tail, separator);
      assert [head[0]] + head[1..] == head;
    }
  }

  lemma {:induction false} SplitOfPlain(s: string, separator: char)
    requires separator !in s
    ensures Split(s, separator) == [s]
  {
    if s != "" {
      SplitOfPlain(s[1..], separator);
      assert [s[0]] + s[1..] == s;
    }
  }

  /** Splitting undoes joining, when no part holds the separator. */
  lemma {:induction false} SplitOfJoin(parts: seq<string>, separator: char)
    requires parts != [] && forall part :: part in parts ==> separator !in part
    ensures Split(Join(parts, separator), separator) == parts
  {
    assert parts[0] in parts;
    if |parts| == 1 {
      SplitOfPlain(parts[0], separator);
    } else {
      assert forall part :: part in parts[1..] ==> part in parts;
      SplitOfJoin(parts[1..], separator);
      SplitPrepend(parts[0], Join(parts[1..], separator), separator);
    }
  }

  /** The parts that hold any text. */
  function NonEmpty(parts: seq<string>): seq<string> {
    if parts == [] then []
    else (if parts[0] == "" then [] else [parts[0]]) + NonEmpty(parts[1..])
  }

  // --------------------------------------------------------------------- numbers

  const U32_MAX: nat := 0xFFFF_FFFF
  const U64_MAX: nat := 0xFFFF_FFFF_FFFF_FFFF

  predicate IsDigit(c: char) {
    '0' <= c <= '9'
  }

  function DigitValue(c: char): (r: nat)
    requires IsDigit(c)
    ensures r < 10
  {
    c as nat - '0' as nat
  }

  function DigitChar(d: nat): (c: char)
    requires d < 10
    ensures IsDigit(c) && DigitValue(c) == d
  {
    ('0' as nat + d) as char
  }

  predicate AllDigits(s: string) {
    forall i :: 0 <= i < |s| ==> IsDigit(s[i])
  }

  function DecimalValue(s: string): nat
    requires AllDigits(s)
  {
    if s == "" then 0 else 10 * DecimalValue(s[..|s| - 1]) + DigitValue(s[|s| - 1])
  }

  function ToDecimal(n: nat): (s: string)
    ensures s != "" && AllDigits(s) && DecimalValue(s) == n
  {
    if n < 10 then
      var s := [DigitChar(n)];
      assert s[..|s| - 1] == "";
      s
    else
      var front := ToDecimal(n / 10);
      var s := front + [DigitChar(n % 10)];
      assert s[..|s| - 1] == front;
      s
  }

  /** `str::parse::<u32>`: decimal digits after an optional plus sign, in range. */
  function ParseU32(s: string): Option<nat> {
    var digits := if s != "" && s[0] == '+' then s[1..] else s;
    if digits != "" && AllDigits(digits) && DecimalValue(digits) <= U32_MAX
    then Some(DecimalValue(digits)) else None
  }

  lemma ParseOfToDecimal(n: nat)
    requires n <= U32_MAX
    ensures ParseU32(ToDecimal(n)) == Some(n)
  {
    assert IsDigit(ToDecimal(n)[0]);
  }
}
