/**
 The octal escapes of mountinfo paths, section 3.5 of the Linux kernel's
 Documentation/filesystems/proc.rst: a backslash stands before three octal digits.
 */
module MountInfo {
  import opened Prelude

  newtype Byte = x: int | 0 <= x < 256

  const BACKSLASH: Byte := 92
  const ZERO: Byte := 48

  predicate IsOctal(b: Byte) {
    ZERO <= b < ZERO + 8
  }

  predicate IsDigit(b: Byte) {
    ZERO <= b < ZERO + 10
  }

  /** `u8::from_str_radix(_, 8)` on three decimal digits. */
  function OctalValue(a: Byte, b: Byte, c: Byte): Option<Byte> {
    if IsOctal(a) && IsOctal(b) && IsOctal(c) then
      var v := 64 * ((a - ZERO) as int) + 8 * ((b - ZERO) as int) + (c - ZERO) as int;
      if v < 256 then Some(v as Byte) else None
    else None
  }

  /** The byte an escape at the start of the text stands for. */
  function EscapeAt(s: seq<Byte>): Option<Byte> {
    if |s| < 4 || !IsDigit(s[1]) || !IsDigit(s[2]) || !IsDigit(s[3]) then None
    else OctalValue(s[1], s[2], s[3])
  }

  function Decode(s: seq<Byte>): Option<seq<Byte>> {
    if s == [] then Some([])
    else if s[0] != BACKSLASH then After([s[0]], Decode(s[1..]))
    else if EscapeAt(s).None? then None
    else After([EscapeAt(s).value], Decode(s[4..]))
  }

  function After(front: seq<Byte>, rest: Option<seq<Byte>>): Option<seq<Byte>> {
    if rest.None? then None else Some(front + rest.value)
  }

  lemma AfterAfter(a: seq<Byte>, b: seq<Byte>, r: Option<seq<Byte>>)
    ensures After(a, After(b, r)) == After(a + b, r)
  {
    if r.Some? {
      AppendAssociates(a, b, r.value);
    }
  }

  method DecodeMountinfoPath(s: seq<Byte>) returns (r: Option<seq<Byte>>)
    ensures r == Decode(s)
  {
    var decoded: seq<Byte> := [];
    var index := 0;
    assert s[0..] == s;
    assert Decode(s).Some? ==> [] + Decode(s).value == Decode(s).value;
    while index < |s|
      invariant 0 <= index <= |s|
      invariant Decode(s) == After(decoded, Decode(s[index..]))
    {
      var rest := s[index..];
      if s[index] != BACKSLASH {
        assert rest[1..] == s[index + 1..];
        AfterAfter(decoded, [s[index]], Decode(rest[1..]));
        decoded := decoded + [s[index]];
        index := index + 1;
      } else {
        if index + 3 >= |s| || !IsDigit(s[index + 1]) || !IsDigit(s[index + 2]) || !IsDigit(s[index + 3]) {
          return None;
        }
        var octet := OctalValue(s[index + 1], s[index + 2], s[index + 3]);
        if octet.None? {
          return None;
        }
        assert rest[4..] == s[index + 4..];
        AfterAfter(decoded, [octet.value], Decode(rest[4..]));
        decoded := decoded + [octet.value];
        index := index + 4;
      }
    }
    assert decoded + [] == decoded;
    return Some(decoded);
  }

  // -------------------------------------------------------------------- round trip

  function Digit(d: int): Byte
    requires 0 <= d < 8
  {
    ZERO + d as Byte
  }

  function Escape(b: Byte): seq<Byte> {
    [BACKSLASH, Digit(b as int / 64), Digit(b as int / 8 % 8), Digit(b as int % 8)]
  }

  /** Any set of bytes may be escaped, as long as the backslash is among them. */
  function Encode(s: seq<Byte>, escaped: set<Byte>): seq<Byte> {
    if s == [] then []
    else (if s[0] in escaped then Escape(s[0]) else [s[0]]) + Encode(s[1..], escaped)
  }

  lemma EscapeMeansByte(b: Byte, rest: seq<Byte>)
    ensures EscapeAt(Escape(b) + rest) == Some(b)
  {
    var s := Escape(b) + rest;
    assert s[1] == Digit(b as int / 64) && s[2] == Digit(b as int / 8 % 8) && s[3] == Digit(b as int % 8);
    assert b as int == 64 * (b as int / 64) + 8 * (b as int / 8 % 8) + b as int % 8;
  }

  /** Decoding undoes every such encoding, for every byte string. */
  lemma {:induction false} DecodeUndoesEncode(s: seq<Byte>, escaped: set<Byte>)
    requires BACKSLASH in escaped
    ensures Decode(Encode(s, escaped)) == Some(s)
    decreases |s|
  {
    if s != [] {
      var rest := Encode(s[1..], escaped);
      DecodeUndoesEncode(s[1..], escaped);
      assert [s[0]] + s[1..] == s;
      if s[0] in escaped {
        EscapeMeansByte(s[0], rest);
        assert (Escape(s[0]) + rest)[4..] == rest;
      } else {
        assert ([s[0]] + rest)[1..] == rest;
      }
    }
  }

  /** Decoding never lengthens a text. */
  lemma {:induction false} DecodingNeverLengthens(s: seq<Byte>)
    requires Decode(s).Some?
    ensures |Decode(s).value| <= |s|
    decreases |s|
  {
    if s != [] {
      DecodingNeverLengthens(if s[0] != BACKSLASH then s[1..] else s[4..]);
    }
  }

  // ------------------------------------------------------------- when decoding fails

  predicate IsEscape(s: seq<Byte>, k: nat) {
    && k + 3 < |s| && s[k] == BACKSLASH
    && IsOctal(s[k + 1]) && IsOctal(s[k + 2]) && IsOctal(s[k + 3])
    && 64 * ((s[k + 1] - ZERO) as int) + 8 * ((s[k + 2] - ZERO) as int) + (s[k + 3] - ZERO) as int <= 255
  }

  /** A scan that steps over plain bytes and whole escapes arrives at position `k`. */
  predicate IsScanned(s: seq<Byte>, k: nat)
    decreases k
  {
    || k == 0
    || (k <= |s| && s[k - 1] != BACKSLASH && IsScanned(s, k - 1))
    || (4 <= k <= |s| && IsEscape(s, k - 4) && IsScanned(s, k - 4))
  }

  predicate IsBroken(s: seq<Byte>, k: nat) {
    IsScanned(s, k) && k < |s| && s[k] == BACKSLASH && !IsEscape(s, k)
  }

  lemma EscapeIsRead(s: seq<Byte>, k: nat)
    requires k < |s| && s[k] == BACKSLASH
    ensures IsEscape(s, k) <==> EscapeAt(s[k..]).Some?
  {
  }

  /** One step of the scan does not decide anything. */
  lemma DecodeStep(s: seq<Byte>, k: nat)
    requires k < |s|
    ensures s[k] != BACKSLASH ==> Decode(s[k..]).Some? == Decode(s[k + 1..]).Some?
    ensures IsEscape(s, k) ==> Decode(s[k..]).Some? == Decode(s[k + 4..]).Some?
    ensures s[k] == BACKSLASH && !IsEscape(s, k) ==> Decode(s[k..]).None?
  {
    assert s[k..][1..] == s[k + 1..];
    if s[k] == BACKSLASH {
      EscapeIsRead(s, k);
      if k + 4 <= |s| {
        assert s[k..][4..] == s[k + 4..];
      }
    }
  }

  lemma {:induction false} ScannedDecidesNothing(s: seq<Byte>, k: nat)
    requires IsScanned(s, k) && k <= |s|
    ensures Decode(s).Some? == Decode(s[k..]).Some?
    decreases k
  {
    if k == 0 {
      assert s[0..] == s;
    } else if s[k - 1] != BACKSLASH && IsScanned(s, k - 1) {
      ScannedDecidesNothing(s, k - 1);
      DecodeStep(s, k - 1);
    } else {
      ScannedDecidesNothing(s, k - 4);
      DecodeStep(s, k - 4);
    }
  }

  lemma {:induction false} FailureIsBroken(s: seq<Byte>, k: nat) returns (at: nat)
    requires IsScanned(s, k) && k <= |s| && Decode(s[k..]).None?
    ensures IsBroken(s, at)
    decreases |s| - k
  {
    assert k < |s|;
    DecodeStep(s, k);
    if s[k] != BACKSLASH {
      at := FailureIsBroken(s, k + 1);
    } else if IsEscape(s, k) {
      at := FailureIsBroken(s, k + 4);
    } else {
      at := k;
    }
  }

  /**
   Decoding fails exactly when the scan meets a backslash that is not followed by
   three octal digits of value at most 255.
   */
  lemma DecodeFailsIff(s: seq<Byte>)
    ensures Decode(s).None? <==> exists k: nat :: IsBroken(s, k)
  {
    if Decode(s).None? {
      assert s[0..] == s;
      var k := FailureIsBroken(s, 0);
    }
    forall k: nat | IsBroken(s, k)
      ensures Decode(s).None?
    {
      ScannedDecidesNothing(s, k);
      DecodeStep(s, k);
    }
  }
}
