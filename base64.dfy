/**
 * Base64 (RFC 4648, section 4) as the browser's `btoa` writes it and its
 * `atob` reads it. `btoa` always pads to a multiple of four characters;
 * `atob` is the forgiving decoder of the HTML standard: it skips ASCII
 * whitespace, accepts the padding or its absence, and ignores the unused
 * low bits of the last character.
 */
module Base64 {
  import opened Wrappers
  import opened Unicode

  /** 'A'-'Z', 'a'-'z', '0'-'9', '+' and '/': the 64 digits of the alphabet. */
  predicate IsBase64Char(u: CodeUnit) {
    65 <= u <= 90 || 97 <= u <= 122 || 48 <= u <= 57 || u == 43 || u == 47
  }

  /** The padding character '='. */
  const Pad: CodeUnit := 61

  predicate IsAsciiWhitespace(u: CodeUnit) {
    u == 9 || u == 10 || u == 12 || u == 13 || u == 32
  }

  /** The digit for a 6-bit value (RFC 4648, Table 1). */
  function EncodeSextet(v: int): (u: CodeUnit)
    requires 0 <= v < 64
    ensures IsBase64Char(u)
  {
    if v < 26 then (65 + v) as CodeUnit
    else if v < 52 then (97 + v - 26) as CodeUnit
    else if v < 62 then (48 + v - 52) as CodeUnit
    else if v == 62 then 43
    else 47
  }

  /** The 6-bit value of a digit: the inverse of EncodeSextet. */
  function DecodeSextet(u: CodeUnit): (v: int)
    requires IsBase64Char(u)
    ensures 0 <= v < 64 && EncodeSextet(v) == u
  {
    if 65 <= u <= 90 then u as int - 65
    else if 97 <= u <= 122 then u as int - 97 + 26
    else if 48 <= u <= 57 then u as int - 48 + 52
    else if u == 43 then 62
    else 63
  }

  lemma SextetRoundTrip(v: int)
    requires 0 <= v < 64
    ensures DecodeSextet(EncodeSextet(v)) == v
  {
  }

  /** Three bytes as four digits, six bits each, most significant first. */
  function EncodeTriple(x: Byte, y: Byte, z: Byte): (r: seq<CodeUnit>)
    ensures |r| == 4 && forall i :: 0 <= i < 4 ==> IsBase64Char(r[i])
  {
    [EncodeSextet(x as int / 4), EncodeSextet(x as int % 4 * 16 + y as int / 16),
     EncodeSextet(y as int % 16 * 4 + z as int / 64), EncodeSextet(z as int % 64)]
  }

  /** The digits of `b` without padding: four per whole group of three bytes, two or three for a final partial group. */
  function Digits(b: seq<Byte>): seq<CodeUnit>
  {
    if |b| == 0 then []
    else if |b| == 1 then EncodeTriple(b[0], 0, 0)[..2]
    else if |b| == 2 then EncodeTriple(b[0], b[1], 0)[..3]
    else EncodeTriple(b[0], b[1], b[2]) + Digits(b[3..])
  }

  /** The padding that `btoa` appends after the digits of n bytes. */
  function Padding(n: nat): seq<CodeUnit>
  {
    if n % 3 == 1 then [Pad, Pad] else if n % 3 == 2 then [Pad] else []
  }

  /** `btoa` of a string whose code units are the bytes `b`: the digits, then '=' up to a multiple of four. */
  function Btoa(b: seq<Byte>): seq<CodeUnit>
  {
    Digits(b) + Padding(|b|)
  }

  function RemoveWhitespace(s: seq<CodeUnit>): (r: seq<CodeUnit>)
    ensures forall i :: 0 <= i < |r| ==> !IsAsciiWhitespace(r[i])
  {
    if s == [] then []
    else if IsAsciiWhitespace(s[0]) then RemoveWhitespace(s[1..])
    else [s[0]] + RemoveWhitespace(s[1..])
  }

  /** When the length is a multiple of four, one or two trailing '=' are dropped. */
  function StripPadding(s: seq<CodeUnit>): seq<CodeUnit>
  {
    if |s| % 4 != 0 || |s| == 0 || s[|s| - 1] != Pad then s
    else if |s| >= 2 && s[|s| - 2] == Pad then s[..|s| - 2]
    else s[..|s| - 1]
  }

  /** Four digits as three bytes (24 bits). */
  function DecodeQuad(t0: CodeUnit, t1: CodeUnit, t2: CodeUnit, t3: CodeUnit): seq<Byte>
    requires IsBase64Char(t0) && IsBase64Char(t1) && IsBase64Char(t2) && IsBase64Char(t3)
  {
    var d0, d1, d2, d3 := DecodeSextet(t0), DecodeSextet(t1), DecodeSextet(t2), DecodeSextet(t3);
    [(d0 * 4 + d1 / 16) as Byte, (d1 % 16 * 16 + d2 / 4) as Byte, (d2 % 4 * 64 + d3) as Byte]
  }

  /** Four digits give three bytes; a final two or three digits give one or two, the leftover bits dropped. */
  function DecodeDigits(t: seq<CodeUnit>): seq<Byte>
    requires forall i :: 0 <= i < |t| ==> IsBase64Char(t[i])
    requires |t| % 4 != 1
  {
    if |t| == 0 then []
    else if |t| == 2 then DecodeQuad(t[0], t[1], 65, 65)[..1]
    else if |t| == 3 then DecodeQuad(t[0], t[1], t[2], 65)[..2]
    else DecodeQuad(t[0], t[1], t[2], t[3]) + DecodeDigits(t[4..])
  }

  /**
   * `atob`: the bytes of `s`, or None (the InvalidCharacterError) when, once
   * whitespace and padding are gone, a character lies outside the alphabet or
   * the length leaves a remainder of one when divided by four.
   */
  function Atob(s: seq<CodeUnit>): Option<seq<Byte>>
  {
    var t := StripPadding(RemoveWhitespace(s));
    if |t| % 4 == 1 || !(forall i :: 0 <= i < |t| ==> IsBase64Char(t[i])) then None
    else Some(DecodeDigits(t))
  }

  lemma DigitsShape(b: seq<Byte>)
    ensures |Digits(b)| % 4 == (if |b| % 3 == 0 then 0 else |b| % 3 + 1)
    ensures |Digits(b)| + |Padding(|b|)| == 4 * ((|b| + 2) / 3)
    ensures forall i :: 0 <= i < |Digits(b)| ==> IsBase64Char(Digits(b)[i])
  {
    DigitsLength(b);
    DigitsAlphabet(b);
    var n, q, m := |b|, |b| / 3, |b| % 3;
    var tail := if m == 0 then 0 else m + 1;
    assert n == q * 3 + m;
    assert |Digits(b)| == q * 4 + tail;
    DivModUnique(q, tail, 4);
    if m == 0 {
      assert n + 2 == q * 3 + 2;
      DivModUnique(q, 2, 3);
      assert (n + 2) / 3 == q && |Padding(n)| == 0;
    } else if m == 1 {
      assert n + 2 == (q + 1) * 3 + 0;
      DivModUnique(q + 1, 0, 3);
      assert (n + 2) / 3 == q + 1 && |Padding(n)| == 2;
    } else {
      assert n + 2 == (q + 1) * 3 + 1;
      DivModUnique(q + 1, 1, 3);
      assert (n + 2) / 3 == q + 1 && |Padding(n)| == 1;
    }
  }

  /** Four digits per whole group of three bytes, and two or three for a partial last group. */
  lemma {:induction false} DigitsLength(b: seq<Byte>)
    ensures |Digits(b)| == 4 * (|b| / 3) + (if |b| % 3 == 0 then 0 else |b| % 3 + 1)
  {
    if |b| >= 3 {
      DigitsLength(b[3..]);
      assert |b[3..]| / 3 == |b| / 3 - 1 && |b[3..]| % 3 == |b| % 3;
    }
  }

  lemma {:induction false} DigitsAlphabet(b: seq<Byte>)
    ensures forall i :: 0 <= i < |Digits(b)| ==> IsBase64Char(Digits(b)[i])
  {
    if |b| >= 3 {
      DigitsAlphabet(b[3..]);
      var e, t := EncodeTriple(b[0], b[1], b[2]), Digits(b[3..]);
      assert Digits(b) == e + t;
      assert forall i :: 0 <= i < |e + t| ==> (e + t)[i] == if i < 4 then e[i] else t[i - 4];
    }
  }

  /** `btoa` writes only alphabet digits and '=' padding, 4 * ceil(n / 3) characters for n bytes. */
  lemma BtoaShape(b: seq<Byte>)
    ensures |Btoa(b)| == 4 * ((|b| + 2) / 3)
    ensures forall i :: 0 <= i < |Btoa(b)| ==> IsBase64Char(Btoa(b)[i]) || Btoa(b)[i] == Pad
    ensures forall i :: 0 <= i < |Btoa(b)| && Btoa(b)[i] == Pad ==> i >= |Btoa(b)| - 2
  {
    DigitsShape(b);
    var d := Digits(b);
    forall i | 0 <= i < |Btoa(b)|
      ensures IsBase64Char(Btoa(b)[i]) || Btoa(b)[i] == Pad
      ensures Btoa(b)[i] == Pad ==> i >= |Btoa(b)| - 2
    {
      if i < |d| { assert Btoa(b)[i] == d[i]; }
    }
  }

  /** The four digits of three bytes decode to those bytes. */
  lemma QuadOfTriple(x: Byte, y: Byte, z: Byte)
    ensures var e := EncodeTriple(x, y, z); DecodeQuad(e[0], e[1], e[2], e[3]) == [x, y, z]
  {
    var a, b, c := x as int, y as int, z as int;
    DivModUnique(a % 4, b / 16, 16);
    DivModUnique(b % 16, c / 64, 4);
    SextetRoundTrip(a / 4);
    SextetRoundTrip(a % 4 * 16 + b / 16);
    SextetRoundTrip(b % 16 * 4 + c / 64);
    SextetRoundTrip(c % 64);
  }

  lemma {:induction false} DecodeDigitsOfDigits(b: seq<Byte>)
    ensures forall i :: 0 <= i < |Digits(b)| ==> IsBase64Char(Digits(b)[i])
    ensures |Digits(b)| % 4 != 1
    ensures DecodeDigits(Digits(b)) == b
  {
    DigitsShape(b);
    if |b| == 1 {
      DecodeDigitsOfShortGroup(b);
    } else if |b| == 2 {
      DecodeDigitsOfShortGroup(b);
    } else if |b| >= 3 {
      var t, e := Digits(b), EncodeTriple(b[0], b[1], b[2]);
      QuadOfTriple(b[0], b[1], b[2]);
      DecodeDigitsOfDigits(b[3..]);
      assert t[..4] == e && t[4..] == Digits(b[3..]);
      assert DecodeDigits(t) == [b[0], b[1], b[2]] + b[3..];
      assert [b[0], b[1], b[2]] + b[3..] == b;
    }
  }

  /** A final group of one or two bytes: its two or three digits decode back to it. */
  lemma DecodeDigitsOfShortGroup(b: seq<Byte>)
    requires |b| == 1 || |b| == 2
    ensures forall i :: 0 <= i < |Digits(b)| ==> IsBase64Char(Digits(b)[i])
    ensures |Digits(b)| % 4 != 1
    ensures DecodeDigits(Digits(b)) == b
  {
    var t := Digits(b);
    if |b| == 1 {
      var e := EncodeTriple(b[0], 0, 0);
      QuadOfTriple(b[0], 0, 0);
      assert t == e[..2];
      assert DecodeDigits(t) == DecodeQuad(e[0], e[1], 65, 65)[..1];
      assert DecodeQuad(e[0], e[1], 65, 65)[0] == DecodeQuad(e[0], e[1], e[2], e[3])[0];
    } else {
      var e := EncodeTriple(b[0], b[1], 0);
      QuadOfTriple(b[0], b[1], 0);
      assert t == e[..3];
      assert DecodeDigits(t) == DecodeQuad(e[0], e[1], e[2], 65)[..2];
      assert DecodeQuad(e[0], e[1], e[2], 65)[..2] == DecodeQuad(e[0], e[1], e[2], e[3])[..2];
    }
  }

  lemma {:induction false} RemoveWhitespaceKeeps(s: seq<CodeUnit>)
    requires forall i :: 0 <= i < |s| ==> !IsAsciiWhitespace(s[i])
    ensures RemoveWhitespace(s) == s
  {
    if s != [] {
      RemoveWhitespaceKeeps(s[1..]);
      assert [s[0]] + s[1..] == s;
    }
  }

  /** Stripping the padding of `btoa`'s output leaves exactly the digits. */
  lemma StripPaddingOfBtoa(b: seq<Byte>)
    ensures StripPadding(Btoa(b)) == Digits(b)
  {
    DigitsAlphabet(b);
    PaddingFits(b);
    StripPaddingAfterDigits(Digits(b), Padding(|b|));
  }

  /** The padding is at most two '=', follows at least two digits, and completes a multiple of four. */
  lemma PaddingFits(b: seq<Byte>)
    ensures var d, p := Digits(b), Padding(|b|);
      && (p == [] || p == [Pad] || p == [Pad, Pad])
      && (p != [] ==> |d| >= 2)
      && |d + p| % 4 == 0
  {
    var d, p, m := Digits(b), Padding(|b|), |b| % 3;
    DigitsShape(b);
    var k := (|b| + 2) / 3;
    assert |d + p| == k * 4 + 0;
    DivModUnique(k, 0, 4);
  }

  /** Padding of at most two '=' after alphabet digits, up to a multiple of four, is exactly what is stripped. */
  lemma StripPaddingAfterDigits(d: seq<CodeUnit>, p: seq<CodeUnit>)
    requires forall i :: 0 <= i < |d| ==> IsBase64Char(d[i])
    requires p == [] || p == [Pad] || p == [Pad, Pad]
    requires |d + p| % 4 == 0 && (p != [] ==> |d| >= 2)
    ensures StripPadding(d + p) == d
  {
    var e := d + p;
    if p == [Pad, Pad] {
      assert e[..|e| - 2] == d;
    } else if p == [Pad] {
      assert e[|e| - 2] == d[|d| - 1];
      assert e[..|e| - 1] == d;
    } else {
      assert e == d;
      if |d| > 0 { assert IsBase64Char(d[|d| - 1]); }
    }
  }

  /** `atob` reads back every byte string that `btoa` writes. */
  lemma AtobBtoa(b: seq<Byte>)
    ensures Atob(Btoa(b)) == Some(b)
  {
    BtoaShape(b);
    DecodeDigitsOfDigits(b);
    RemoveWhitespaceKeeps(Btoa(b));
    StripPaddingOfBtoa(b);
  }
}
