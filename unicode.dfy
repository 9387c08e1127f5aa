/**
 * The Unicode encoding forms that the share-URL codec passes through.
 * A JavaScript string is a sequence of UTF-16 code units in which lone
 * surrogates may occur; `encodeURIComponent` turns it into UTF-8 (RFC 3629)
 * and `decodeURIComponent` turns UTF-8 back into code units. Both meet in
 * the sequence of Unicode scalar values.
 */
module Unicode {
  import opened Wrappers

  newtype Byte = x: int | 0 <= x < 0x100
  newtype CodeUnit = x: int | 0 <= x < 0x1_0000

  /** A JavaScript string: UTF-16 code units, not necessarily well formed. */
  type JsString = seq<CodeUnit>

  /** A Unicode scalar value: a code point that is not a surrogate. */
  type Scalar = c: int | 0 <= c < 0xD800 || 0xE000 <= c < 0x11_0000

  predicate IsHighSurrogate(u: CodeUnit) { 0xD800 <= u < 0xDC00 }
  predicate IsLowSurrogate(u: CodeUnit) { 0xDC00 <= u < 0xE000 }
  predicate IsSurrogate(u: CodeUnit) { 0xD800 <= u < 0xE000 }

  /** Division by a positive constant recovers the quotient and the remainder. */
  lemma DivModUnique(q: int, r: int, d: int)
    requires d > 0 && 0 <= r < d
    ensures (q * d + r) / d == q && (q * d + r) % d == r
  {
    var a := q * d + r;
    var q', r' := a / d, a % d;
    assert a == q' * d + r';
    assert (q' - q) * d == r - r';
    if q' > q {
      MulAtLeast(q' - q, d);
    } else if q' < q {
      MulAtLeast(q - q', d);
    }
  }

  lemma MulAtLeast(k: int, d: int)
    requires k >= 1 && d > 0
    ensures k * d >= d
  {
  }

  // ---------------------------------------------------------------- UTF-16

  /** One scalar value as one code unit, or as a surrogate pair above U+FFFF. */
  function EncodeScalarUtf16(c: Scalar): JsString
  {
    if c < 0x1_0000 then [c as CodeUnit]
    else
      [(0xD800 + (c - 0x1_0000) / 0x400) as CodeUnit,
       (0xDC00 + (c - 0x1_0000) % 0x400) as CodeUnit]
  }

  function EncodeUtf16(cs: seq<Scalar>): JsString
  {
    if cs == [] then [] else EncodeScalarUtf16(cs[0]) + EncodeUtf16(cs[1..])
  }

  /** Pairs surrogates into scalar values; None on a lone surrogate. */
  function DecodeUtf16(s: JsString): Option<seq<Scalar>>
    decreases |s|
  {
    if s == [] then Some([])
    else if !IsSurrogate(s[0]) then
      match DecodeUtf16(s[1..])
      case None => None
      case Some(rest) => Some([s[0] as int] + rest)
    else if IsHighSurrogate(s[0]) && |s| >= 2 && IsLowSurrogate(s[1]) then
      match DecodeUtf16(s[2..])
      case None => None
      case Some(rest) =>
        Some([0x1_0000 + (s[0] as int - 0xD800) * 0x400 + (s[1] as int - 0xDC00)] + rest)
    else None
  }

  /** Every high surrogate is followed by a low one and every low surrogate follows a high one. */
  ghost predicate WellFormedUtf16(s: JsString) {
    && (forall i :: 0 <= i < |s| && IsHighSurrogate(s[i]) ==> i + 1 < |s| && IsLowSurrogate(s[i + 1]))
    && (forall i :: 0 <= i < |s| && IsLowSurrogate(s[i]) ==> 0 < i && IsHighSurrogate(s[i - 1]))
  }

  lemma {:induction false} DecodeEncodeUtf16(cs: seq<Scalar>)
    ensures DecodeUtf16(EncodeUtf16(cs)) == Some(cs)
  {
    if cs != [] {
      var c := cs[0];
      var s := EncodeUtf16(cs);
      DecodeEncodeUtf16(cs[1..]);
      if c < 0x1_0000 {
        assert s[0] == c as CodeUnit && !IsSurrogate(s[0]);
        assert s[1..] == EncodeUtf16(cs[1..]);
        assert [c] + cs[1..] == cs;
      } else {
        var v := c as int - 0x1_0000;
        assert s[2..] == EncodeUtf16(cs[1..]);
        assert v / 0x400 * 0x400 + v % 0x400 == v;
        assert [c] + cs[1..] == cs;
      }
    }
  }

  lemma {:induction false} EncodeDecodeUtf16(s: JsString)
    requires DecodeUtf16(s).Some?
    ensures EncodeUtf16(DecodeUtf16(s).value) == s
  {
    if s != [] {
      var cs := DecodeUtf16(s).value;
      if !IsSurrogate(s[0]) {
        EncodeDecodeUtf16(s[1..]);
        assert cs[1..] == DecodeUtf16(s[1..]).value;
        assert s == [s[0]] + s[1..];
      } else {
        EncodeDecodeUtf16(s[2..]);
        assert cs[1..] == DecodeUtf16(s[2..]).value;
        var h, l := s[0] as int - 0xD800, s[1] as int - 0xDC00;
        DivModUnique(h, l, 0x400);
        assert EncodeScalarUtf16(cs[0]) == s[..2];
        assert s == s[..2] + s[2..];
      }
    }
  }

  /** Decoding succeeds exactly on the strings without lone surrogates. */
  lemma {:induction false} DecodeUtf16Succeeds(s: JsString)
    ensures DecodeUtf16(s).Some? <==> WellFormedUtf16(s)
    decreases |s|
  {
    if s == [] {
    } else if !IsSurrogate(s[0]) {
      DecodeUtf16Succeeds(s[1..]);
      WellFormedShift(s, 1);
    } else if IsHighSurrogate(s[0]) && |s| >= 2 && IsLowSurrogate(s[1]) {
      DecodeUtf16Succeeds(s[2..]);
      WellFormedShift(s, 2);
    } else if IsHighSurrogate(s[0]) {
      assert !WellFormedUtf16(s) by { assert IsHighSurrogate(s[0]); }
    } else {
      assert !WellFormedUtf16(s) by { assert IsLowSurrogate(s[0]); }
    }
  }

  /** Dropping a leading code unit that is not a surrogate, or a leading pair, keeps well-formedness. */
  lemma WellFormedShift(s: JsString, k: nat)
    requires 1 <= k <= 2 && k <= |s|
    requires k == 1 ==> !IsSurrogate(s[0])
    requires k == 2 ==> IsHighSurrogate(s[0]) && IsLowSurrogate(s[1])
    ensures WellFormedUtf16(s) <==> WellFormedUtf16(s[k..])
  {
    var t := s[k..];
    if WellFormedUtf16(t) {
      forall i | 0 <= i < |s| && IsHighSurrogate(s[i])
        ensures i + 1 < |s| && IsLowSurrogate(s[i + 1])
      {
        if i >= k { assert t[i - k] == s[i]; }
      }
      forall i | 0 <= i < |s| && IsLowSurrogate(s[i])
        ensures 0 < i && IsHighSurrogate(s[i - 1])
      {
        if i > k { assert t[i - k] == s[i]; }
        else if i == k { assert false; }
      }
    }
    if WellFormedUtf16(s) {
      forall i | 0 <= i < |t| && IsHighSurrogate(t[i])
        ensures i + 1 < |t| && IsLowSurrogate(t[i + 1])
      {
        assert s[i + k] == t[i];
      }
      forall i | 0 <= i < |t| && IsLowSurrogate(t[i])
        ensures 0 < i && IsHighSurrogate(t[i - 1])
      {
        assert s[i + k] == t[i];
      }
    }
  }

  /** A Dafny string holds scalar values only. */
  function ScalarsOf(s: string): (r: seq<Scalar>)
    ensures |r| == |s|
    ensures forall i :: 0 <= i < |s| ==> r[i] == s[i] as int
  {
    if s == [] then [] else [s[0] as int] + ScalarsOf(s[1..])
  }

  /** The UTF-16 form of a string of scalar values, as JavaScript stores it. */
  function ToJs(s: string): (r: JsString)
    ensures DecodeUtf16(r) == Some(ScalarsOf(s))
  {
    DecodeEncodeUtf16(ScalarsOf(s));
    EncodeUtf16(ScalarsOf(s))
  }

  /** The characters of a sequence of scalar values. */
  function CharsOf(cs: seq<Scalar>): (r: string)
    ensures |r| == |cs|
    ensures forall i :: 0 <= i < |cs| ==> r[i] as int == cs[i]
  {
    if cs == [] then [] else [cs[0] as char] + CharsOf(cs[1..])
  }

  /** The text a JavaScript string holds, or None when it has a lone surrogate. */
  function FromJs(s: JsString): (r: Option<string>)
    ensures r.Some? <==> WellFormedUtf16(s)
  {
    DecodeUtf16Succeeds(s);
    match DecodeUtf16(s)
    case None => None
    case Some(cs) => Some(CharsOf(cs))
  }

  /** Reading back the UTF-16 form of a string gives the string. */
  lemma FromJsToJs(s: string)
    ensures FromJs(ToJs(s)) == Some(s)
  {
    var r := CharsOf(ScalarsOf(s));
    assert forall i :: 0 <= i < |s| ==> r[i] as int == s[i] as int;
    assert r == s;
  }

  // ----------------------------------------------------------------- UTF-8

  predicate IsContinuation(b: Byte) { 0x80 <= b < 0xC0 }

  /** The shortest UTF-8 form of one scalar value (RFC 3629, section 3). */
  function EncodeScalarUtf8(c: Scalar): seq<Byte>
  {
    if c < 0x80 then [c as Byte]
    else if c < 0x800 then
      [(0xC0 + c / 0x40) as Byte, (0x80 + c % 0x40) as Byte]
    else if c < 0x1_0000 then
      [(0xE0 + c / 0x1000) as Byte, (0x80 + c / 0x40 % 0x40) as Byte, (0x80 + c % 0x40) as Byte]
    else
      [(0xF0 + c / 0x4_0000) as Byte, (0x80 + c / 0x1000 % 0x40) as Byte,
       (0x80 + c / 0x40 % 0x40) as Byte, (0x80 + c % 0x40) as Byte]
  }

  function EncodeUtf8(cs: seq<Scalar>): seq<Byte>
  {
    if cs == [] then [] else EncodeScalarUtf8(cs[0]) + EncodeUtf8(cs[1..])
  }

  /**
   * The first scalar value of `bs` and its length in bytes. None when `bs`
   * does not start with a well-formed sequence: a stray continuation byte, a
   * lead byte of five or more leading ones, a truncated sequence, a missing
   * continuation byte, an overlong form, a surrogate or a value above U+10FFFF.
   * Whatever it accepts is exactly the shortest encoding of the value.
   */
  function DecodeScalarUtf8(bs: seq<Byte>): (r: Option<(Scalar, nat)>)
    requires |bs| > 0
    ensures r.Some? ==> 1 <= r.value.1 <= |bs| && bs[..r.value.1] == EncodeScalarUtf8(r.value.0)
  {
    var b0 := bs[0] as int;
    if b0 < 0x80 then
      Some((b0, 1))
    else if b0 < 0xC0 then
      None
    else if b0 < 0xE0 then
      if |bs| < 2 || !IsContinuation(bs[1]) then None
      else
        var c := (b0 - 0xC0) * 0x40 + (bs[1] as int - 0x80);
        if c < 0x80 then None
        else
          DivModUnique(b0 - 0xC0, bs[1] as int - 0x80, 0x40);
          Some((c, 2))
    else if b0 < 0xF0 then
      if |bs| < 3 || !IsContinuation(bs[1]) || !IsContinuation(bs[2]) then None
      else
        var c := (b0 - 0xE0) * 0x1000 + (bs[1] as int - 0x80) * 0x40 + (bs[2] as int - 0x80);
        if c < 0x800 || 0xD800 <= c < 0xE000 then None
        else
          ThreeByteFields(b0 - 0xE0, bs[1] as int - 0x80, bs[2] as int - 0x80);
          Some((c, 3))
    else if b0 < 0xF8 then
      if |bs| < 4 || !IsContinuation(bs[1]) || !IsContinuation(bs[2]) || !IsContinuation(bs[3]) then None
      else
        var c := (b0 - 0xF0) * 0x4_0000 + (bs[1] as int - 0x80) * 0x1000
                 + (bs[2] as int - 0x80) * 0x40 + (bs[3] as int - 0x80);
        if c < 0x1_0000 || c >= 0x11_0000 then None
        else
          FourByteFields(b0 - 0xF0, bs[1] as int - 0x80, bs[2] as int - 0x80, bs[3] as int - 0x80);
          Some((c, 4))
    else
      None
  }

  lemma ThreeByteFields(x: int, y: int, z: int)
    requires 0 <= x < 0x10 && 0 <= y < 0x40 && 0 <= z < 0x40
    ensures var c := x * 0x1000 + y * 0x40 + z;
      c / 0x1000 == x && c / 0x40 % 0x40 == y && c % 0x40 == z
  {
    var c := x * 0x1000 + y * 0x40 + z;
    DivModUnique(x * 0x40 + y, z, 0x40);
    assert c == (x * 0x40 + y) * 0x40 + z;
    DivModUnique(x, y, 0x40);
    DivModUnique(x, y * 0x40 + z, 0x1000);
  }

  lemma FourByteFields(w: int, x: int, y: int, z: int)
    requires 0 <= w < 0x8 && 0 <= x < 0x40 && 0 <= y < 0x40 && 0 <= z < 0x40
    ensures var c := w * 0x4_0000 + x * 0x1000 + y * 0x40 + z;
      c / 0x4_0000 == w && c / 0x1000 % 0x40 == x && c / 0x40 % 0x40 == y && c % 0x40 == z
  {
    var c := w * 0x4_0000 + x * 0x1000 + y * 0x40 + z;
    var hi := w * 0x40 + x;
    assert c == (hi * 0x40 + y) * 0x40 + z;
    DivModUnique(hi * 0x40 + y, z, 0x40);
    DivModUnique(hi, y, 0x40);
    DivModUnique(w, x, 0x40);
    assert c == hi * 0x1000 + (y * 0x40 + z);
    DivModUnique(hi, y * 0x40 + z, 0x1000);
    assert c == w * 0x4_0000 + (x * 0x1000 + y * 0x40 + z);
    DivModUnique(w, x * 0x1000 + y * 0x40 + z, 0x4_0000);
  }

  /** Strict UTF-8 decoding, as `decodeURIComponent` does it; None on any malformed sequence. */
  function DecodeUtf8(bs: seq<Byte>): Option<seq<Scalar>>
    decreases |bs|
  {
    if bs == [] then Some([])
    else
      match DecodeScalarUtf8(bs)
      case None => None
      case Some((c, n)) =>
        match DecodeUtf8(bs[n..])
        case None => None
        case Some(rest) => Some([c] + rest)
  }

  /** The decoder reads back the scalar value that leads an encoding. */
  lemma DecodeScalarOfEncoding(c: Scalar, rest: seq<Byte>)
    ensures DecodeScalarUtf8(EncodeScalarUtf8(c) + rest) == Some((c, |EncodeScalarUtf8(c)|))
  {
    if c < 0x80 {
      assert (EncodeScalarUtf8(c) + rest)[0] == c as Byte;
    } else if c < 0x800 {
      DecodeTwoByteEncoding(c, rest);
    } else if c < 0x1_0000 {
      DecodeThreeByteEncoding(c, rest);
    } else {
      DecodeFourByteEncoding(c, rest);
    }
  }

  lemma DecodeTwoByteEncoding(c: Scalar, rest: seq<Byte>)
    requires 0x80 <= c < 0x800
    ensures DecodeScalarUtf8(EncodeScalarUtf8(c) + rest) == Some((c, 2))
  {
    var e := EncodeScalarUtf8(c);
    var bs := e + rest;
    assert bs[0] == e[0] && bs[1] == e[1];
    assert c / 0x40 * 0x40 + c % 0x40 == c;
  }

  lemma DecodeThreeByteEncoding(c: Scalar, rest: seq<Byte>)
    requires 0x800 <= c < 0x1_0000
    ensures DecodeScalarUtf8(EncodeScalarUtf8(c) + rest) == Some((c, 3))
  {
    var e := EncodeScalarUtf8(c);
    var bs := e + rest;
    assert bs[0] == e[0] && bs[1] == e[1] && bs[2] == e[2];
    assert c / 0x40 == c / 0x1000 * 0x40 + c / 0x40 % 0x40;
    assert c == c / 0x40 * 0x40 + c % 0x40;
  }

  lemma DecodeFourByteEncoding(c: Scalar, rest: seq<Byte>)
    requires 0x1_0000 <= c
    ensures DecodeScalarUtf8(EncodeScalarUtf8(c) + rest) == Some((c, 4))
  {
    var e := EncodeScalarUtf8(c);
    var bs := e + rest;
    var w, x, y, z := c / 0x4_0000, c / 0x1000 % 0x40, c / 0x40 % 0x40, c % 0x40;
    assert c == w * 0x4_0000 + x * 0x1000 + y * 0x40 + z by {
      assert c / 0x1000 == w * 0x40 + x;
      assert c / 0x40 == c / 0x1000 * 0x40 + y;
      assert c == c / 0x40 * 0x40 + z;
    }
    assert w < 8;
    assert e == [(0xF0 + w) as Byte, (0x80 + x) as Byte, (0x80 + y) as Byte, (0x80 + z) as Byte];
    assert bs[0] == e[0] && bs[1] == e[1] && bs[2] == e[2] && bs[3] == e[3];
  }

  lemma {:induction false} DecodeEncodeUtf8(cs: seq<Scalar>)
    ensures DecodeUtf8(EncodeUtf8(cs)) == Some(cs)
  {
    if cs != [] {
      var e, tail := EncodeScalarUtf8(cs[0]), EncodeUtf8(cs[1..]);
      DecodeScalarOfEncoding(cs[0], tail);
      assert (e + tail)[|e|..] == tail;
      DecodeEncodeUtf8(cs[1..]);
      assert [cs[0]] + cs[1..] == cs;
    }
  }

  /** Whatever the decoder accepts is the encoding of what it returns. */
  lemma {:induction false} EncodeDecodeUtf8(bs: seq<Byte>)
    requires DecodeUtf8(bs).Some?
    ensures EncodeUtf8(DecodeUtf8(bs).value) == bs
    decreases |bs|
  {
    if bs != [] {
      var n := DecodeScalarUtf8(bs).value.1;
      EncodeDecodeUtf8(bs[n..]);
      assert DecodeUtf8(bs).value[1..] == DecodeUtf8(bs[n..]).value;
      assert bs == bs[..n] + bs[n..];
    }
  }
}
