/**
 * The share-URL codec (src/utils/encode.ts). `utoa` is
 * `btoa(unescape(encodeURIComponent(s)))`: `encodeURIComponent` writes the
 * UTF-8 bytes of `s` as %XX escapes and throws a URIError on a lone
 * surrogate, `unescape` turns each %XX back into the single code unit XX, so
 * `btoa` receives exactly the UTF-8 bytes. `atou` is
 * `decodeURIComponent(escape(atob(s)))`: `atob` yields one code unit per
 * byte, `escape` writes them as %XX, and `decodeURIComponent` decodes the
 * bytes as UTF-8, throwing a URIError when they are malformed.
 */
module Encode {
  import opened Wrappers
  import opened Unicode
  import opened Base64

  /** The exceptions the browser built-ins throw. */
  datatype CodecError =
    | URIError               // lone surrogate in, or malformed UTF-8 out
    | InvalidCharacterError  // `atob` on text that is not Base64

  /** `utoa`: the Base64 form of the UTF-8 bytes of `s`. */
  function Utoa(s: JsString): (r: Result<JsString, CodecError>)
    ensures r.Err? <==> !WellFormedUtf16(s)
    ensures r.Err? ==> r.error == URIError
    ensures r.Ok? ==> forall i :: 0 <= i < |r.value| ==> IsBase64Char(r.value[i]) || r.value[i] == Pad
  {
    DecodeUtf16Succeeds(s);
    match DecodeUtf16(s)
    case None => Err(URIError)
    case Some(cs) =>
      BtoaShape(EncodeUtf8(cs));
      Ok(Btoa(EncodeUtf8(cs)))
  }

  /** `atou`: the string whose UTF-8 bytes `s` encodes in Base64. */
  function Atou(s: JsString): (r: Result<JsString, CodecError>)
    ensures r == Err(InvalidCharacterError) <==> Atob(s).None?
    ensures r == Err(URIError) <==> Atob(s).Some? && DecodeUtf8(Atob(s).value).None?
    ensures r.Ok? ==> WellFormedUtf16(r.value)
  {
    match Atob(s)
    case None => Err(InvalidCharacterError)
    case Some(bytes) =>
      match DecodeUtf8(bytes)
      case None => Err(URIError)
      case Some(cs) =>
        DecodeEncodeUtf16(cs);
        DecodeUtf16Succeeds(EncodeUtf16(cs));
        Ok(EncodeUtf16(cs))
  }

  /** `atou(utoa(s)) == s` for every string without lone surrogates. */
  lemma AtouUtoa(s: JsString)
    requires WellFormedUtf16(s)
    ensures Utoa(s).Ok? && Atou(Utoa(s).value) == Ok(s)
  {
    DecodeUtf16Succeeds(s);
    var cs := DecodeUtf16(s).value;
    AtobBtoa(EncodeUtf8(cs));
    DecodeEncodeUtf8(cs);
    EncodeDecodeUtf16(s);
  }

  /**
   * Whatever `atou` accepts, `utoa` maps back to the padded Base64 of the
   * same bytes; so a canonical `btoa` text comes back unchanged.
   */
  lemma UtoaAtou(t: JsString)
    requires Atou(t).Ok?
    ensures Utoa(Atou(t).value) == Ok(Btoa(Atob(t).value))
    ensures (exists b :: t == Btoa(b)) ==> Utoa(Atou(t).value) == Ok(t)
  {
    var bytes := Atob(t).value;
    var cs := DecodeUtf8(bytes).value;
    DecodeEncodeUtf16(cs);
    EncodeDecodeUtf8(bytes);
    if b :| t == Btoa(b) {
      AtobBtoa(b);
    }
  }

  /** `utoa` output is 4 * ceil(n / 3) characters for the n UTF-8 bytes of its input. */
  lemma UtoaLength(s: JsString)
    requires WellFormedUtf16(s)
    ensures DecodeUtf16(s).Some?
    ensures |Utoa(s).value| == 4 * ((|EncodeUtf8(DecodeUtf16(s).value)| + 2) / 3)
  {
    DecodeUtf16Succeeds(s);
    BtoaShape(EncodeUtf8(DecodeUtf16(s).value));
  }

  /** Text made of scalar values, as `JSON.stringify` produces, always encodes and decodes back. */
  lemma TextRoundTrip(s: string)
    ensures Utoa(ToJs(s)).Ok? && Atou(Utoa(ToJs(s)).value) == Ok(ToJs(s))
  {
    DecodeUtf16Succeeds(ToJs(s));
    AtouUtoa(ToJs(s));
  }
}
