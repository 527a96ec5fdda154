/** JavaScript strings: sequences of UTF-16 code units, which may hold unpaired surrogates. */
module JsStrings {

  type CodeUnit = x: int | 0 <= x < 0x1_0000
  type JsString = seq<CodeUnit>

  predicate IsAscii(s: string) {
    forall i :: 0 <= i < |s| ==> s[i] as int < 0x80
  }

  /** A Unicode scalar value: a code point that is not a surrogate. */
  predicate IsScalar(cp: int) { 0 <= cp <= 0x10FFFF && !(0xD800 <= cp <= 0xDFFF) }

  /** UTF16EncodeCodePoint of ECMA-262: one code unit, or a surrogate pair above the Basic Multilingual Plane. */
  function Utf16Encode(cp: int): (r: JsString)
    requires IsScalar(cp)
  {
    if cp < 0x10000 then [cp]
    else
      var v := cp - 0x10000;
      assert v / 0x400 < 0x400;
      [0xD800 + v / 0x400, 0xDC00 + v % 0x400]
  }

  /**
   * The code units of a string literal. Every literal of this model is ASCII,
   * where each character is its own code unit; a character beyond the Basic
   * Multilingual Plane, which would need two, is not expected and reads as U+FFFD.
   */
  function Lit(s: string): (r: JsString)
    ensures |r| == |s|
    ensures forall i :: 0 <= i < |s| && s[i] as int < 0x1_0000 ==> r[i] == s[i] as int
  {
    seq(|s|, i requires 0 <= i < |s| => if s[i] as int < 0x1_0000 then s[i] as int else 0xFFFD)
  }

  predicate IsHighSurrogate(c: CodeUnit) { 0xD800 <= c <= 0xDBFF }

  predicate IsLowSurrogate(c: CodeUnit) { 0xDC00 <= c <= 0xDFFF }

  /** The line terminators of ECMAScript, which the regular-expression atom `.` does not match. */
  predicate IsLineTerminator(c: CodeUnit) {
    c == 0x0A || c == 0x0D || c == 0x2028 || c == 0x2029
  }

  /** The code unit at `i` is not a surrogate missing its other half. */
  predicate PairedAt(s: JsString, i: int)
    requires 0 <= i < |s|
  {
    (IsHighSurrogate(s[i]) ==> i + 1 < |s| && IsLowSurrogate(s[i + 1])) &&
    (IsLowSurrogate(s[i]) ==> 0 < i && IsHighSurrogate(s[i - 1]))
  }

  /** No high surrogate without a low one after it, and no low surrogate without a high one before it. */
  predicate NoLoneSurrogates(s: JsString) {
    forall i :: 0 <= i < |s| ==> PairedAt(s, i)
  }
}
