/**
 * `encodeURIComponent` and its inverse `decodeURIComponent`, after section 19.2.6
 * of ECMA-262 (URI Handling Functions). Strings are sequences of UTF-16 code
 * units; the encoder keeps the unreserved marks of section 2.3 of RFC 2396 and
 * writes every other code point as the `%XX` triplets of its UTF-8 bytes.
 */
module Uri {
  import opened Wrappers
  import opened JsStrings

  datatype UriError = URIError

  /** `A-Z a-z 0-9 - _ . ! ~ * ' ( )`: the code units `encodeURIComponent` leaves alone. */
  predicate IsUnreserved(c: CodeUnit) {
    ('A' as int <= c <= 'Z' as int) || ('a' as int <= c <= 'z' as int) || ('0' as int <= c <= '9' as int) ||
    c == '-' as int || c == '_' as int || c == '.' as int || c == '!' as int || c == '~' as int ||
    c == '*' as int || c == '\'' as int || c == '(' as int || c == ')' as int
  }

  const Percent: CodeUnit := '%' as int

  predicate IsByte(b: int) { 0 <= b < 0x100 }

  predicate AreBytes(bs: seq<int>) { forall i :: 0 <= i < |bs| ==> IsByte(bs[i]) }

  /** The result of ECMA-262's CodePointAt at the start of a string. */
  datatype CodePoint = CodePoint(value: int, units: nat, unpaired: bool)

  function CodePointAt(s: JsString): (c: CodePoint)
    requires |s| > 0
    ensures c.units == 1 || c.units == 2
    ensures c.units <= |s|
    ensures !c.unpaired ==> IsScalar(c.value)
  {
    var first := s[0];
    if !IsHighSurrogate(first) && !IsLowSurrogate(first) then CodePoint(first, 1, false)
    else if IsLowSurrogate(first) || |s| == 1 || !IsLowSurrogate(s[1]) then CodePoint(first, 1, true)
    else CodePoint(0x10000 + (first as int - 0xD800) * 0x400 + (s[1] as int - 0xDC00), 2, false)
  }

  /** The UTF-8 bytes of a scalar value (section 3 of RFC 3629). */
  function Utf8Encode(cp: int): (bs: seq<int>)
    requires IsScalar(cp)
    ensures 1 <= |bs| <= 4 && AreBytes(bs)
  {
    if cp < 0x80 then [cp]
    else if cp < 0x800 then [0xC0 + cp / 0x40, 0x80 + cp % 0x40]
    else if cp < 0x10000 then [0xE0 + cp / 0x1000, 0x80 + (cp / 0x40) % 0x40, 0x80 + cp % 0x40]
    else [0xF0 + cp / 0x40000, 0x80 + (cp / 0x1000) % 0x40, 0x80 + (cp / 0x40) % 0x40, 0x80 + cp % 0x40]
  }

  /** An upper-case hexadecimal digit. */
  function HexDigit(d: int): (c: CodeUnit)
    requires 0 <= d < 16
  {
    if d < 10 then '0' as int + d else 'A' as int + (d - 10)
  }

  predicate IsUpperHex(c: CodeUnit) {
    ('0' as int <= c <= '9' as int) || ('A' as int <= c <= 'F' as int)
  }

  /** `%XX` for every byte, with upper-case hexadecimal digits. */
  function PercentEncode(bs: seq<int>): (t: JsString)
    requires AreBytes(bs)
    ensures |t| == 3 * |bs|
  {
    if bs == [] then [] else [Percent, HexDigit(bs[0] / 16), HexDigit(bs[0] % 16)] + PercentEncode(bs[1..])
  }

  /** encodeURIComponent: throws URIError on an unpaired surrogate. */
  function EncodeUriComponent(s: JsString): Result<JsString, UriError>
    decreases |s|
  {
    if s == [] then Success([])
    else if IsUnreserved(s[0]) then
      var rest :- EncodeUriComponent(s[1..]);
      Success([s[0]] + rest)
    else
      var c := CodePointAt(s);
      if c.unpaired then Failure(URIError)
      else
        var rest :- EncodeUriComponent(s[c.units..]);
        Success(PercentEncode(Utf8Encode(c.value)) + rest)
  }

  /** Only unreserved code units and `%XX` triplets with upper-case hexadecimal digits. */
  predicate IsPercentEncodedForm(t: JsString)
    decreases |t|
  {
    t == [] ||
    (IsUnreserved(t[0]) && IsPercentEncodedForm(t[1..])) ||
    (|t| >= 3 && t[0] == Percent && IsUpperHex(t[1]) && IsUpperHex(t[2]) && IsPercentEncodedForm(t[3..]))
  }

  // ---------------------------------------------------------------------------
  // decodeURIComponent

  function HexValue(c: CodeUnit): Option<int> {
    if '0' as int <= c <= '9' as int then Some(c - '0' as int)
    else if 'A' as int <= c <= 'F' as int then Some(c - 'A' as int + 10)
    else if 'a' as int <= c <= 'f' as int then Some(c - 'a' as int + 10)
    else None
  }

  /** The byte written as `%XX` at the start of `t`, if there is one. */
  function ParseOctet(t: JsString): (r: Option<int>)
    ensures r.Some? ==> |t| >= 3 && IsByte(r.value)
  {
    if |t| < 3 || t[0] != Percent then None
    else match (HexValue(t[1]), HexValue(t[2]))
      case (Some(hi), Some(lo)) =>
        if 0 <= hi < 16 && 0 <= lo < 16 then Some(hi * 16 + lo) else None
      case _ => None
  }

  /** The `n` bytes written as `%XX` triplets at the start of `t`. */
  function ParseOctets(t: JsString, n: nat): (r: Option<seq<int>>)
    ensures r.Some? ==> |t| >= 3 * n && |r.value| == n && AreBytes(r.value)
    decreases n
  {
    if n == 0 then Some([])
    else
      var b :- ParseOctet(t);
      var rest :- ParseOctets(t[3..], n - 1);
      Some([b] + rest)
  }

  /** The number of leading one bits of a byte. */
  function LeadingOnes(b: int): nat
    requires IsByte(b)
  {
    if b < 0x80 then 0 else if b < 0xC0 then 1 else if b < 0xE0 then 2 else if b < 0xF0 then 3
    else if b < 0xF8 then 4 else if b < 0xFC then 5 else if b < 0xFE then 6 else if b < 0xFF then 7 else 8
  }

  predicate IsContinuation(b: int) { 0x80 <= b < 0xC0 }

  /** The code point whose bits a lead byte and its continuation bytes carry. */
  function Utf8Bits(bs: seq<int>): int
    requires 1 <= |bs| <= 4
  {
    if |bs| == 1 then bs[0]
    else if |bs| == 2 then (bs[0] - 0xC0) * 0x40 + (bs[1] - 0x80)
    else if |bs| == 3 then (bs[0] - 0xE0) * 0x1000 + (bs[1] - 0x80) * 0x40 + (bs[2] - 0x80)
    else (bs[0] - 0xF0) * 0x40000 + (bs[1] - 0x80) * 0x1000 + (bs[2] - 0x80) * 0x40 + (bs[3] - 0x80)
  }

  /** decodeURIComponent: throws URIError on a malformed escape or an invalid UTF-8 sequence. */
  function DecodeUriComponent(t: JsString): Result<JsString, UriError>
    decreases |t|
  {
    if t == [] then Success([])
    else if t[0] != Percent then
      var rest :- DecodeUriComponent(t[1..]);
      Success([t[0]] + rest)
    else match ParseOctet(t)
      case None => Failure(URIError)
      case Some(b) =>
        if b < 0x80 then
          var rest :- DecodeUriComponent(t[3..]);
          Success([b] + rest)
        else
          var n := LeadingOnes(b);
          if n == 1 || n > 4 then Failure(URIError)
          else match ParseOctets(t, n)
            case None => Failure(URIError)
            case Some(bs) =>
              var cp := Utf8Bits(bs);
              if !(forall i :: 1 <= i < n ==> IsContinuation(bs[i])) || !IsScalar(cp) || Utf8Encode(cp) != bs then
                Failure(URIError)
              else
                var rest :- DecodeUriComponent(t[3 * n..]);
                Success(Utf16Encode(cp) + rest)
  }

  // ---------------------------------------------------------------------------
  // Properties

  /** encodeURIComponent throws exactly on strings that hold an unpaired surrogate. */
  lemma {:induction false} EncodeSucceedsIff(s: JsString)
    ensures EncodeUriComponent(s).Success? <==> NoLoneSurrogates(s)
    decreases |s|
  {
    if s != [] {
      var c := CodePointAt(s);
      if IsUnreserved(s[0]) || !c.unpaired {
        var k := if IsUnreserved(s[0]) then 1 else c.units;
        NoLoneSurrogatesStep(s, k);
        EncodeSucceedsIff(s[k..]);
      } else {
        assert !PairedAt(s, 0);
      }
    }
  }

  /** Cutting off a whole leading code point keeps "no lone surrogates" in both directions. */
  lemma NoLoneSurrogatesStep(s: JsString, k: nat)
    requires |s| > 0
    requires (k == 1 && !IsHighSurrogate(s[0]) && !IsLowSurrogate(s[0])) ||
             (k == 2 && |s| >= 2 && IsHighSurrogate(s[0]) && IsLowSurrogate(s[1]))
    ensures NoLoneSurrogates(s) <==> NoLoneSurrogates(s[k..])
  {
    var t := s[k..];
    if NoLoneSurrogates(s) {
      forall i | 0 <= i < |t|
        ensures PairedAt(t, i)
      {
        assert PairedAt(s, i + k);
        assert t[i] == s[i + k];
        if i + 1 < |t| {
          assert t[i + 1] == s[i + k + 1];
        }
        if 0 < i {
          assert t[i - 1] == s[i + k - 1];
        }
      }
    }
    if NoLoneSurrogates(t) {
      forall i | 0 <= i < |s|
        ensures PairedAt(s, i)
      {
        if i >= k {
          assert PairedAt(t, i - k);
          assert s[i] == t[i - k];
          if i + 1 < |s| {
            assert s[i + 1] == t[i - k + 1];
          }
          if i > k {
            assert s[i - 1] == t[i - k - 1];
          }
        }
      }
    }
  }

  /** What encodeURIComponent produces is made of unreserved code units and upper-case `%XX` triplets. */
  lemma {:induction false} EncodedForm(s: JsString)
    requires EncodeUriComponent(s).Success?
    ensures IsPercentEncodedForm(EncodeUriComponent(s).value)
    decreases |s|
  {
    if s != [] {
      if IsUnreserved(s[0]) {
        EncodedForm(s[1..]);
        var t := EncodeUriComponent(s).value;
        assert t[1..] == EncodeUriComponent(s[1..]).value;
      } else {
        var c := CodePointAt(s);
        EncodedForm(s[c.units..]);
        PercentEncodedFormPrefix(Utf8Encode(c.value), EncodeUriComponent(s[c.units..]).value);
      }
    }
  }

  lemma {:induction false} PercentEncodedFormPrefix(bs: seq<int>, rest: JsString)
    requires AreBytes(bs) && IsPercentEncodedForm(rest)
    ensures IsPercentEncodedForm(PercentEncode(bs) + rest)
    decreases |bs|
  {
    if bs != [] {
      PercentEncodedFormPrefix(bs[1..], rest);
      var t := PercentEncode(bs) + rest;
      assert t[..3] == [Percent, HexDigit(bs[0] / 16), HexDigit(bs[0] % 16)];
      assert t[3..] == PercentEncode(bs[1..]) + rest;
      assert t[0] == Percent && IsUpperHex(t[1]) && IsUpperHex(t[2]);
    } else {
      assert PercentEncode(bs) + rest == rest;
    }
  }

  /** A string of unreserved code units is its own encoding. */
  lemma {:induction false} EncodeUnreserved(s: JsString)
    requires forall i :: 0 <= i < |s| ==> IsUnreserved(s[i])
    ensures EncodeUriComponent(s) == Success(s)
    decreases |s|
  {
    if s != [] {
      EncodeUnreserved(s[1..]);
      assert [s[0]] + s[1..] == s;
    }
  }

  /** Unreserved code units in front of any text are copied through. */
  lemma {:induction false} EncodePrefixUnreserved(u: JsString, rest: JsString)
    requires forall i :: 0 <= i < |u| ==> IsUnreserved(u[i])
    ensures EncodeUriComponent(u + rest) == (var r :- EncodeUriComponent(rest); Success(u + r))
    decreases |u|
  {
    if u == [] {
      assert u + rest == rest;
      var e := EncodeUriComponent(rest);
      if e.Success? {
        assert u + e.value == e.value;
      }
    } else {
      EncodePrefixUnreserved(u[1..], rest);
      assert (u + rest)[1..] == u[1..] + rest;
      var e := EncodeUriComponent(rest);
      if e.Success? {
        assert [u[0]] + (u[1..] + e.value) == u + e.value;
      }
    }
  }

  /** An ASCII code unit outside the unreserved set becomes one `%XX` triplet. */
  lemma EncodeAsciiReserved(c: CodeUnit, rest: JsString)
    requires c < 0x80 && !IsUnreserved(c)
    ensures EncodeUriComponent([c] + rest) ==
      (var r :- EncodeUriComponent(rest); Success([Percent, HexDigit(c / 16), HexDigit(c % 16)] + r))
  {
    assert ([c] + rest)[1..] == rest;
    assert PercentEncode([c]) == [Percent, HexDigit(c / 16), HexDigit(c % 16)];
  }

  lemma HexRoundTrip(b: int)
    requires IsByte(b)
    ensures ParseOctet([Percent, HexDigit(b / 16), HexDigit(b % 16)]) == Some(b)
  {
    assert HexValue(HexDigit(b / 16)) == Some(b / 16);
    assert HexValue(HexDigit(b % 16)) == Some(b % 16);
  }

  lemma {:induction false} ParseOctetsOfPercentEncode(bs: seq<int>, rest: JsString)
    requires AreBytes(bs)
    ensures ParseOctets(PercentEncode(bs) + rest, |bs|) == Some(bs)
    decreases |bs|
  {
    if bs != [] {
      var t := PercentEncode(bs) + rest;
      HexRoundTrip(bs[0]);
      assert t[..3] == [Percent, HexDigit(bs[0] / 16), HexDigit(bs[0] % 16)];
      assert ParseOctet(t) == Some(bs[0]);
      assert t[3..] == PercentEncode(bs[1..]) + rest;
      ParseOctetsOfPercentEncode(bs[1..], rest);
      assert [bs[0]] + bs[1..] == bs;
    }
  }

  /** The UTF-8 bytes of a scalar value carry its bits, behind a lead byte that counts them. */
  lemma Utf8RoundTrip(cp: int)
    requires IsScalar(cp)
    ensures var bs := Utf8Encode(cp);
      Utf8Bits(bs) == cp &&
      (|bs| == 1 <==> bs[0] < 0x80) &&
      (|bs| > 1 ==> LeadingOnes(bs[0]) == |bs|) &&
      (forall i :: 1 <= i < |bs| ==> IsContinuation(bs[i]))
  {
    if cp < 0x80 {
    } else if cp < 0x800 {
      Utf8RoundTrip2(cp);
    } else if cp < 0x10000 {
      Utf8RoundTrip3(cp);
    } else {
      Utf8RoundTrip4(cp);
    }
  }

  lemma Utf8RoundTrip2(cp: int)
    requires 0x80 <= cp < 0x800
    ensures Utf8Bits([0xC0 + cp / 0x40, 0x80 + cp % 0x40]) == cp
    ensures 0xC0 <= 0xC0 + cp / 0x40 < 0xE0
  {
  }

  lemma Utf8RoundTrip3(cp: int)
    requires 0x800 <= cp < 0x10000
    ensures Utf8Bits([0xE0 + cp / 0x1000, 0x80 + (cp / 0x40) % 0x40, 0x80 + cp % 0x40]) == cp
    ensures 0xE0 <= 0xE0 + cp / 0x1000 < 0xF0
  {
    var q := cp / 0x40;
    assert cp == q * 0x40 + cp % 0x40;
    assert q == (q / 0x40) * 0x40 + q % 0x40;
    assert q / 0x40 == cp / 0x1000;
  }

  lemma Utf8RoundTrip4(cp: int)
    requires 0x10000 <= cp <= 0x10FFFF
    ensures Utf8Bits([0xF0 + cp / 0x40000, 0x80 + (cp / 0x1000) % 0x40, 0x80 + (cp / 0x40) % 0x40, 0x80 + cp % 0x40]) == cp
    ensures 0xF0 <= 0xF0 + cp / 0x40000 < 0xF8
  {
    var q := cp / 0x40;
    var r := q / 0x40;
    assert cp == q * 0x40 + cp % 0x40;
    assert q == r * 0x40 + q % 0x40;
    assert r == (r / 0x40) * 0x40 + r % 0x40;
    assert r == cp / 0x1000;
    assert r / 0x40 == cp / 0x40000;
  }

  /** decodeURIComponent reads back the triplets of one code point in front of any text. */
  lemma DecodeCodePoint(cp: int, rest: JsString)
    requires IsScalar(cp)
    ensures DecodeUriComponent(PercentEncode(Utf8Encode(cp)) + rest) ==
      (var r :- DecodeUriComponent(rest); Success(Utf16Encode(cp) + r))
  {
    var bs := Utf8Encode(cp);
    var t := PercentEncode(bs) + rest;
    Utf8RoundTrip(cp);
    ParseOctetsOfPercentEncode(bs, rest);
    ParseOctetsOfPercentEncode(bs[..1], PercentEncode(bs[1..]) + rest);
    assert PercentEncode(bs) == PercentEncode(bs[..1]) + PercentEncode(bs[1..]);
    assert t[3 * |bs|..] == rest;
  }

  /** The code units of a whole code point are UTF-16 of its value. */
  lemma CodePointUnits(s: JsString)
    requires |s| > 0 && !CodePointAt(s).unpaired
    ensures Utf16Encode(CodePointAt(s).value) == s[..CodePointAt(s).units]
  {
  }

  /** decodeURIComponent undoes encodeURIComponent. */
  lemma {:induction false} DecodeEncode(s: JsString)
    requires EncodeUriComponent(s).Success?
    ensures DecodeUriComponent(EncodeUriComponent(s).value) == Success(s)
    decreases |s|
  {
    if s != [] {
      if IsUnreserved(s[0]) {
        DecodeEncode(s[1..]);
        var t := EncodeUriComponent(s).value;
        assert t[1..] == EncodeUriComponent(s[1..]).value;
        assert [s[0]] + s[1..] == s;
      } else {
        var c := CodePointAt(s);
        DecodeEncode(s[c.units..]);
        DecodeCodePoint(c.value, EncodeUriComponent(s[c.units..]).value);
        CodePointUnits(s);
        assert s[..c.units] + s[c.units..] == s;
      }
    }
  }

  /** Two strings with the same encoding are the same string. */
  lemma EncodeInjective(s: JsString, s': JsString)
    requires EncodeUriComponent(s).Success? && EncodeUriComponent(s) == EncodeUriComponent(s')
    ensures s == s'
  {
    DecodeEncode(s);
    DecodeEncode(s');
  }
}
