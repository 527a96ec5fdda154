/**
 * Removing the header of a base64 data URL (section 3 of RFC 2397) the way
 * `s.replace(/^data:.+;base64,/, '')` does in ECMAScript.
 *
 * The pattern is anchored at the start, `.` matches any code unit but a line
 * terminator, and `.+` is greedy: it first runs to the end of the first line
 * and then gives back one code unit at a time until `;base64,` follows it. So
 * the match ends after the LAST `;base64,` of the first line that leaves at
 * least one code unit for `.+`; when there is none, the string is unchanged.
 */
module DataUrl {
  import opened Wrappers
  import opened JsStrings

  const Scheme: JsString := Lit("data:")
  const Marker: JsString := Lit(";base64,")

  /** `;base64,` occurs at `j`. */
  predicate MarkerAt(s: JsString, j: int) {
    0 <= j && j + 8 <= |s| && s[j..j + 8] == Marker
  }

  /** `s[lo..hi]` holds no line terminator, so `.` matches each of its code units. */
  predicate OneLine(s: JsString, lo: int, hi: int)
    requires 0 <= lo <= hi <= |s|
  {
    forall i :: lo <= i < hi ==> !IsLineTerminator(s[i])
  }

  /** The pattern matches `s[..j + 8]`, with `.+` matching `s[5..j]` and `;base64,` at `j`. */
  predicate MatchEndsAt(s: JsString, j: int) {
    5 < j && MarkerAt(s, j) && s[..5] == Scheme && OneLine(s, 5, j)
  }

  /** The first line terminator at or after `i`, or the end of `s`: where greedy `.+` stops. */
  function RunEnd(s: JsString, i: nat): (k: nat)
    requires i <= |s|
    ensures i <= k <= |s|
    ensures OneLine(s, i, k)
    ensures k < |s| ==> IsLineTerminator(s[k])
    decreases |s| - i
  {
    if i == |s| || IsLineTerminator(s[i]) then i else RunEnd(s, i + 1)
  }

  /** Backtracking: the largest `j` in `6..end` with `;base64,` at `j`. */
  function Backtrack(s: JsString, end: nat): (r: Option<nat>)
    requires end <= |s|
    ensures r.Some? ==> 5 < r.value <= end && MarkerAt(s, r.value)
    ensures forall j :: (if r.Some? then r.value else 5) < j <= end ==> !MarkerAt(s, j)
    decreases end
  {
    if end <= 5 then None
    else if MarkerAt(s, end) then Some(end)
    else Backtrack(s, end - 1)
  }

  /** Where the match of `/^data:.+;base64,/` ends its `.+`, if the pattern matches. */
  function MatchEnd(s: JsString): (r: Option<nat>)
    ensures r.Some? ==> MatchEndsAt(s, r.value)
    ensures r.Some? ==> forall j :: r.value < j ==> !MatchEndsAt(s, j)
    ensures r.None? ==> forall j :: !MatchEndsAt(s, j)
  {
    if |s| < 5 || s[..5] != Scheme then None
    else
      var k := RunEnd(s, 5);
      var r := Backtrack(s, k);
      assert forall j :: MatchEndsAt(s, j) ==> j <= k;
      r
  }

  /** `s.replace(/^data:.+;base64,/, '')`. */
  function StripBase64Header(s: JsString): (r: JsString)
    ensures (forall j :: !MatchEndsAt(s, j)) ==> r == s
    ensures forall j :: MatchEndsAt(s, j) && (forall j' :: j < j' ==> !MatchEndsAt(s, j')) ==> r == s[j + 8..]
  {
    match MatchEnd(s)
    case None => s
    case Some(j) => s[j + 8..]
  }

  predicate ContainsMarker(s: JsString) {
    exists i :: 0 <= i <= |s| && MarkerAt(s, i)
  }

  /** The code units of `;base64,`: only the first is `;`, and none ends a line. */
  lemma MarkerUnits()
    ensures Marker == [';' as int, 'b' as int, 'a' as int, 's' as int, 'e' as int, '6' as int, '4' as int, ',' as int]
    ensures OneLine(Marker, 0, 8)
  {
    var u := [';' as int, 'b' as int, 'a' as int, 's' as int, 'e' as int, '6' as int, '4' as int, ',' as int];
    assert forall i :: 0 <= i < 8 ==> Marker[i] == u[i];
  }

  /** A data URL `data:<m>;base64,<p>` with a one-line media type and no further `;base64,` loses exactly its header. */
  lemma StripDataUrl(m: JsString, p: JsString)
    requires |m| > 0 && OneLine(m, 0, |m|)
    requires !ContainsMarker(p)
    ensures StripBase64Header(Scheme + m + Marker + p) == p
  {
    var s := Scheme + m + Marker + p;
    var j := 5 + |m|;
    assert s[..5] == Scheme;
    assert s[j..j + 8] == Marker;
    assert s[j + 8..] == p;
    forall i | 5 <= i < j ensures !IsLineTerminator(s[i]) {
      assert s[i] == m[i - 5];
    }
    assert MatchEndsAt(s, j);
    MarkerUnits();
    forall j' | j < j' ensures !MarkerAt(s, j') {
      if j' + 8 <= |s| {
        if j' < j + 8 {
          assert s[j'] == Marker[j' - j];
          assert s[j'..j' + 8][0] == s[j'];
        } else {
          assert p[j' - j - 8..j' - j] == s[j'..j' + 8];
          assert !MarkerAt(p, j' - j - 8);
        }
      }
    }
  }

  /** A string that does not start with `data:` is left as it is. */
  lemma StripNonDataUrl(s: JsString)
    requires |s| < 5 || s[..5] != Scheme
    ensures StripBase64Header(s) == s
  {
  }

  /** A match in what the first match leaves over would make a later match in the whole string. */
  lemma MatchInRemainder(s: JsString, j: int, j2: int)
    requires MatchEndsAt(s, j) && MatchEndsAt(s[j + 8..], j2)
    ensures MatchEndsAt(s, j + 8 + j2)
  {
    var p := s[j + 8..];
    var j' := j + 8 + j2;
    assert s[j'..j' + 8] == p[j2..j2 + 8];
    MarkerUnits();
    forall i | 5 <= i < j' ensures !IsLineTerminator(s[i]) {
      if j <= i < j + 8 {
        assert s[i] == s[j..j + 8][i - j];
      } else if j + 8 <= i {
        assert s[i] == p[i - j - 8];
        if i < j + 8 + 5 {
          assert p[i - j - 8] == p[..5][i - j - 8];
        }
      }
    }
  }

  /** Stripping twice is stripping once: what is left never matches the pattern again. */
  lemma StripIdempotent(s: JsString)
    ensures StripBase64Header(StripBase64Header(s)) == StripBase64Header(s)
  {
    var r := MatchEnd(s);
    if r.Some? {
      var r2 := MatchEnd(s[r.value + 8..]);
      if r2.Some? {
        MatchInRemainder(s, r.value, r2.value);
        assert false;
      }
    }
  }
}
