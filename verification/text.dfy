/** String helpers with the meaning JavaScript gives them: `String.prototype.trim`,
    upper-casing a first character, decimal rendering of a count and `Array.join`. */
module Text {

  /** JavaScript's WhiteSpace and LineTerminator code points outside the
      U+2000..U+200A block: with that block, the set `trim` removes. */
  const WhitespaceChars: set<char> := {
    ' ', '\t', '\n', '\r', '\U{000B}', '\U{000C}', '\U{00A0}', '\U{FEFF}',
    '\U{1680}', '\U{2028}', '\U{2029}', '\U{202F}', '\U{205F}', '\U{3000}'
  }

  predicate IsWhitespace(c: char) {
    c in WhitespaceChars || ('\U{2000}' <= c <= '\U{200A}')
  }

  /** True when every character of `s` is whitespace (in particular when `s` is empty). */
  predicate IsBlank(s: string) {
    forall k :: 0 <= k < |s| ==> IsWhitespace(s[k])
  }

  /** The index of the first character that is not whitespace; `|s|` when `s`
      is blank. */
  function FirstNonBlank(s: string): (n: nat)
    ensures n <= |s|
    ensures forall k :: 0 <= k < n ==> IsWhitespace(s[k])
    ensures n == |s| || !IsWhitespace(s[n])
  {
    if |s| == 0 || !IsWhitespace(s[0]) then 0 else 1 + FirstNonBlank(s[1..])
  }

  /** One past the index of the last character that is not whitespace; 0 when
      `s` is blank. */
  function EndNonBlank(s: string): (m: nat)
    ensures m <= |s|
    ensures forall k :: m <= k < |s| ==> IsWhitespace(s[k])
    ensures m == 0 || !IsWhitespace(s[m - 1])
  {
    if |s| == 0 || !IsWhitespace(s[|s| - 1]) then |s| else EndNonBlank(s[..|s| - 1])
  }

  /** `s.trim()`: `s` with leading and trailing whitespace removed. The result
      is the piece of `s` that starts at its first non-whitespace character and
      is followed by whitespace only; it neither starts nor ends with
      whitespace, and is empty exactly when `s` is blank. */
  function Trim(s: string): (r: string)
    ensures FirstNonBlank(s) + |r| <= |s| && r == s[FirstNonBlank(s)..FirstNonBlank(s) + |r|]
    ensures forall k :: FirstNonBlank(s) + |r| <= k < |s| ==> IsWhitespace(s[k])
    ensures Trimmed(r)
    ensures |r| == 0 <==> IsBlank(s)
  {
    var n := FirstNonBlank(s);
    var t := s[n..];
    var m := EndNonBlank(t);
    assert t[..m] == s[n..n + m];
    BlankAfterBlankPrefix(s, n);
    t[..m]
  }

  /** Once its prefix of length `n` is known to be whitespace, `s` is blank as
      soon as the rest is. */
  lemma BlankAfterBlankPrefix(s: string, n: nat)
    requires n <= |s| && forall k :: 0 <= k < n ==> IsWhitespace(s[k])
    ensures IsBlank(s[n..]) ==> IsBlank(s)
  {
    if IsBlank(s[n..]) {
      forall k | n <= k < |s|
        ensures IsWhitespace(s[k])
      {
        assert s[k] == s[n..][k - n];
      }
    }
  }

  /** Neither starts nor ends with whitespace. */
  predicate Trimmed(s: string) {
    |s| == 0 || (!IsWhitespace(s[0]) && !IsWhitespace(s[|s| - 1]))
  }

  /** `trim` leaves a string alone exactly when it has nothing to remove. */
  lemma TrimFixesTrimmed(s: string)
    ensures Trim(s) == s <==> Trimmed(s)
  {
    if Trimmed(s) && |s| > 0 {
      assert FirstNonBlank(s) == 0;
      assert s[0..] == s;
      assert EndNonBlank(s) == |s|;
    }
  }

  /** Trimming twice is trimming once. */
  lemma TrimIdempotent(s: string)
    ensures Trim(Trim(s)) == Trim(s)
  {
    TrimFixesTrimmed(Trim(s));
  }

  /** `c.toUpperCase()` for ASCII; other characters are returned unchanged. */
  function ToUpper(c: char): (u: char)
    ensures 'a' <= c <= 'z' ==> 'A' <= u <= 'Z' && u as int - c as int == 'A' as int - 'a' as int
    ensures !('a' <= c <= 'z') ==> u == c
  {
    if 'a' <= c <= 'z' then (c as int - 'a' as int + 'A' as int) as char else c
  }

  function ToLower(c: char): char {
    if 'A' <= c <= 'Z' then (c as int - 'A' as int + 'a' as int) as char else c
  }

  /** `s.charAt(0).toUpperCase() + s.slice(1)`. */
  function Capitalize(s: string): (r: string)
    ensures |r| == |s|
    ensures |s| > 0 ==> r[1..] == s[1..] && r[0] == ToUpper(s[0])
  {
    if |s| == 0 then s else [ToUpper(s[0])] + s[1..]
  }

  /** Lower-casing the first character undoes `Capitalize` on a string that starts
      with a lower-case ASCII letter, so nothing but the first letter changes. */
  lemma CapitalizeInvertible(s: string)
    requires |s| > 0 && 'a' <= s[0] <= 'z'
    ensures var c := Capitalize(s); 'A' <= c[0] <= 'Z' && [ToLower(c[0])] + c[1..] == s
  {
    assert s == [s[0]] + s[1..];
  }

  function DigitChar(d: nat): (c: char)
    requires d < 10
  {
    ('0' as int + d) as char
  }

  predicate IsDigit(c: char) {
    '0' <= c <= '9'
  }

  /** The decimal rendering JavaScript gives a non-negative integer in a template string. */
  function NatToString(n: nat): (r: string)
    ensures |r| > 0
    ensures forall k :: 0 <= k < |r| ==> IsDigit(r[k])
    ensures n > 0 ==> r[0] != '0'
    ensures n < 10 <==> |r| == 1
  {
    if n < 10 then [DigitChar(n)] else NatToString(n / 10) + [DigitChar(n % 10)]
  }

  /** The value of a string of decimal digits. */
  function DigitsValue(s: string): nat
    requires forall k :: 0 <= k < |s| ==> IsDigit(s[k])
  {
    if |s| == 0 then 0 else
      assert IsDigit(s[|s| - 1]);
      10 * DigitsValue(s[..|s| - 1]) + (s[|s| - 1] as int - '0' as int)
  }

  /** Reading the digits back gives the number: the rendering loses nothing. */
  lemma {:induction false} NatToStringRoundTrip(n: nat)
    ensures DigitsValue(NatToString(n)) == n
  {
    if n >= 10 {
      var s := NatToString(n);
      assert s[..|s| - 1] == NatToString(n / 10);
      NatToStringRoundTrip(n / 10);
    }
  }

  /** The total length of the parts. */
  function TotalLength(parts: seq<string>): nat {
    if |parts| == 0 then 0 else |parts[0]| + TotalLength(parts[1..])
  }

  /** `parts.join(sep)`: empty for no parts; otherwise it starts with the first
      part, ends with the last, and holds every part and one separator between
      each two neighbours. */
  function Join(parts: seq<string>, sep: string): (r: string)
    ensures |parts| == 0 ==> r == ""
    ensures |parts| > 0 ==> |r| == TotalLength(parts) + (|parts| - 1) * |sep|
    ensures |parts| > 0 ==> r[..|parts[0]|] == parts[0]
    ensures |parts| > 0 ==> |parts[|parts| - 1]| <= |r| && r[|r| - |parts[|parts| - 1]|..] == parts[|parts| - 1]
  {
    if |parts| == 0 then ""
    else if |parts| == 1 then parts[0]
    else
      var rest := Join(parts[1..], sep);
      var r := parts[0] + sep + rest;
      assert parts[1..][|parts| - 2] == parts[|parts| - 1];
      assert r[|r| - |parts[|parts| - 1]|..] == rest[|rest| - |parts[|parts| - 1]|..];
      r
  }
}
