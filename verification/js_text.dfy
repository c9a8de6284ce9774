/**
 * The parts of ECMAScript's string semantics that the route handler and the
 * page rely on: which characters are line terminators (what the regular
 * expression `.` refuses), which are white space (what `\s` matches and what
 * `String.prototype.trim` removes), `trim` itself and `split` on one character.
 */
module JsText {

  /** ECMAScript LineTerminator: LF, CR, LINE SEPARATOR, PARAGRAPH SEPARATOR. */
  predicate IsLineTerminator(c: char) {
    c == '\n' || c == '\r' || c == '\U{2028}' || c == '\U{2029}'
  }

  /** What the regular expression `.` matches when the `s` flag is absent. */
  predicate MatchesDot(c: char) {
    !IsLineTerminator(c)
  }

  /**
   * ECMAScript WhiteSpace (TAB, VT, FF, ZWNBSP and the Unicode category Zs)
   * together with LineTerminator: the characters `\s` matches and `trim` strips.
   */
  predicate IsWhitespace(c: char) {
    IsLineTerminator(c)
    || c == '\t' || c == '\U{000B}' || c == '\U{000C}' || c == '\U{FEFF}'
    || c == ' ' || c == '\U{00A0}' || c == '\U{1680}'
    || ('\U{2000}' <= c <= '\U{200A}')
    || c == '\U{202F}' || c == '\U{205F}' || c == '\U{3000}'
  }

  /** What `\d` matches: the ASCII digits. */
  predicate IsAsciiDigit(c: char) {
    '0' <= c <= '9'
  }

  predicate All(s: string, p: char -> bool) {
    forall i | 0 <= i < |s| :: p(s[i])
  }

  /** Length of the longest run of characters satisfying `p` that starts at index `i`. */
  function Span(s: string, i: nat, p: char -> bool): (n: nat)
    requires i <= |s|
    decreases |s| - i
    ensures i + n <= |s|
    ensures forall j | i <= j < i + n :: p(s[j])
    ensures i + n < |s| ==> !p(s[i + n])
  {
    if i < |s| && p(s[i]) then 1 + Span(s, i + 1, p) else 0
  }

  /** Length of the longest run of characters satisfying `p` that ends just before index `j`. */
  function SpanBack(s: string, j: nat, p: char -> bool): (n: nat)
    requires j <= |s|
    ensures n <= j
    ensures forall k | j - n <= k < j :: p(s[k])
    ensures n < j ==> !p(s[j - n - 1])
  {
    if j > 0 && p(s[j - 1]) then 1 + SpanBack(s, j - 1, p) else 0
  }

  /** `r` is `s` with the white space `s[..a]` and `s[a + |r|..]` cut off. */
  predicate TrimmedAt(s: string, r: string, a: nat) {
    a + |r| <= |s| && s[a..a + |r|] == r
    && All(s[..a], IsWhitespace) && All(s[a + |r|..], IsWhitespace)
  }

  /** `String.prototype.trim`. */
  function Trim(s: string): (r: string)
    ensures r == [] || (!IsWhitespace(r[0]) && !IsWhitespace(r[|r| - 1]))
    ensures exists a: nat :: TrimmedAt(s, r, a)
    ensures r == [] <==> All(s, IsWhitespace)
    ensures (s == [] || (!IsWhitespace(s[0]) && !IsWhitespace(s[|s| - 1]))) ==> r == s
  {
    var a := Span(s, 0, IsWhitespace);
    if a == |s| then
      assert TrimmedAt(s, [], 0);
      []
    else
      var b := |s| - SpanBack(s, |s|, IsWhitespace);
      assert a < b;
      assert TrimmedAt(s, s[a..b], a);
      s[a..b]
  }

  /** Adjacent slices concatenate to the slice that spans both. */
  lemma SliceConcat(s: string, i: nat, m: nat, j: nat)
    requires i <= m <= j <= |s|
    ensures s[i..j] == s[i..m] + s[m..j]
  {
  }

  /** Pieces joined with `sep` between consecutive ones (`Array.prototype.join`). */
  function Join(parts: seq<string>, sep: char): string
    decreases |parts|
  {
    if parts == [] then []
    else if |parts| == 1 then parts[0]
    else parts[0] + [sep] + Join(parts[1..], sep)
  }

  /**
   * `s.split(sep)` for a one-character separator: the maximal pieces between
   * separators, so an empty string gives one empty piece.
   */
  function Split(s: string, sep: char): (parts: seq<string>)
    decreases |s|
    ensures |parts| >= 1
    ensures forall k | 0 <= k < |parts| :: sep !in parts[k]
    ensures Join(parts, sep) == s
  {
    if s == [] then [[]]
    else
      var rest := Split(s[1..], sep);
      if s[0] == sep then
        assert ([[]] + rest)[1..] == rest;
        [[]] + rest
      else
        var parts := [[s[0]] + rest[0]] + rest[1..];
        assert parts[1..] == rest[1..];
        assert Join(parts, sep) == [s[0]] + Join(rest, sep) by {
          if |rest| > 1 {
            assert rest == [rest[0]] + rest[1..];
          }
        }
        assert s == [s[0]] + s[1..];
        parts
  }
}
