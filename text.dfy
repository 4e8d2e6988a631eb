/**
 * The string facilities of Rust's standard library and of the
 * `unicode-segmentation` crate that the core relies on:
 * `char::is_whitespace` and `str::trim`, `str::to_lowercase`,
 * `str::graphemes(true)`, and the decimal `Display` of an unsigned integer.
 *
 * Whitespace is modelled exactly (the Unicode White_Space property is a short,
 * fixed list). Lower-casing and grapheme segmentation depend on large Unicode
 * tables; they are modelled as function values constrained by the laws the
 * core needs: lower-casing agrees with ASCII lower-casing on ASCII strings,
 * and a segmentation splits a string into non-empty clusters whose
 * concatenation is the string, one cluster per character when the string is
 * ASCII without a carriage return (UAX #29 joins only CR LF among ASCII).
 */
module Text {

  // ---------------------------------------------------------------------------
  // Whitespace and trimming
  // ---------------------------------------------------------------------------

  /**
   * `char::is_whitespace`: the characters with the Unicode White_Space
   * property. Among ASCII characters these are the space and the controls
   * from tab to carriage return; no letter, digit or punctuation mark is one.
   */
  predicate IsWhitespace(c: char)
    ensures IsAsciiChar(c) ==> (IsWhitespace(c) <==> c == ' ' || '\t' <= c <= '\r')
  {
    var n := c as int;
    || 0x09 <= n <= 0x0D
    || n == 0x20
    || n == 0x85
    || n == 0xA0
    || n == 0x1680
    || 0x2000 <= n <= 0x200A
    || n == 0x2028
    || n == 0x2029
    || n == 0x202F
    || n == 0x205F
    || n == 0x3000
  }

  /** Every character of `s` is whitespace (vacuously true of the empty string). */
  predicate AllWhitespace(s: string) {
    forall i :: 0 <= i < |s| ==> IsWhitespace(s[i])
  }

  /** `str::trim_start`: drops the leading whitespace and keeps the rest unchanged. */
  function TrimStart(s: string): (r: string)
    ensures |r| <= |s| && r == s[|s| - |r|..]
    ensures forall i :: 0 <= i < |s| - |r| ==> IsWhitespace(s[i])
    ensures r == [] || !IsWhitespace(r[0])
  {
    if s == [] || !IsWhitespace(s[0]) then s else TrimStart(s[1..])
  }

  /** `str::trim_end`: drops the trailing whitespace and keeps the rest unchanged. */
  function TrimEnd(s: string): (r: string)
    ensures |r| <= |s| && r == s[..|r|]
    ensures forall i :: |r| <= i < |s| ==> IsWhitespace(s[i])
    ensures r == [] || !IsWhitespace(r[|r| - 1])
  {
    if s == [] || !IsWhitespace(s[|s| - 1]) then s else TrimEnd(s[..|s| - 1])
  }

  /**
   * `str::trim`: the slice of the string left once its leading and trailing
   * whitespace is removed. It is empty exactly when the string is all
   * whitespace, and otherwise begins and ends with a non-whitespace character.
   */
  function Trim(s: string): (r: string)
    ensures exists a, b :: 0 <= a <= b <= |s| && r == s[a..b] && AllWhitespace(s[..a]) && AllWhitespace(s[b..])
    ensures r == [] <==> AllWhitespace(s)
    ensures r != [] ==> !IsWhitespace(r[0]) && !IsWhitespace(r[|r| - 1])
  {
    var start := TrimStart(s);
    var a := |s| - |start|;
    TrimEndOfSuffix(s, a);
    assert AllWhitespace(s[..a]);
    assert TrimEnd(start) != [] ==> TrimEnd(start)[0] == start[0];
    TrimEnd(start)
  }

  /**
   * Trimming the end of the suffix `s[a..]` leaves a slice `s[a..b]` followed
   * by whitespace only.
   */
  lemma TrimEndOfSuffix(s: string, a: nat)
    requires a <= |s|
    ensures a + |TrimEnd(s[a..])| <= |s|
    ensures TrimEnd(s[a..]) == s[a..a + |TrimEnd(s[a..])|]
    ensures AllWhitespace(s[a + |TrimEnd(s[a..])|..])
  {
    var start := s[a..];
    var t := TrimEnd(start);
    var b := a + |t|;
    forall i | 0 <= i < |s| - b ensures IsWhitespace(s[b..][i]) {
      assert s[b..][i] == start[|t| + i];
    }
  }

  // ---------------------------------------------------------------------------
  // ASCII and lower-casing
  // ---------------------------------------------------------------------------

  predicate IsAsciiChar(c: char) {
    c as int < 0x80
  }

  predicate IsAscii(s: string) {
    forall i :: 0 <= i < |s| ==> IsAsciiChar(s[i])
  }

  /** `char::to_ascii_lowercase`: maps `A`..`Z` to `a`..`z` and leaves every other character alone. */
  function AsciiLowerChar(c: char): (r: char)
    ensures IsAsciiChar(r) <==> IsAsciiChar(c)
    ensures !('A' <= r <= 'Z')
    ensures ('A' <= c <= 'Z') || r == c
  {
    if 'A' <= c <= 'Z' then (c as int + 32) as char else c
  }

  /** `str::to_ascii_lowercase`: lower-cases each character in place. */
  function AsciiLower(s: string): (r: string)
    ensures |r| == |s|
    ensures forall i :: 0 <= i < |s| ==> r[i] == AsciiLowerChar(s[i])
  {
    if s == [] then [] else [AsciiLowerChar(s[0])] + AsciiLower(s[1..])
  }

  /** The two strings are equal once both are ASCII-lower-cased (`str::eq_ignore_ascii_case`). */
  predicate EqualsIgnoreAsciiCase(a: string, b: string) {
    |a| == |b| && forall i :: 0 <= i < |a| ==> AsciiLowerChar(a[i]) == AsciiLowerChar(b[i])
  }

  /** No character of `s` is an upper-case ASCII letter. */
  predicate NoAsciiUppercase(s: string) {
    forall i :: 0 <= i < |s| ==> !('A' <= s[i] <= 'Z')
  }

  /** A string without upper-case ASCII letters is a fixed point of ASCII lower-casing. */
  lemma {:induction false} AsciiLowerFixesLowercase(s: string)
    requires NoAsciiUppercase(s)
    ensures AsciiLower(s) == s
  {
    if s != [] {
      AsciiLowerFixesLowercase(s[1..]);
    }
  }

  /**
   * Lower-casing `a` gives the lower-case string `b` exactly when `a` and `b`
   * agree up to ASCII case.
   */
  lemma AsciiLowerIsLowercaseIff(a: string, b: string)
    requires NoAsciiUppercase(b)
    ensures AsciiLower(a) == b <==> EqualsIgnoreAsciiCase(a, b)
  {
    if EqualsIgnoreAsciiCase(a, b) {
      forall i | 0 <= i < |a| ensures AsciiLower(a)[i] == b[i] {
        assert AsciiLowerChar(b[i]) == b[i];
      }
    }
  }

  /** The laws a model of `str::to_lowercase` obeys: on ASCII strings it is ASCII lower-casing. */
  ghost predicate LowercaseLaws(f: string -> string) {
    forall s :: IsAscii(s) ==> f(s) == AsciiLower(s)
  }

  /**
   * `str::to_lowercase`: full Unicode lower-casing is not spelled out here;
   * any mapping that agrees with ASCII lower-casing on ASCII strings stands
   * for it.
   */
  type LowercaseMapping = f: string -> string | LowercaseLaws(f) witness AsciiLower

  // ---------------------------------------------------------------------------
  // Grapheme clusters
  // ---------------------------------------------------------------------------

  /** The concatenation of a sequence of clusters. */
  function Concat(clusters: seq<string>): (r: string)
    ensures clusters == [] ==> r == []
  {
    if clusters == [] then [] else clusters[0] + Concat(clusters[1..])
  }

  /** `clusters` splits `s` into non-empty pieces, in order, losing nothing. */
  ghost predicate IsSegmentation(s: string, clusters: seq<string>) {
    && Concat(clusters) == s
    && forall k :: 0 <= k < |clusters| ==> clusters[k] != []
  }

  /** One cluster per character. */
  function Singletons(s: string): (r: seq<string>)
    ensures |r| == |s|
    ensures forall k :: 0 <= k < |r| ==> r[k] == [s[k]]
  {
    seq(|s|, k requires 0 <= k < |s| => [s[k]])
  }

  /**
   * The laws a model of `str::graphemes(true)` obeys: it segments every
   * string, and an ASCII string without a carriage return is one cluster per
   * character.
   */
  ghost predicate SegmenterLaws(f: string -> seq<string>) {
    forall s ::
      && IsSegmentation(s, f(s))
      && (IsAscii(s) && '\r' !in s ==> f(s) == Singletons(s))
  }

  lemma {:induction false} ConcatSingletons(s: string)
    ensures Concat(Singletons(s)) == s
  {
    if s != [] {
      assert Singletons(s)[1..] == Singletons(s[1..]);
      ConcatSingletons(s[1..]);
    }
  }

  /** Splitting every string into single characters obeys the laws. */
  ghost function SingletonSegmenter(): (f: string -> seq<string>)
    ensures SegmenterLaws(f)
  {
    var f := (s: string) => Singletons(s);
    assert forall s :: IsSegmentation(s, f(s)) by {
      forall s ensures IsSegmentation(s, f(s)) {
        ConcatSingletons(s);
      }
    }
    f
  }

  /**
   * Extended grapheme cluster segmentation (`graphemes(true)` of the
   * `unicode-segmentation` crate), given by the laws it obeys.
   */
  type GraphemeSegmenter = f: string -> seq<string> | SegmenterLaws(f) ghost witness SingletonSegmenter()

  /**
   * `s.graphemes(true).count()`: never more than the number of characters,
   * and exactly that number for an ASCII string without a carriage return.
   */
  function GraphemeCount(seg: GraphemeSegmenter, s: string): (r: nat)
    ensures r <= |s|
    ensures IsAscii(s) && '\r' !in s ==> r == |s|
  {
    assert IsSegmentation(s, seg(s));
    ConcatLengthAtLeastCount(seg(s));
    |seg(s)|
  }

  lemma {:induction false} ConcatLengthAtLeastCount(clusters: seq<string>)
    requires forall k :: 0 <= k < |clusters| ==> clusters[k] != []
    ensures |Concat(clusters)| >= |clusters|
  {
    if clusters != [] {
      ConcatLengthAtLeastCount(clusters[1..]);
    }
  }

  // ---------------------------------------------------------------------------
  // Decimal notation
  // ---------------------------------------------------------------------------

  predicate IsDigit(c: char) {
    '0' <= c <= '9'
  }

  function DigitChar(d: nat): (c: char)
    requires d < 10
    ensures IsDigit(c)
  {
    ('0' as int + d) as char
  }

  function DigitValue(c: char): (d: nat)
    requires IsDigit(c)
    ensures d < 10
  {
    c as int - '0' as int
  }

  /**
   * The `Display` rendering of an unsigned integer: its decimal digits, most
   * significant first, without leading zeros.
   */
  function Decimal(n: nat): (r: string)
    ensures r != []
    ensures forall i :: 0 <= i < |r| ==> IsDigit(r[i])
    ensures r[0] == '0' ==> n == 0
  {
    if n < 10 then [DigitChar(n)] else Decimal(n / 10) + [DigitChar(n % 10)]
  }

  /** Reads a string of decimal digits back as a number. */
  function ParseDecimal(s: string): nat
    requires forall i :: 0 <= i < |s| ==> IsDigit(s[i])
  {
    if s == [] then 0 else ParseDecimal(s[..|s| - 1]) * 10 + DigitValue(s[|s| - 1])
  }

  /** Reading back the decimal rendering of `n` gives `n`. */
  lemma {:induction false} DecimalRoundTrip(n: nat)
    ensures ParseDecimal(Decimal(n)) == n
  {
    if n >= 10 {
      var r := Decimal(n);
      assert r[..|r| - 1] == Decimal(n / 10);
      DecimalRoundTrip(n / 10);
    }
  }
}
