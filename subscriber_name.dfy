/**
 * The subscriber-name validator of the domain layer: a `SubscriberName`
 * wraps a string that is not empty or all whitespace, has at most 256
 * grapheme clusters and contains none of nine forbidden characters. The
 * datatype's constructor itself accepts any string: `Parse` is the validating
 * constructor, which yields only names satisfying `IsValidName` and stores
 * the input unchanged.
 */
module SubscriberNames {
  import opened Wrappers
  import opened Text

  /** A validated subscriber name; the wrapped string is the parser's input, untouched. */
  datatype SubscriberName = SubscriberName(name: string)

  /** The largest number of grapheme clusters a name may have. */
  const MaxGraphemes: nat := 256

  /** The characters a name may not contain. */
  const ForbiddenCharacters: seq<char> := ['/', '(', ')', '"', '<', '>', '\\', '{', '}']

  /** The text appended to the rejected input to form the error message. */
  const InvalidNameSuffix: string := " is not a valid subscriber name"

  predicate IsForbidden(c: char) {
    c in ForbiddenCharacters
  }

  /**
   * The scan `s.chars().any(..)` over the forbidden characters: true exactly
   * when some character of `s` is forbidden.
   */
  function ContainsForbiddenCharacters(s: string): (r: bool)
    ensures r <==> exists i :: 0 <= i < |s| && IsForbidden(s[i])
  {
    if s == [] then false
    else IsForbidden(s[0]) || ContainsForbiddenCharacters(s[1..])
  }

  /**
   * What makes a string a valid name, stated without `trim` or the scan: some
   * character is not whitespace, no character is forbidden, and there are at
   * most `MaxGraphemes` grapheme clusters.
   */
  ghost predicate IsValidName(seg: GraphemeSegmenter, s: string) {
    && (exists i :: 0 <= i < |s| && !IsWhitespace(s[i]))
    && (forall i :: 0 <= i < |s| ==> !IsForbidden(s[i]))
    && GraphemeCount(seg, s) <= MaxGraphemes
  }

  /**
   * `SubscriberName::parse`: accepts exactly the valid names, wrapping the
   * input unchanged; otherwise fails with the input followed by
   * `InvalidNameSuffix`.
   */
  function Parse(seg: GraphemeSegmenter, s: string): (r: Result<SubscriberName, string>)
    ensures r.Ok? <==> IsValidName(seg, s)
    ensures r.Ok? ==> r.value.name == s
    ensures r.Err? ==> r.error == s + InvalidNameSuffix
  {
    var isEmptyOrWhitespace := Trim(s) == [];
    var isTooLong := GraphemeCount(seg, s) > MaxGraphemes;
    var containsForbiddenCharacters := ContainsForbiddenCharacters(s);
    if isEmptyOrWhitespace || containsForbiddenCharacters || isTooLong then
      Err(s + InvalidNameSuffix)
    else
      Ok(SubscriberName(s))
  }

  /** `SubscriberName::inner`: gives back the wrapped string, from which the name can be rebuilt. */
  function Inner(n: SubscriberName): (r: string)
    ensures SubscriberName(r) == n
  {
    n.name
  }

  /** `AsRef<str>::as_ref`: borrows the wrapped string, the same string `inner` gives back. */
  function AsRef(n: SubscriberName): (r: string)
    ensures r == Inner(n)
  {
    n.name
  }

  /**
   * A parsed name hands back exactly the string it was parsed from, through
   * both `inner` and `as_ref`, and parsing that string again gives the same
   * name.
   */
  lemma ParsedNameRoundTrip(seg: GraphemeSegmenter, s: string)
    ensures Parse(seg, s).Ok? ==> Inner(Parse(seg, s).value) == s
    ensures Parse(seg, s).Ok? ==> AsRef(Parse(seg, s).value) == s
    ensures Parse(seg, s).Ok? ==> Parse(seg, Inner(Parse(seg, s).value)) == Parse(seg, s)
  {
  }

  /** A string that is empty or all whitespace is rejected, whatever its length. */
  lemma WhitespaceOnlyRejected(seg: GraphemeSegmenter, s: string)
    requires AllWhitespace(s)
    ensures Parse(seg, s) == Err(s + InvalidNameSuffix)
  {
  }

  /** A string with a forbidden character anywhere is rejected, whatever else it holds. */
  lemma ForbiddenCharacterRejected(seg: GraphemeSegmenter, s: string, i: nat)
    requires i < |s| && IsForbidden(s[i])
    ensures Parse(seg, s) == Err(s + InvalidNameSuffix)
  {
  }

  /**
   * The grapheme bound never rejects a string of at most `MaxGraphemes`
   * characters: for those, only whitespace and forbidden characters decide.
   */
  lemma ShortNameAcceptance(seg: GraphemeSegmenter, s: string)
    requires |s| <= MaxGraphemes
    ensures Parse(seg, s).Ok? <==> !AllWhitespace(s) && !ContainsForbiddenCharacters(s)
  {
  }

  /** `n` copies of `c`, as Rust's `str::repeat`. */
  function Repeat(c: char, n: nat): (r: string)
    ensures |r| == n
    ensures forall i :: 0 <= i < n ==> r[i] == c
  {
    seq(n, _ => c)
  }

  /**
   * The length bound is inclusive: a run of `n` copies of `'a'` is a valid
   * name exactly when `1 <= n <= 256`.
   */
  lemma LetterRunAccepted(seg: GraphemeSegmenter, n: nat)
    ensures Parse(seg, Repeat('a', n)).Ok? <==> 1 <= n <= MaxGraphemes
  {
    var s := Repeat('a', n);
    assert IsAscii(s) && '\r' !in s;
    assert GraphemeCount(seg, s) == |s|;
    if n >= 1 {
      assert !IsWhitespace(s[0]);
    }
  }

  /** Unit test `a_256_grapheme_long_name_is_valid`. */
  lemma Accepts256Graphemes(seg: GraphemeSegmenter)
    ensures Parse(seg, Repeat('a', 256)) == Ok(SubscriberName(Repeat('a', 256)))
  {
    LetterRunAccepted(seg, 256);
  }

  /** Unit test `a_name_longer_that_256_grapheme_is_rejected`. */
  lemma Rejects257Graphemes(seg: GraphemeSegmenter)
    ensures Parse(seg, Repeat('a', 257)).Err?
  {
    LetterRunAccepted(seg, 257);
  }

  /** Unit test `withespace_only_name_are_rejected`. */
  lemma RejectsSingleSpace(seg: GraphemeSegmenter)
    ensures Parse(seg, " ") == Err(" " + InvalidNameSuffix)
  {
    assert AllWhitespace(" ");
    WhitespaceOnlyRejected(seg, " ");
  }

  /** Unit test `empty_string_is_rejected`: the message is the suffix alone. */
  lemma RejectsEmptyName(seg: GraphemeSegmenter)
    ensures Parse(seg, "") == Err(InvalidNameSuffix)
  {
    WhitespaceOnlyRejected(seg, "");
    assert "" + InvalidNameSuffix == InvalidNameSuffix;
  }

  /** Unit test `subscriber_name_contains_an_invalid_character_are_rejected`. */
  lemma RejectsEachForbiddenCharacter(seg: GraphemeSegmenter)
    ensures forall k :: 0 <= k < |ForbiddenCharacters| ==> Parse(seg, [ForbiddenCharacters[k]]).Err?
  {
    forall k | 0 <= k < |ForbiddenCharacters|
      ensures Parse(seg, [ForbiddenCharacters[k]]).Err?
    {
      ForbiddenCharacterRejected(seg, [ForbiddenCharacters[k]], 0);
    }
  }

  /** Unit test `a_valid_name_is_parse_sucessfully`: interior spaces are allowed. */
  lemma AcceptsUrsulaLeGuin(seg: GraphemeSegmenter)
    ensures Parse(seg, "ursula le guin") == Ok(SubscriberName("ursula le guin"))
  {
    var s := "ursula le guin";
    assert forall i :: 0 <= i < |s| ==> IsLetterOrSpace(s[i]);
    forall i | 0 <= i < |s| ensures !IsForbidden(s[i]) {
      LettersAndSpacesAllowed(s[i]);
    }
    assert !IsWhitespace(s[0]);
    assert GraphemeCount(seg, s) == |s|;
    assert IsValidName(seg, s);
  }

  predicate IsLetterOrSpace(c: char) {
    'a' <= c <= 'z' || 'A' <= c <= 'Z' || c == ' '
  }

  /** ASCII letters and the space are never forbidden. */
  lemma LettersAndSpacesAllowed(c: char)
    requires IsLetterOrSpace(c)
    ensures !IsForbidden(c)
  {
  }
}
