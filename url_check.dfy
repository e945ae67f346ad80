/** The bot's URL test `is_url`: the pattern

      http[s]?://(?:[a-zA-Z]|[0-9]|[$-_@.&+]|[!*\\(\\),]|(?:%[0-9a-fA-F][0-9a-fA-F]))+

    applied with `re.match`, i.e. anchored at the start of the text only.
    The pattern is written as a Python raw string, so `[$-_@.&+]` is the
    RANGE '$' (0x24) .. '_' (0x5F) plus four characters already inside it,
    and `[!*\\(\\),]` holds '!', '*', a backslash, '(', ')' and ','.
 */
module UrlCheck {

  // ---------------------------------------------------------------------
  // The character classes of the pattern, as written
  // ---------------------------------------------------------------------

  /** `[a-zA-Z]` */
  predicate InLetterClass(c: char) {
    ('a' <= c <= 'z') || ('A' <= c <= 'Z')
  }

  /** `[0-9]` */
  predicate InDigitClass(c: char) {
    '0' <= c <= '9'
  }

  /** `[$-_@.&+]`: the range from '$' to '_', then '@', '.', '&', '+' */
  predicate InSymbolClass(c: char) {
    ('$' <= c <= '_') || c == '@' || c == '.' || c == '&' || c == '+'
  }

  /** `[!*\\(\\),]` read from a raw string: '!', '*', '\', '(', '\', ')', ',' */
  predicate InPunctuationClass(c: char) {
    c == '!' || c == '*' || c == '\\' || c == '(' || c == ')' || c == ','
  }

  /** `[0-9a-fA-F]` */
  predicate IsHexDigit(c: char) {
    ('0' <= c <= '9') || ('a' <= c <= 'f') || ('A' <= c <= 'F')
  }

  /** A character that one of the four single-character alternatives accepts. */
  predicate InSomeClass(c: char) {
    InLetterClass(c) || InDigitClass(c) || InSymbolClass(c) || InPunctuationClass(c)
  }

  /** The same set, stated independently of the pattern's spelling:
      a lower-case letter, anything from '$' to '_', or '!'. */
  predicate UrlBodyChar(c: char) {
    ('a' <= c <= 'z') || ('$' <= c <= '_') || c == '!'
  }

  predicate HasPrefix(text: seq<char>, prefix: seq<char>) {
    |prefix| <= |text| && text[..|prefix|] == prefix
  }

  // ---------------------------------------------------------------------
  // What the pattern means: the language of prefixes it matches
  // ---------------------------------------------------------------------

  /** One repetition of the group `(?: ... )` consumes exactly the first `m`
      characters of `s`: one character of a class, or `%` and two hex digits. */
  ghost predicate GroupConsumes(s: seq<char>, m: nat) {
    (m == 1 && 1 <= |s| && InSomeClass(s[0]))
    || (m == 3 && 3 <= |s| && s[0] == '%' && IsHexDigit(s[1]) && IsHexDigit(s[2]))
  }

  /** The group repeated one or more times (`+`) consumes exactly the first
      `n` characters of `s`. */
  ghost predicate GroupPlusConsumes(s: seq<char>, n: nat)
    decreases n
  {
    GroupConsumes(s, n)
    || exists m: nat :: 0 < m < n && m <= |s| && GroupConsumes(s, m) && GroupPlusConsumes(s[m..], n - m)
  }

  /** The scheme `scheme` followed by a body of `n` characters is a prefix of `text`. */
  ghost predicate SchemeThenBody(text: seq<char>, scheme: seq<char>, n: nat) {
    HasPrefix(text, scheme) && GroupPlusConsumes(text[|scheme|..], n)
  }

  /** `re.match` succeeds: some prefix of `text` is in the pattern's language. */
  ghost predicate PatternMatchesPrefix(text: seq<char>) {
    exists n: nat :: SchemeThenBody(text, "http://", n) || SchemeThenBody(text, "https://", n)
  }

  // ---------------------------------------------------------------------
  // How the regular-expression engine runs it, and `is_url`
  // ---------------------------------------------------------------------

  /** Length of the body the engine consumes greedily. Each repetition takes
      the first alternative that matches; a `%` is already taken by the
      `$-_` range, so the `%hh` alternative never contributes. */
  function GreedyBodyLength(s: seq<char>): (n: nat)
    ensures n <= |s|
    ensures n > 0 ==> GroupPlusConsumes(s, n)
    ensures forall i :: 0 <= i < n ==> UrlBodyChar(s[i])
    ensures n < |s| ==> !UrlBodyChar(s[n])
  {
    if |s| == 0 || !InSomeClass(s[0]) then 0
    else
      var rest := GreedyBodyLength(s[1..]);
      assert GroupConsumes(s, 1);
      assert s[1..][rest..] == s[1 + rest..];
      1 + rest
  }

  /** `is_url(text)`: the greedy `s?` tries `https://` first, then `http://`;
      the match succeeds when at least one body character follows. */
  predicate IsUrl(text: seq<char>)
    ensures IsUrl(text) ==> HasPrefix(text, "http://") || HasPrefix(text, "https://")
  {
    (HasPrefix(text, "https://") && GreedyBodyLength(text[8..]) > 0)
    || (HasPrefix(text, "http://") && GreedyBodyLength(text[7..]) > 0)
  }

  // ---------------------------------------------------------------------
  // Properties
  // ---------------------------------------------------------------------

  /** Whatever the group consumes starts with a character of the body set. */
  lemma GroupPlusStartsWithBodyChar(s: seq<char>, n: nat)
    requires GroupPlusConsumes(s, n)
    ensures 0 < |s| && UrlBodyChar(s[0])
  {
    if !GroupConsumes(s, n) {
      var m: nat :| 0 < m < n && m <= |s| && GroupConsumes(s, m) && GroupPlusConsumes(s[m..], n - m);
      assert GroupConsumes(s, m);
    }
  }

  /** The engine's answer is exactly the pattern's meaning. */
  lemma IsUrlMatchesPattern(text: seq<char>)
    ensures IsUrl(text) <==> PatternMatchesPrefix(text)
  {
    if IsUrl(text) {
      if HasPrefix(text, "https://") && GreedyBodyLength(text[8..]) > 0 {
        assert SchemeThenBody(text, "https://", GreedyBodyLength(text[8..]));
      } else {
        assert SchemeThenBody(text, "http://", GreedyBodyLength(text[7..]));
      }
    }
    if PatternMatchesPrefix(text) {
      var n: nat :| SchemeThenBody(text, "http://", n) || SchemeThenBody(text, "https://", n);
      if SchemeThenBody(text, "http://", n) {
        GroupPlusStartsWithBodyChar(text[7..], n);
      } else {
        GroupPlusStartsWithBodyChar(text[8..], n);
      }
    }
  }

  /** `is_url` holds exactly when the text starts with `http://` or `https://`
      and the next character is a lower-case letter, in '$'..'_', or '!'. */
  lemma IsUrlIffSchemeAndBodyChar(text: seq<char>)
    ensures IsUrl(text) <==>
      (HasPrefix(text, "http://") && 7 < |text| && UrlBodyChar(text[7]))
      || (HasPrefix(text, "https://") && 8 < |text| && UrlBodyChar(text[8]))
  {
  }

  /** Only the first body character is looked at: the match is a prefix match. */
  lemma IsUrlIgnoresRest(scheme: seq<char>, c: char, rest1: seq<char>, rest2: seq<char>)
    requires scheme == "http://" || scheme == "https://"
    ensures IsUrl(scheme + [c] + rest1) <==> IsUrl(scheme + [c] + rest2)
  {
    IsUrlIffSchemeAndBodyChar(scheme + [c] + rest1);
    IsUrlIffSchemeAndBodyChar(scheme + [c] + rest2);
    assert (scheme + [c] + rest1)[..|scheme|] == scheme;
    assert (scheme + [c] + rest2)[..|scheme|] == scheme;
  }

  /** Appending anything to a URL keeps it a URL. */
  lemma IsUrlExtends(text: seq<char>, rest: seq<char>)
    requires IsUrl(text)
    ensures IsUrl(text + rest)
  {
    IsUrlIffSchemeAndBodyChar(text);
    IsUrlIffSchemeAndBodyChar(text + rest);
    assert (text + rest)[..7] == text[..7];
    if 8 <= |text| {
      assert (text + rest)[..8] == text[..8];
    }
  }

  /** The two schemes cannot both be prefixes: they differ at index 4. */
  lemma SchemesExclusive(text: seq<char>)
    ensures !(HasPrefix(text, "http://") && HasPrefix(text, "https://"))
  {
    if HasPrefix(text, "http://") && 8 <= |text| {
      assert text[..8][4] == text[..7][4] == ':';
    }
  }

  /** After a scheme, a character of the body set makes the text a URL,
      whatever follows. */
  lemma AcceptsBodyChar(scheme: seq<char>, c: char, rest: seq<char>)
    requires scheme == "http://" || scheme == "https://"
    requires UrlBodyChar(c)
    ensures IsUrl(scheme + [c] + rest)
  {
    var text := scheme + [c] + rest;
    IsUrlIffSchemeAndBodyChar(text);
    assert text[..|scheme|] == scheme;
    assert text[|scheme|] == c;
  }

  /** After a scheme, a character outside the body set (space, '#', '"', '`',
      '{', '|', '}', '~', ...) makes the text no URL, whatever follows. */
  lemma RejectsOutsideBodySet(scheme: seq<char>, c: char, rest: seq<char>)
    requires scheme == "http://" || scheme == "https://"
    requires !UrlBodyChar(c)
    ensures !IsUrl(scheme + [c] + rest)
  {
    var text := scheme + [c] + rest;
    IsUrlIffSchemeAndBodyChar(text);
    SchemesExclusive(text);
    assert text[..|scheme|] == scheme;
    assert text[|scheme|] == c;
  }

  /** A text whose character at `i` differs from the prefix's does not start with it. */
  lemma DiffersAt(text: seq<char>, prefix: seq<char>, i: nat)
    requires i < |prefix| && i < |text| && text[i] != prefix[i]
    ensures !HasPrefix(text, prefix)
  {
  }

  /** Inputs that are rejected: no scheme, another scheme, an upper-case
      scheme, a bare scheme, or a scheme followed by a space. */
  lemma RejectedExamples()
    ensures !IsUrl("hello world")
    ensures !IsUrl("ftp://example.com")
    ensures !IsUrl("HTTP://example.com")
    ensures !IsUrl("http://")
    ensures !IsUrl("https://")
    ensures !IsUrl("http:// example.com")
  {
    DiffersAt("hello world", "http://", 1);
    DiffersAt("hello world", "https://", 1);
    DiffersAt("ftp://example.com", "http://", 0);
    DiffersAt("ftp://example.com", "https://", 0);
    DiffersAt("HTTP://example.com", "http://", 0);
    DiffersAt("HTTP://example.com", "https://", 0);
    DiffersAt("http://", "https://", 4);
    RejectsOutsideBodySet("http://", ' ', "example.com");
    assert "http:// example.com" == "http://" + [' '] + "example.com";
  }

  /** A URL is accepted ... */
  lemma AcceptsExampleUrl()
    ensures IsUrl("https://example.com/video")
  {
    assert "https://example.com/video" == "https://" + ['e'] + "xample.com/video";
    AcceptsBodyChar("https://", 'e', "xample.com/video");
  }

  /** ... and so is a URL prefix followed by text that is no URL. */
  lemma AcceptsTrailingText()
    ensures IsUrl("http://x y")
  {
    assert "http://x y" == "http://" + ['x'] + " y";
    AcceptsBodyChar("http://", 'x', " y");
  }
}
