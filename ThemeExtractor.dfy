/**
 * The theme named in a body's guide heading (`get_theme_from_content`).
 *
 * The source runs the pattern
 *     今日の学校案内（.+?のテーマ：(.+?)）
 * with `re.search` and no flags, so `.` does not match a newline. As for the
 * guide section, `IsThemeMatch` is every way the pattern can match,
 * `ThemeTriedFirst` the order Python's matcher tries them in, and
 * `FirstThemeMatch` is proved to return the first of them.
 */
module ThemeExtractor {
  import opened Options
  import opened Text
  import GuideExtractor

  /** The marker between the day's topic and the theme. */
  const ThemeMarker: string := "のテーマ："
  /** What the source returns when the heading pattern does not match. */
  const OtherTheme: string := "その他"

  /** No newline in `s[i..j]`: what `.` matches without `re.DOTALL`. */
  predicate NoNewline(s: string, i: nat, j: nat) {
    j <= |s| && forall k :: i <= k < j ==> s[k] != '\n'
  }

  /** One way the pattern matches: the heading starts at `at`, the lazy
      `.+?` before the marker has `prefixLen` characters and the captured
      theme has `themeLen` characters. */
  datatype ThemeMatch = ThemeMatch(at: nat, prefixLen: nat, themeLen: nat)
  {
    /** Index of the marker. */
    function Marker(): nat { at + |GuideExtractor.Heading| + prefixLen }
    /** Index of the captured theme. */
    function Theme(): nat { Marker() + |ThemeMarker| }
  }

  /** The captured run is at least one character long, holds no newline and
      is followed by the closing parenthesis. */
  predicate ClosesAt(s: string, y: nat, b: nat) {
    b >= 1 && y + b < |s| && NoNewline(s, y, y + b) && s[y + b] == GuideExtractor.LabelClose
  }

  ghost predicate IsThemeMatch(s: string, m: ThemeMatch) {
    && OccursAt(s, GuideExtractor.Heading, m.at)
    && m.prefixLen >= 1 && NoNewline(s, m.at + |GuideExtractor.Heading|, m.Marker())
    && OccursAt(s, ThemeMarker, m.Marker())
    && ClosesAt(s, m.Theme(), m.themeLen)
  }

  /** Leftmost heading first, then the shorter lazy prefix, then the shorter
      lazy theme. */
  predicate ThemeTriedFirst(m: ThemeMatch, m2: ThemeMatch) {
    || m.at < m2.at
    || (m.at == m2.at && m.prefixLen < m2.prefixLen)
    || (m.at == m2.at && m.prefixLen == m2.prefixLen && m.themeLen <= m2.themeLen)
  }

  ghost predicate IsFirstThemeMatch(s: string, m: ThemeMatch) {
    IsThemeMatch(s, m) && forall m2 :: IsThemeMatch(s, m2) ==> ThemeTriedFirst(m, m2)
  }

  /** The shortest length of at least `b` that the lazy `(.+?)` starting at
      `y` can take. */
  function ThemeLength(s: string, y: nat, b: nat): (r: Option<nat>)
    requires b >= 1 && NoNewline(s, y, y + b - 1)
    ensures r.Some? ==> b <= r.value && ClosesAt(s, y, r.value)
    ensures r.Some? ==> forall b2 :: b <= b2 < r.value ==> !ClosesAt(s, y, b2)
    ensures r.None? ==> forall b2 :: b <= b2 ==> !ClosesAt(s, y, b2)
    decreases |s| - (y + b)
  {
    if y + b >= |s| then None
    else if s[y + b - 1] == '\n' then
      assert forall b2 :: b <= b2 ==> !ClosesAt(s, y, b2);
      None
    else if s[y + b] == GuideExtractor.LabelClose then Some(b)
    else ThemeLength(s, y, b + 1)
  }

  /** `m` is the first match with heading `p` and a prefix of at least `a`
      characters. */
  ghost predicate FirstFromPrefix(s: string, m: ThemeMatch, p: nat, a: nat) {
    && IsThemeMatch(s, m) && m.at == p && m.prefixLen >= a
    && forall m2 :: IsThemeMatch(s, m2) && m2.at == p && m2.prefixLen >= a ==> ThemeTriedFirst(m, m2)
  }

  /** Every match with heading `p` has a prefix shorter than `a`. */
  ghost predicate NoMatchFromPrefix(s: string, p: nat, a: nat) {
    forall m2 :: IsThemeMatch(s, m2) && m2.at == p ==> m2.prefixLen < a
  }

  /** The marker right after a prefix of `a` characters, followed by the
      shortest theme that closes, gives the first match with that prefix. */
  lemma PrefixMatch(s: string, p: nat, a: nat, len: nat)
    requires OccursAt(s, GuideExtractor.Heading, p) && a >= 1
    requires NoNewline(s, p + |GuideExtractor.Heading|, p + |GuideExtractor.Heading| + a)
    requires OccursAt(s, ThemeMarker, p + |GuideExtractor.Heading| + a)
    requires ThemeLength(s, p + |GuideExtractor.Heading| + a + |ThemeMarker|, 1) == Some(len)
    ensures FirstFromPrefix(s, ThemeMatch(p, a, len), p, a)
  {
    var m := ThemeMatch(p, a, len);
    assert IsThemeMatch(s, m);
    forall m2 | IsThemeMatch(s, m2) && m2.at == p && m2.prefixLen >= a
      ensures ThemeTriedFirst(m, m2)
    {
      if m2.prefixLen == a {
        assert m2.themeLen >= len;
      }
    }
  }

  /** Without the marker after a prefix of `a` characters, or without a
      theme that closes after it, no match has that prefix. */
  lemma NoPrefixMatch(s: string, p: nat, a: nat)
    requires p + |GuideExtractor.Heading| + a <= |s|
    requires !OccursAt(s, ThemeMarker, p + |GuideExtractor.Heading| + a)
             || ThemeLength(s, p + |GuideExtractor.Heading| + a + |ThemeMarker|, 1).None?
    ensures forall m2 :: IsThemeMatch(s, m2) && m2.at == p ==> m2.prefixLen != a
  {
  }

  /** A newline at the end of a prefix of `a` characters rules out every
      prefix of at least `a` characters. */
  lemma NewlineEndsPrefix(s: string, p: nat, a: nat)
    requires a >= 1 && p + |GuideExtractor.Heading| + a <= |s|
    requires s[p + |GuideExtractor.Heading| + a - 1] == '\n'
    ensures NoMatchFromPrefix(s, p, a)
  {
  }

  /** Trying a prefix of `a` characters first and longer prefixes after it
      finds the first match with a prefix of at least `a` characters. */
  lemma FromPrefixStep(s: string, p: nat, a: nat, here: Option<ThemeMatch>, rest: Option<ThemeMatch>)
    requires here.Some? ==> FirstFromPrefix(s, here.value, p, a)
    requires here.None? ==> forall m2 :: IsThemeMatch(s, m2) && m2.at == p ==> m2.prefixLen != a
    requires here.None? && rest.Some? ==> FirstFromPrefix(s, rest.value, p, a + 1)
    requires here.None? && rest.None? ==> NoMatchFromPrefix(s, p, a + 1)
    ensures here.None? && rest.Some? ==> FirstFromPrefix(s, rest.value, p, a)
    ensures here.None? && rest.None? ==> NoMatchFromPrefix(s, p, a)
  {
  }

  /** The first match with heading `p` and a prefix of at least `a`
      characters: the lazy `.+?` tries prefix lengths in increasing order. */
  function ThemeFromPrefix(s: string, p: nat, a: nat): (r: Option<ThemeMatch>)
    requires OccursAt(s, GuideExtractor.Heading, p) && a >= 1
    requires NoNewline(s, p + |GuideExtractor.Heading|, p + |GuideExtractor.Heading| + a - 1)
    ensures r.Some? ==> FirstFromPrefix(s, r.value, p, a)
    ensures r.None? ==> NoMatchFromPrefix(s, p, a)
    decreases |s| - a
  {
    var x := p + |GuideExtractor.Heading| + a;
    if x > |s| then None
    else if s[x - 1] == '\n' then
      NewlineEndsPrefix(s, p, a);
      None
    else if OccursAt(s, ThemeMarker, x) && ThemeLength(s, x + |ThemeMarker|, 1).Some? then
      PrefixMatch(s, p, a, ThemeLength(s, x + |ThemeMarker|, 1).value);
      Some(ThemeMatch(p, a, ThemeLength(s, x + |ThemeMarker|, 1).value))
    else
      NoPrefixMatch(s, p, a);
      var rest := ThemeFromPrefix(s, p, a + 1);
      FromPrefixStep(s, p, a, None, rest);
      rest
  }

  /** `m` is the first match whose heading starts at `p` or later. */
  ghost predicate FirstThemeFrom(s: string, m: ThemeMatch, p: nat) {
    IsThemeMatch(s, m) && p <= m.at && forall m2 :: IsThemeMatch(s, m2) && p <= m2.at ==> ThemeTriedFirst(m, m2)
  }

  /** Every match has its heading before `p`. */
  ghost predicate NoThemeFrom(s: string, p: nat) {
    forall m2 :: IsThemeMatch(s, m2) ==> m2.at < p
  }

  /** Trying the heading at `p` first and later headings after it finds the
      first match whose heading starts at `p` or later. */
  lemma ThemeFromHeadingStep(s: string, p: nat, here: Option<ThemeMatch>, rest: Option<ThemeMatch>)
    requires here.Some? ==> FirstFromPrefix(s, here.value, p, 1)
    requires here.None? ==> NoMatchFromPrefix(s, p, 1)
    requires here.None? && rest.Some? ==> FirstThemeFrom(s, rest.value, p + 1)
    requires here.None? && rest.None? ==> NoThemeFrom(s, p + 1)
    ensures here.Some? ==> FirstThemeFrom(s, here.value, p)
    ensures here.None? && rest.Some? ==> FirstThemeFrom(s, rest.value, p)
    ensures here.None? && rest.None? ==> NoThemeFrom(s, p)
  {
  }

  /** The first match whose heading starts at `p` or later. */
  function FirstThemeMatchFrom(s: string, p: nat): (r: Option<ThemeMatch>)
    ensures r.Some? ==> FirstThemeFrom(s, r.value, p)
    ensures r.None? ==> NoThemeFrom(s, p)
    decreases |s| - p
  {
    if p + |GuideExtractor.Heading| > |s| then None
    else
      var here := if OccursAt(s, GuideExtractor.Heading, p) then ThemeFromPrefix(s, p, 1) else None;
      if here.Some? then
        ThemeFromHeadingStep(s, p, here, None);
        here
      else
        var rest := FirstThemeMatchFrom(s, p + 1);
        ThemeFromHeadingStep(s, p, here, rest);
        rest
  }

  /** `re.search(pattern, s)` for the theme pattern. */
  function FirstThemeMatch(s: string): (r: Option<ThemeMatch>)
    ensures r.Some? ==> IsFirstThemeMatch(s, r.value)
    ensures r.None? ==> forall m :: !IsThemeMatch(s, m)
  {
    FirstThemeMatchFrom(s, 0)
  }

  /** The theme captured by the first match is non-empty, holds no newline
      and has no closing parenthesis after its first character: the lazy
      `(.+?)` stops at the first one it can. */
  lemma CapturedThemeShape(s: string, m: ThemeMatch)
    requires IsFirstThemeMatch(s, m)
    ensures var r := s[m.Theme()..m.Theme() + m.themeLen];
            |r| >= 1 && '\n' !in r && forall i :: 1 <= i < |r| ==> r[i] != GuideExtractor.LabelClose
  {
    var r := s[m.Theme()..m.Theme() + m.themeLen];
    forall i | 1 <= i < |r|
      ensures r[i] != GuideExtractor.LabelClose
    {
      assert IsThemeMatch(s, m.(themeLen := i)) ==> m.themeLen <= i;
    }
  }

  /** `get_theme_from_content(body)`: "その他" when the pattern does not
      match; otherwise the captured theme of the match Python reports, which
      is non-empty, holds no newline and has no closing parenthesis after
      its first character. (A captured theme may itself read "その他".) */
  function GetThemeFromContent(body: string): (r: string)
    ensures (forall m :: !IsThemeMatch(body, m)) ==> r == OtherTheme
    ensures (exists m :: IsThemeMatch(body, m)) ==>
              exists m :: IsFirstThemeMatch(body, m) && r == body[m.Theme()..m.Theme() + m.themeLen]
    ensures (exists m :: IsThemeMatch(body, m)) ==>
              |r| >= 1 && '\n' !in r && forall i :: 1 <= i < |r| ==> r[i] != GuideExtractor.LabelClose
  {
    match FirstThemeMatch(body)
    case None => OtherTheme
    case Some(m) =>
      CapturedThemeShape(body, m);
      body[m.Theme()..m.Theme() + m.themeLen]
  }
}
