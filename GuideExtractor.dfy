/**
 * The "today's school guide" section of a newsletter body
 * (`extract_school_guide_content`).
 *
 * The source runs the pattern
 *     今日の学校案内（(.+?)）\s*-----\s*(.*?)\s*-----
 * with `re.search` and `re.DOTALL`. Here the pattern is written out by hand:
 * `IsGuideMatch` is the set of every way the pattern can match a body,
 * `TriedFirst` is the order in which Python's backtracking matcher tries
 * those ways, and `FirstGuideMatch` searches the body and is proved to
 * return the match that comes first in that order.
 */
module GuideExtractor {
  import opened Options
  import opened Text

  /** The heading that opens the section, up to and including the
      full-width opening parenthesis. */
  const Heading: string := "今日の学校案内（"
  /** The full-width closing parenthesis that ends the label. */
  const LabelClose: char := '）'
  /** The delimiter before and after the section. It is matched as a
      substring, not as a line. */
  const Delimiter: string := "-----"

  /** One way the pattern matches: the heading starts at `at`, group 1 has
      `labelLen` characters, the first delimiter starts at `open`, group 2
      is `s[start..end]` and the second delimiter starts at `close`. */
  datatype GuideMatch = GuideMatch(at: nat, labelLen: nat, open: nat, start: nat, end: nat, close: nat)
  {
    /** Index of the closing parenthesis after the label. */
    function Paren(): nat { at + |Heading| + labelLen }
  }

  /** `m` is a match of the pattern in `s`: `.+?` is any non-empty run
      (with DOTALL it may contain newlines), each `\s*` is a whitespace run
      and `.*?` is any run. */
  ghost predicate IsGuideMatch(s: string, m: GuideMatch) {
    && OccursAt(s, Heading, m.at)
    && m.labelLen >= 1
    && m.Paren() < |s| && s[m.Paren()] == LabelClose
    && m.Paren() + 1 <= m.open && AllSpace(s, m.Paren() + 1, m.open)
    && OccursAt(s, Delimiter, m.open)
    && m.open + |Delimiter| <= m.start && AllSpace(s, m.open + |Delimiter|, m.start)
    && m.start <= m.end <= m.close && AllSpace(s, m.end, m.close)
    && OccursAt(s, Delimiter, m.close)
  }

  /** Python's matcher tries `m` no later than `m2`: the leftmost heading
      first, then the shorter (lazy) label, then the longer (greedy)
      whitespace run before group 2, then the shorter (lazy) group 2. The
      other positions are fixed by these (see `FirstGuideMatchUnique`). */
  predicate TriedFirst(m: GuideMatch, m2: GuideMatch) {
    || m.at < m2.at
    || (m.at == m2.at && m.labelLen < m2.labelLen)
    || (m.at == m2.at && m.labelLen == m2.labelLen && m.start > m2.start)
    || (m.at == m2.at && m.labelLen == m2.labelLen && m.start == m2.start && m.end <= m2.end)
  }

  /** `m` is the match `re.search` reports. */
  ghost predicate IsFirstGuideMatch(s: string, m: GuideMatch) {
    IsGuideMatch(s, m) && forall m2 :: IsGuideMatch(s, m2) ==> TriedFirst(m, m2)
  }

  /** `m` is the first match with heading `p` and label length `labelLen`. */
  ghost predicate FirstForLabel(s: string, m: GuideMatch, p: nat, labelLen: nat) {
    && IsGuideMatch(s, m) && m.at == p && m.labelLen == labelLen
    && forall m2 :: IsGuideMatch(s, m2) && m2.at == p && m2.labelLen == labelLen ==> TriedFirst(m, m2)
  }

  /** No match has heading `p` and label length `labelLen`. */
  ghost predicate NoMatchForLabel(s: string, p: nat, labelLen: nat) {
    forall m2 :: IsGuideMatch(s, m2) ==> !(m2.at == p && m2.labelLen == labelLen)
  }

  /** A delimiter starts with a character that is not whitespace. */
  lemma DelimiterStart(s: string, i: nat)
    requires OccursAt(s, Delimiter, i)
    ensures i < |s| && !IsSpace(s[i])
  {
    assert s[i] == s[i..i + |Delimiter|][0];
  }

  /** Whitespace runs from `i` that stop at non-whitespace cannot be outrun. */
  lemma SpaceRunBound(s: string, i: nat, a: nat, b: nat)
    requires i <= a && i <= b
    requires AllSpace(s, i, a) && (a == |s| || !IsSpace(s[a]))
    requires AllSpace(s, i, b)
    ensures b <= a
  {
    if a < |s| {
      NotInSpaceRun(s, i, b, a);
    }
  }

  /** Every match with this heading and label length has the first
      delimiter right after the whitespace that follows the parenthesis,
      group 2 starting no later than the end of the whitespace after that
      delimiter, and the second delimiter no earlier. */
  lemma AfterLabelBounds(s: string, m: GuideMatch)
    requires IsGuideMatch(s, m)
    ensures m.open == SkipSpace(s, m.Paren() + 1)
    ensures m.start <= SkipSpace(s, m.open + |Delimiter|) <= m.close
  {
    DelimiterStart(s, m.open);
    SpaceRunEnd(s, m.Paren() + 1, SkipSpace(s, m.Paren() + 1), m.open);
    var g := SkipSpace(s, m.open + |Delimiter|);
    SpaceRunBound(s, m.open + |Delimiter|, g, m.start);
    DelimiterStart(s, m.close);
    NotInSpaceRun(s, m.open + |Delimiter|, g, m.close);
  }

  /** A match with heading `p` and label length `labelLen` has a delimiter
      after the whitespace that follows its label, and another one at or
      after the whitespace that follows that. */
  lemma MatchNeedsDelimiters(s: string, m: GuideMatch, p: nat, labelLen: nat)
    requires IsGuideMatch(s, m) && m.at == p && m.labelLen == labelLen
    ensures OccursAt(s, Delimiter, SkipSpace(s, p + |Heading| + labelLen + 1))
    ensures FindFrom(s, Delimiter, SkipSpace(s, SkipSpace(s, p + |Heading| + labelLen + 1) + |Delimiter|)).Some?
  {
    AfterLabelBounds(s, m);
  }

  /** Without those two delimiters there is no match with heading `p` and
      label length `labelLen`. */
  lemma AfterLabelNone(s: string, p: nat, labelLen: nat)
    requires p + |Heading| + labelLen < |s|
    requires !OccursAt(s, Delimiter, SkipSpace(s, p + |Heading| + labelLen + 1))
             || FindFrom(s, Delimiter, SkipSpace(s, SkipSpace(s, p + |Heading| + labelLen + 1) + |Delimiter|)).None?
    ensures NoMatchForLabel(s, p, labelLen)
  {
    forall m2 | IsGuideMatch(s, m2)
      ensures !(m2.at == p && m2.labelLen == labelLen)
    {
      if m2.at == p && m2.labelLen == labelLen {
        MatchNeedsDelimiters(s, m2, p, labelLen);
      }
    }
  }

  /** The match built from the first delimiter `o` after the label, the
      longest whitespace run after it (ending at `g`) and the nearest second
      delimiter `d` is a match, and it comes first among the matches with
      this heading and label length. */
  lemma AfterLabelFirst(s: string, p: nat, labelLen: nat, o: nat, g: nat, d: nat)
    requires OccursAt(s, Heading, p) && labelLen >= 1
    requires p + |Heading| + labelLen < |s| && s[p + |Heading| + labelLen] == LabelClose
    requires o == SkipSpace(s, p + |Heading| + labelLen + 1) && OccursAt(s, Delimiter, o)
    requires g == SkipSpace(s, o + |Delimiter|)
    requires FindFrom(s, Delimiter, g) == Some(d)
    ensures FirstForLabel(s, GuideMatch(p, labelLen, o, g, TrimSpaceEnd(s, g, d), d), p, labelLen)
  {
    AfterLabelIsMatch(s, p, labelLen, o, g, d);
    forall m2 | IsGuideMatch(s, m2) && m2.at == p && m2.labelLen == labelLen
      ensures TriedFirst(GuideMatch(p, labelLen, o, g, TrimSpaceEnd(s, g, d), d), m2)
    {
      AfterLabelBefore(s, o, g, d, m2);
    }
  }

  /** The positions the matcher settles on for a heading and label form a
      match. */
  lemma AfterLabelIsMatch(s: string, p: nat, labelLen: nat, o: nat, g: nat, d: nat)
    requires OccursAt(s, Heading, p) && labelLen >= 1
    requires p + |Heading| + labelLen < |s| && s[p + |Heading| + labelLen] == LabelClose
    requires o == SkipSpace(s, p + |Heading| + labelLen + 1) && OccursAt(s, Delimiter, o)
    requires g == SkipSpace(s, o + |Delimiter|)
    requires FindFrom(s, Delimiter, g) == Some(d)
    ensures IsGuideMatch(s, GuideMatch(p, labelLen, o, g, TrimSpaceEnd(s, g, d), d))
  {
    var e := TrimSpaceEnd(s, g, d);
    var m := GuideMatch(p, labelLen, o, g, e, d);
    assert m.Paren() + 1 <= o && AllSpace(s, m.Paren() + 1, o);
    assert o + |Delimiter| <= g && AllSpace(s, o + |Delimiter|, g);
    assert g <= e <= d && AllSpace(s, e, d);
  }

  /** A match with the same heading and label as the one the matcher
      settles on has group 2 starting no later than `g`, the end of the
      longest whitespace run, and, when it starts at `g`, ending no earlier
      than the start of the whitespace before the nearest delimiter `d`. */
  lemma AfterLabelBefore(s: string, o: nat, g: nat, d: nat, m2: GuideMatch)
    requires IsGuideMatch(s, m2)
    requires o == SkipSpace(s, m2.Paren() + 1) && o + |Delimiter| <= |s|
    requires g == SkipSpace(s, o + |Delimiter|)
    requires FindFrom(s, Delimiter, g) == Some(d) && d <= |s|
    ensures m2.start <= g
    ensures m2.start == g ==> TrimSpaceEnd(s, g, d) <= m2.end
  {
    AfterLabelBounds(s, m2);
    DelimiterStart(s, d);
    if m2.start == g && m2.close != d {
      NotInSpaceRun(s, m2.end, m2.close, d);
    }
  }

  /** The match, if any, that the matcher finds for a fixed heading `p` and
      label length `labelLen`: the first delimiter right after the
      whitespace that follows the label, group 2 from the end of the
      whitespace after it to the start of the whitespace before the nearest
      second delimiter. */
  function MatchAfterLabel(s: string, p: nat, labelLen: nat): (r: Option<GuideMatch>)
    requires OccursAt(s, Heading, p) && labelLen >= 1
    requires p + |Heading| + labelLen < |s| && s[p + |Heading| + labelLen] == LabelClose
    ensures r.Some? ==> FirstForLabel(s, r.value, p, labelLen)
    ensures r.None? ==> NoMatchForLabel(s, p, labelLen)
  {
    var o := SkipSpace(s, p + |Heading| + labelLen + 1);
    if !OccursAt(s, Delimiter, o) then
      AfterLabelNone(s, p, labelLen);
      None
    else
      var g := SkipSpace(s, o + |Delimiter|);
      match FindFrom(s, Delimiter, g)
      case None =>
        AfterLabelNone(s, p, labelLen);
        None
      case Some(d) =>
        AfterLabelFirst(s, p, labelLen, o, g, d);
        Some(GuideMatch(p, labelLen, o, g, TrimSpaceEnd(s, g, d), d))
  }

  /** `m` is the first match with heading `p` and a label of at least
      `labelLen` characters. */
  ghost predicate FirstFromLabel(s: string, m: GuideMatch, p: nat, labelLen: nat) {
    && IsGuideMatch(s, m) && m.at == p && m.labelLen >= labelLen
    && forall m2 :: IsGuideMatch(s, m2) && m2.at == p && m2.labelLen >= labelLen ==> TriedFirst(m, m2)
  }

  /** Every match with heading `p` has a label shorter than `labelLen`. */
  ghost predicate NoMatchFromLabel(s: string, p: nat, labelLen: nat) {
    forall m2 :: IsGuideMatch(s, m2) && m2.at == p ==> m2.labelLen < labelLen
  }

  /** Trying label length `labelLen` first and longer labels after it finds
      the first match with a label of at least `labelLen` characters. */
  lemma FromLabelStep(s: string, p: nat, labelLen: nat, here: Option<GuideMatch>, rest: Option<GuideMatch>)
    requires here.Some? ==> FirstForLabel(s, here.value, p, labelLen)
    requires here.None? ==> NoMatchForLabel(s, p, labelLen)
    requires here.None? && rest.Some? ==> FirstFromLabel(s, rest.value, p, labelLen + 1)
    requires here.None? && rest.None? ==> NoMatchFromLabel(s, p, labelLen + 1)
    ensures here.Some? ==> FirstFromLabel(s, here.value, p, labelLen)
    ensures here.None? && rest.Some? ==> FirstFromLabel(s, rest.value, p, labelLen)
    ensures here.None? && rest.None? ==> NoMatchFromLabel(s, p, labelLen)
  {
  }

  /** The first match with heading `p` and a label of at least `labelLen`
      characters: the lazy `(.+?)` tries label lengths in increasing order. */
  function MatchFromLabel(s: string, p: nat, labelLen: nat): (r: Option<GuideMatch>)
    requires OccursAt(s, Heading, p) && labelLen >= 1
    ensures r.Some? ==> FirstFromLabel(s, r.value, p, labelLen)
    ensures r.None? ==> NoMatchFromLabel(s, p, labelLen)
    decreases |s| - labelLen
  {
    var paren := p + |Heading| + labelLen;
    if paren >= |s| then None
    else
      var here := if s[paren] == LabelClose then MatchAfterLabel(s, p, labelLen) else None;
      if here.Some? then
        FromLabelStep(s, p, labelLen, here, None);
        here
      else
        var rest := MatchFromLabel(s, p, labelLen + 1);
        FromLabelStep(s, p, labelLen, here, rest);
        rest
  }

  /** `m` is the first match whose heading starts at `p` or later. */
  ghost predicate FirstFrom(s: string, m: GuideMatch, p: nat) {
    IsGuideMatch(s, m) && p <= m.at && forall m2 :: IsGuideMatch(s, m2) && p <= m2.at ==> TriedFirst(m, m2)
  }

  /** Every match has its heading before `p`. */
  ghost predicate NoMatchFrom(s: string, p: nat) {
    forall m2 :: IsGuideMatch(s, m2) ==> m2.at < p
  }

  /** Trying the heading at `p` first and later headings after it finds the
      first match whose heading starts at `p` or later. */
  lemma FromHeadingStep(s: string, p: nat, here: Option<GuideMatch>, rest: Option<GuideMatch>)
    requires here.Some? ==> FirstFromLabel(s, here.value, p, 1)
    requires here.None? ==> NoMatchFromLabel(s, p, 1)
    requires here.None? && rest.Some? ==> FirstFrom(s, rest.value, p + 1)
    requires here.None? && rest.None? ==> NoMatchFrom(s, p + 1)
    ensures here.Some? ==> FirstFrom(s, here.value, p)
    ensures here.None? && rest.Some? ==> FirstFrom(s, rest.value, p)
    ensures here.None? && rest.None? ==> NoMatchFrom(s, p)
  {
  }

  /** The first match whose heading starts at `p` or later: `re.search`
      tries start positions from left to right. */
  function FirstGuideMatchFrom(s: string, p: nat): (r: Option<GuideMatch>)
    ensures r.Some? ==> FirstFrom(s, r.value, p)
    ensures r.None? ==> NoMatchFrom(s, p)
    decreases |s| - p
  {
    if p + |Heading| > |s| then None
    else
      var here := if OccursAt(s, Heading, p) then MatchFromLabel(s, p, 1) else None;
      if here.Some? then
        FromHeadingStep(s, p, here, None);
        here
      else
        var rest := FirstGuideMatchFrom(s, p + 1);
        FromHeadingStep(s, p, here, rest);
        rest
  }

  /** `re.search(pattern, s, re.DOTALL)`: the match Python reports, or none
      when the pattern cannot match at all. */
  function FirstGuideMatch(s: string): (r: Option<GuideMatch>)
    ensures r.Some? ==> IsFirstGuideMatch(s, r.value)
    ensures r.None? ==> forall m :: !IsGuideMatch(s, m)
  {
    FirstGuideMatchFrom(s, 0)
  }

  /** The first match is well defined: two matches that both come first
      are the same match. */
  lemma FirstGuideMatchUnique(s: string, m1: GuideMatch, m2: GuideMatch)
    requires IsFirstGuideMatch(s, m1) && IsFirstGuideMatch(s, m2)
    ensures m1 == m2
  {
    assert TriedFirst(m1, m2) && TriedFirst(m2, m1);
    AfterLabelBounds(s, m1);
    AfterLabelBounds(s, m2);
    DelimiterStart(s, m1.close);
    DelimiterStart(s, m2.close);
    SpaceRunEnd(s, m1.end, m1.close, m2.close);
  }

  /** Group 2 of the first match contains no delimiter: otherwise the lazy
      `(.*?)` would have stopped at it. */
  lemma FirstMatchContentHasNoDelimiter(s: string, m: GuideMatch)
    requires IsFirstGuideMatch(s, m)
    ensures forall k :: !OccursAt(s[m.start..m.end], Delimiter, k)
  {
    forall k: nat
      ensures !OccursAt(s[m.start..m.end], Delimiter, k)
    {
      OccursInSlice(s, Delimiter, m.start, m.end, k);
      if k + |Delimiter| <= m.end - m.start && OccursAt(s, Delimiter, m.start + k) {
        var shorter := m.(end := m.start + k, close := m.start + k);
        assert IsGuideMatch(s, shorter);
      }
    }
  }

  /** What the source returns on a match: group 1 as the theme information
      and group 2 with its escaped CR LFs made real newlines, then stripped. */
  datatype Guide = Guide(themeInfo: string, content: string)

  function GuideOf(s: string, m: GuideMatch): Guide
    requires IsGuideMatch(s, m)
  {
    Guide(s[m.at + |Heading|..m.Paren()], Strip(ReplaceEscapes(s[m.start..m.end])))
  }

  /** The shape every extracted guide has: a non-empty label, and content
      with no surrounding whitespace, no delimiter and no escaped CR LF. */
  predicate WellFormedGuide(g: Guide) {
    && |g.themeInfo| >= 1
    && (g.content == [] || (!IsSpace(g.content[0]) && !IsSpace(g.content[|g.content| - 1])))
    && !Contains(g.content, Delimiter)
    && !Contains(g.content, CrLfEscape)
  }

  /** The guide read off the first match is well formed. */
  lemma FirstGuideWellFormed(s: string, m: GuideMatch)
    requires IsFirstGuideMatch(s, m)
    ensures WellFormedGuide(GuideOf(s, m))
  {
    var raw := s[m.start..m.end];
    var content := Strip(ReplaceEscapes(raw));
    assert GuideOf(s, m) == Guide(s[m.at + |Heading|..m.Paren()], content);
    FirstMatchContentHasNoDelimiter(s, m);
    ReplaceEscapesKeepsAbsent(raw, Delimiter);
    StripKeepsAbsent(ReplaceEscapes(raw), Delimiter);
    ReplaceEscapesRemovesAll(raw);
    StripKeepsAbsent(ReplaceEscapes(raw), CrLfEscape);
    assert !Contains(content, Delimiter);
    assert !Contains(content, CrLfEscape);
  }

  /** `extract_school_guide_content(body)`: `None` stands for the source's
      `(None, None)`. */
  function ExtractSchoolGuide(body: string): Option<Guide> {
    match FirstGuideMatch(body)
    case None => None
    case Some(m) => Some(GuideOf(body, m))
  }

  /** Extraction yields `None` exactly when the pattern does not match, and
      never fails; otherwise it yields the label and content of the match
      Python reports, and that guide is well formed. */
  lemma ExtractSchoolGuideSpec(body: string)
    ensures ExtractSchoolGuide(body).None? <==> forall m :: !IsGuideMatch(body, m)
    ensures ExtractSchoolGuide(body).Some? ==>
              exists m :: IsFirstGuideMatch(body, m) && ExtractSchoolGuide(body).value == GuideOf(body, m)
    ensures ExtractSchoolGuide(body).Some? ==> WellFormedGuide(ExtractSchoolGuide(body).value)
  {
    match FirstGuideMatch(body)
    case None =>
    case Some(m) =>
      FirstGuideWellFormed(body, m);
  }

  /** A body without the heading has no guide section. */
  lemma NoGuideWithoutHeading(body: string)
    requires forall p :: !OccursAt(body, Heading, p)
    ensures ExtractSchoolGuide(body) == None
  {
    ExtractSchoolGuideSpec(body);
    forall m ensures !IsGuideMatch(body, m) {
      assert !OccursAt(body, Heading, m.at);
    }
  }

  /** A body in which no heading is followed by two non-overlapping
      delimiters has no guide section. */
  lemma NoGuideWithoutTwoDelimiters(body: string)
    requires forall p: nat, a: nat, b: nat ::
               (OccursAt(body, Heading, p) && OccursAt(body, Delimiter, a) && OccursAt(body, Delimiter, b)
                && p + |Heading| < a) ==> b < a + |Delimiter|
    ensures ExtractSchoolGuide(body) == None
  {
    ExtractSchoolGuideSpec(body);
    forall m ensures !IsGuideMatch(body, m) {
      if OccursAt(body, Heading, m.at) && OccursAt(body, Delimiter, m.open) && OccursAt(body, Delimiter, m.close) {
        assert m.close < m.open + |Delimiter| || m.open <= m.at + |Heading|;
      }
    }
  }
}
