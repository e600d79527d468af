/**
 * Keyword highlighting (`highlight_keywords`): every case-insensitive,
 * literal occurrence of the keyword, found left to right without overlap
 * as `re.sub` finds them, is wrapped in a highlight span that keeps the
 * text's own casing.
 *
 * The substitution is modelled in two steps: `Pieces` splits the text into
 * plain characters and keyword hits, and `Render` writes the hits out
 * inside span markup. `Unrender` reads markup back into pieces, and
 * `HighlightUnrender` shows that the highlighted string reads back as the
 * split.
 */
module Highlighter {
  import opened Options
  import opened Text

  const SpanOpen: string := "<span class=\"highlight\">"
  const SpanClose: string := "</span>"

  /** `keyword` matches `text` at `i` under case folding: what the escaped,
      `re.IGNORECASE` pattern accepts there. */
  predicate MatchesAt(text: string, keyword: string, i: nat) {
    i + |keyword| <= |text| && FoldStr(text[i..i + |keyword|]) == FoldStr(keyword)
  }

  /** A piece of the highlighted text: one character left as it is, or a
      hit that is wrapped in a span. */
  datatype Piece = Plain(ch: char) | Hit(text: string)

  /** The text a piece covers. */
  function Covered(p: Piece): string {
    match p
    case Plain(c) => [c]
    case Hit(t) => t
  }

  /** The text the pieces cover, in order. */
  function Flatten(ps: seq<Piece>): string {
    if ps == [] then [] else Covered(ps[0]) + Flatten(ps[1..])
  }

  /** Where piece `k` starts in the text. */
  function Offset(ps: seq<Piece>, k: nat): nat
    requires k <= |ps|
  {
    |Flatten(ps[..k])|
  }

  /** The markup the source emits for the pieces. */
  function Render(ps: seq<Piece>): string {
    if ps == [] then []
    else
      match ps[0]
      case Plain(c) => [c] + Render(ps[1..])
      case Hit(t) => SpanOpen + t + SpanClose + Render(ps[1..])
  }

  /** The scan `re.sub` makes: at each position, a match becomes a hit and
      scanning resumes after it; otherwise one character is kept. */
  function Pieces(text: string, keyword: string): seq<Piece>
    requires keyword != []
    decreases |text|
  {
    if text == [] then []
    else if MatchesAt(text, keyword, 0) then [Hit(text[..|keyword|])] + Pieces(text[|keyword|..], keyword)
    else [Plain(text[0])] + Pieces(text[1..], keyword)
  }

  /** `highlight_keywords(text, keyword)`. */
  function HighlightKeywords(text: string, keyword: string): (r: string)
    ensures keyword == [] ==> r == text
  {
    if keyword == [] then text else Render(Pieces(text, keyword))
  }

  lemma FlattenAppend(a: seq<Piece>, b: seq<Piece>)
    ensures Flatten(a + b) == Flatten(a) + Flatten(b)
  {
    if a == [] {
      assert a + b == b;
    } else {
      assert (a + b)[0] == a[0];
      assert (a + b)[1..] == a[1..] + b;
      FlattenAppend(a[1..], b);
    }
  }

  /** Matching at `n + i` in `text` is matching at `i` in `text[n..]`. */
  lemma MatchesAtShift(text: string, keyword: string, n: nat, i: nat)
    requires n <= |text|
    ensures MatchesAt(text, keyword, n + i) <==> MatchesAt(text[n..], keyword, i)
  {
    if n + i + |keyword| <= |text| {
      assert text[n..][i..i + |keyword|] == text[n + i..n + i + |keyword|];
    }
  }

  /** Piece `k + 1` starts where piece `k` of the tail starts, shifted by
      the length of the first piece. */
  lemma OffsetStep(ps: seq<Piece>, k: nat)
    requires 0 < k <= |ps|
    ensures Offset(ps, k) == |Covered(ps[0])| + Offset(ps[1..], k - 1)
  {
    assert ps[..k] == [ps[0]] + ps[1..][..k - 1];
    FlattenAppend([ps[0]], ps[1..][..k - 1]);
    assert Flatten([ps[0]]) == Covered(ps[0]) + Flatten([]);
  }

  /** The first piece: a hit of the keyword's length when the keyword
      matches at the start, one plain character otherwise. */
  lemma PiecesHead(text: string, keyword: string)
    requires keyword != [] && text != []
    ensures var ps := Pieces(text, keyword);
            var n := if MatchesAt(text, keyword, 0) then |keyword| else 1;
            && n <= |text| && |ps| >= 1
            && Covered(ps[0]) == text[..n]
            && ps[1..] == Pieces(text[n..], keyword)
            && (ps[0].Hit? <==> MatchesAt(text, keyword, 0))
            && (ps[0].Hit? ==> FoldStr(ps[0].text) == FoldStr(keyword))
  {
  }

  /** The pieces cover the text in order, without overlap. */
  lemma {:induction false} PiecesFlatten(text: string, keyword: string)
    requires keyword != []
    ensures Flatten(Pieces(text, keyword)) == text
    decreases |text|
  {
    if text != [] {
      var ps := Pieces(text, keyword);
      var n := if MatchesAt(text, keyword, 0) then |keyword| else 1;
      PiecesHead(text, keyword);
      PiecesFlatten(text[n..], keyword);
      assert Flatten(ps) == Covered(ps[0]) + Flatten(ps[1..]);
      assert text[..n] + text[n..] == text;
    }
  }

  /** A piece after the first one is a hit exactly when the keyword matches
      where it starts, if the same holds for it as a piece of the tail. */
  lemma PieceShift(text: string, keyword: string, n: nat, ps: seq<Piece>, tail: seq<Piece>, k: nat)
    requires n <= |text| && 0 < k < |ps| && ps[1..] == tail && |Covered(ps[0])| == n
    requires tail[k - 1].Hit? <==> MatchesAt(text[n..], keyword, Offset(tail, k - 1))
    ensures ps[k] == tail[k - 1]
    ensures ps[k].Hit? <==> MatchesAt(text, keyword, Offset(ps, k))
  {
    OffsetStep(ps, k);
    MatchesAtShift(text, keyword, n, Offset(tail, k - 1));
  }

  /** The pieces are exactly the split `re.sub` makes: they cover the text
      in order without overlap, each hit matches the keyword under case
      folding, and a piece is a hit exactly when the keyword matches where
      it starts (so no match is skipped and scanning is leftmost). */
  lemma {:induction false} PiecesSpec(text: string, keyword: string)
    requires keyword != []
    ensures Flatten(Pieces(text, keyword)) == text
    ensures forall k :: 0 <= k < |Pieces(text, keyword)| ==>
              var p := Pieces(text, keyword)[k];
              (p.Hit? <==> MatchesAt(text, keyword, Offset(Pieces(text, keyword), k)))
              && (p.Hit? ==> |p.text| == |keyword| && FoldStr(p.text) == FoldStr(keyword))
    decreases |text|
  {
    PiecesFlatten(text, keyword);
    if text != [] {
      var ps := Pieces(text, keyword);
      var n := if MatchesAt(text, keyword, 0) then |keyword| else 1;
      PiecesHead(text, keyword);
      PiecesSpec(text[n..], keyword);
      var tail := Pieces(text[n..], keyword);
      forall k | 0 <= k < |ps|
        ensures ps[k].Hit? <==> MatchesAt(text, keyword, Offset(ps, k))
        ensures ps[k].Hit? ==> |ps[k].text| == |keyword| && FoldStr(ps[k].text) == FoldStr(keyword)
      {
        if k > 0 {
          PieceShift(text, keyword, n, ps, tail, k);
        } else {
          assert ps[..0] == [];
        }
      }
    }
  }

  /** Scans the markup: drops every span tag and keeps everything else. */
  function Erase(s: string): string
    decreases |s|
  {
    if s == [] then []
    else if OccursAt(s, SpanOpen, 0) then Erase(s[|SpanOpen|..])
    else if OccursAt(s, SpanClose, 0) then Erase(s[|SpanClose|..])
    else [s[0]] + Erase(s[1..])
  }

  /** Text without `<` passes through `Erase` untouched. */
  lemma {:induction false} EraseKeeps(u: string, rest: string)
    requires '<' !in u
    ensures Erase(u + rest) == u + Erase(rest)
    decreases |u|
  {
    if u == [] {
      assert u + rest == rest;
    } else {
      var s := u + rest;
      assert s[0] == u[0];
      assert SpanOpen[0] == '<' && SpanClose[0] == '<';
      assert !OccursAt(s, SpanOpen, 0) && !OccursAt(s, SpanClose, 0);
      assert s[1..] == u[1..] + rest;
      EraseKeeps(u[1..], rest);
      assert [u[0]] + u[1..] == u;
    }
  }

  lemma EraseOpenTag(x: string)
    ensures Erase(SpanOpen + x) == Erase(x)
  {
    var s := SpanOpen + x;
    assert s[..|SpanOpen|] == SpanOpen;
    assert s[|SpanOpen|..] == x;
  }

  lemma EraseCloseTag(x: string)
    ensures Erase(SpanClose + x) == Erase(x)
  {
    var s := SpanClose + x;
    assert s[1] == '/' && SpanOpen[1] == 's';
    assert !OccursAt(s, SpanOpen, 0);
    assert s[..|SpanClose|] == SpanClose;
    assert s[|SpanClose|..] == x;
  }

  /** A hit's span tags are dropped and its text kept. */
  lemma EraseHit(t: string, after: string)
    requires '<' !in t
    ensures Erase(SpanOpen + t + SpanClose + after) == t + Erase(after)
  {
    assert SpanOpen + t + SpanClose + after == SpanOpen + (t + (SpanClose + after));
    EraseOpenTag(t + (SpanClose + after));
    EraseKeeps(t, SpanClose + after);
    EraseCloseTag(after);
  }

  lemma {:induction false} EraseRender(ps: seq<Piece>)
    requires '<' !in Flatten(ps)
    ensures Erase(Render(ps)) == Flatten(ps)
  {
    if ps != [] {
      assert '<' !in Flatten(ps[1..]) && '<' !in Covered(ps[0]);
      EraseRender(ps[1..]);
      match ps[0]
      case Plain(c) =>
        EraseKeeps([c], Render(ps[1..]));
      case Hit(t) =>
        EraseHit(t, Render(ps[1..]));
    }
  }

  /** Removing the span markup from the highlighted text gives back the
      text, whenever the text itself holds no `<`. */
  lemma HighlightErase(text: string, keyword: string)
    requires '<' !in text
    ensures Erase(HighlightKeywords(text, keyword)) == text
  {
    if keyword == [] {
      EraseKeeps(text, []);
      assert text + [] == text;
    } else {
      PiecesSpec(text, keyword);
      EraseRender(Pieces(text, keyword));
    }
  }

  /** Reads markup back into pieces: a span tag pair with the text between
      them becomes a hit, any other character a plain piece. */
  function Unrender(s: string): seq<Piece>
    decreases |s|
  {
    if s == [] then []
    else if OccursAt(s, SpanOpen, 0) then
      match FindFrom(s, SpanClose, |SpanOpen|)
      case Some(j) => [Hit(s[|SpanOpen|..j])] + Unrender(s[j + |SpanClose|..])
      case None => [Plain(s[0])] + Unrender(s[1..])
    else [Plain(s[0])] + Unrender(s[1..])
  }

  /** The closing tag of a rendered hit is the first one after its opening
      tag. */
  lemma CloseAfterHit(t: string, after: string)
    requires '<' !in t
    ensures FindFrom(SpanOpen + t + SpanClose + after, SpanClose, |SpanOpen|)
            == Some(|SpanOpen| + |t|)
  {
    var s := SpanOpen + t + SpanClose + after;
    var j := |SpanOpen| + |t|;
    assert s[j..j + |SpanClose|] == SpanClose;
    forall k | |SpanOpen| <= k < j
      ensures !OccursAt(s, SpanClose, k)
    {
      assert s[k] == t[k - |SpanOpen|];
    }
    FindFromFirst(s, SpanClose, |SpanOpen|, j);
  }

  /** A rendered hit is read back as that hit, followed by whatever was
      rendered after it. */
  lemma UnrenderHit(t: string, after: string)
    requires '<' !in t
    ensures Unrender(SpanOpen + t + SpanClose + after) == [Hit(t)] + Unrender(after)
  {
    var s := SpanOpen + t + SpanClose + after;
    var j := |SpanOpen| + |t|;
    assert s[..|SpanOpen|] == SpanOpen;
    CloseAfterHit(t, after);
    assert s[|SpanOpen|..j] == t;
    assert s[j + |SpanClose|..] == after;
  }

  /** A character other than `<` is read back as a plain piece. */
  lemma UnrenderPlain(c: char, after: string)
    requires c != '<'
    ensures Unrender([c] + after) == [Plain(c)] + Unrender(after)
  {
    var s := [c] + after;
    assert s[0] == c && SpanOpen[0] == '<';
    assert !OccursAt(s, SpanOpen, 0);
    assert s[1..] == after;
  }

  /** Reading the markup back gives the pieces it was rendered from,
      whenever the covered text holds no `<`: every hit, and only the hits,
      sits inside its own span. */
  lemma {:induction false} UnrenderRender(ps: seq<Piece>)
    requires '<' !in Flatten(ps)
    ensures Unrender(Render(ps)) == ps
  {
    if ps != [] {
      var rest := Render(ps[1..]);
      assert '<' !in Flatten(ps[1..]) && '<' !in Covered(ps[0]);
      UnrenderRender(ps[1..]);
      match ps[0]
      case Plain(c) =>
        assert Render(ps) == [c] + rest;
        UnrenderPlain(c, rest);
      case Hit(t) =>
        assert Render(ps) == SpanOpen + t + SpanClose + rest;
        UnrenderHit(t, rest);
      assert [ps[0]] + ps[1..] == ps;
    }
  }

  /** The string `highlight_keywords` returns reads back as the substitution's
      split: every hit of `Pieces` is wrapped in its own span, in order, and
      nothing else is. */
  lemma HighlightUnrender(text: string, keyword: string)
    requires keyword != [] && '<' !in text
    ensures Unrender(HighlightKeywords(text, keyword)) == Pieces(text, keyword)
  {
    PiecesFlatten(text, keyword);
    UnrenderRender(Pieces(text, keyword));
  }

  /** The number of hits. */
  function HitCount(ps: seq<Piece>): nat {
    if ps == [] then 0 else (if ps[0].Hit? then 1 else 0) + HitCount(ps[1..])
  }

  /** Without hits, rendering writes the covered text and no markup. */
  lemma {:induction false} RenderNoHits(ps: seq<Piece>)
    requires HitCount(ps) == 0
    ensures Render(ps) == Flatten(ps)
  {
    if ps != [] {
      RenderNoHits(ps[1..]);
    }
  }

  /** Folding commutes with slicing. */
  lemma FoldSlice(s: string, i: nat, j: nat)
    requires i <= j <= |s|
    ensures FoldStr(s[i..j]) == FoldStr(s)[i..j]
  {
  }

  /** A match at the start is an occurrence of the folded keyword in the
      folded text. */
  lemma MatchFoldContains(text: string, keyword: string)
    requires MatchesAt(text, keyword, 0)
    ensures FoldContains(text, keyword)
  {
    FoldSlice(text, 0, |keyword|);
    assert OccursAt(FoldStr(text), FoldStr(keyword), 0);
  }

  /** Without a match at the start, the folded keyword occurs in the folded
      text exactly when it occurs after the first character. */
  lemma NoMatchFoldContains(text: string, keyword: string)
    requires text != [] && !MatchesAt(text, keyword, 0)
    ensures FoldContains(text, keyword) <==> FoldContains(text[1..], keyword)
  {
    var ft, fk, frest := FoldStr(text), FoldStr(keyword), FoldStr(text[1..]);
    assert frest == ft[1..];
    assert !OccursAt(ft, fk, 0) by {
      if |keyword| <= |text| {
        FoldSlice(text, 0, |keyword|);
      }
    }
    if FoldContains(text, keyword) {
      var i: nat :| i <= |ft| && OccursAt(ft, fk, i);
      OccursInSlice(ft, fk, 1, |ft|, i - 1);
      assert ft[1..|ft|] == frest;
    }
    if FoldContains(text[1..], keyword) {
      var i: nat :| i <= |frest| && OccursAt(frest, fk, i);
      OccursInSlice(ft, fk, 1, |ft|, i);
      assert ft[1..|ft|] == frest;
    }
  }

  /** The keyword is found under case folding (the source's
      `keyword.lower() in text.lower()`) exactly when the highlighter makes
      at least one hit; when it is not found the text comes back unchanged. */
  lemma {:induction false} HitsIffContained(text: string, keyword: string)
    requires keyword != []
    ensures HitCount(Pieces(text, keyword)) > 0 <==> FoldContains(text, keyword)
    ensures !FoldContains(text, keyword) ==> HighlightKeywords(text, keyword) == text
    decreases |text|
  {
    if text == [] {
      assert !OccursAt(FoldStr(text), FoldStr(keyword), 0);
    } else if MatchesAt(text, keyword, 0) {
      MatchFoldContains(text, keyword);
    } else {
      HitsIffContained(text[1..], keyword);
      NoMatchFoldContains(text, keyword);
      if !FoldContains(text, keyword) {
        RenderNoHits(Pieces(text, keyword));
        PiecesFlatten(text, keyword);
      }
    }
  }

  /** Both casings of the keyword are wrapped, each keeping its own case. */
  lemma MixedCaseExample()
    ensures HighlightKeywords("ABCabc", "abc")
            == SpanOpen + "ABC" + SpanClose + SpanOpen + "abc" + SpanClose
  {
    var text := "ABCabc";
    assert FoldStr("ABC") == "abc" by {
      assert Fold('A') == 'a' && Fold('B') == 'b' && Fold('C') == 'c';
    }
    assert FoldStr("abc") == "abc";
    assert text[..3] == "ABC" && text[3..] == "abc";
    assert MatchesAt(text, "abc", 0);
    assert "abc"[..3] == "abc" && "abc"[3..] == [];
    assert MatchesAt("abc", "abc", 0);
    assert Pieces(text, "abc") == [Hit("ABC"), Hit("abc")];
  }
}
