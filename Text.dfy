/** Option type shared by the engine's partial operations. */
module Options {
  datatype Option<+T> = None | Some(value: T)
}

/**
 * String primitives the text engine is built from: Python's whitespace
 * class, a per-character case fold, substring search, `str.strip()`
 * and `str.replace('\\r\\n', '\n')`.
 */
module Text {
  import opened Options

  /** The characters for which Python's `str.isspace()` holds; the `\s`
      class of a `re` pattern over `str` and `str.strip()` use the same set. */
  predicate IsSpace(c: char) {
    ('\t' <= c <= '\r') || ('\U{1c}' <= c <= '\U{1f}') || c == ' '
    || c == '\U{85}' || c == '\U{a0}' || c == '\U{1680}'
    || ('\U{2000}' <= c <= '\U{200a}') || c == '\U{2028}' || c == '\U{2029}'
    || c == '\U{202f}' || c == '\U{205f}' || c == '\U{3000}'
  }

  /** The case fold used for both `str.lower()` and `re.IGNORECASE`:
      ASCII and full-width Latin capitals map to their small letters. */
  function Fold(c: char): (r: char)
    ensures ('A' <= c <= 'Z') ==> r as int == c as int + 32
    ensures ('Ａ' <= c <= 'Ｚ') ==> r as int == c as int + 32
    ensures !('A' <= c <= 'Z') && !('Ａ' <= c <= 'Ｚ') ==> r == c
  {
    if 'A' <= c <= 'Z' || 'Ａ' <= c <= 'Ｚ' then (c as int + 32) as char else c
  }

  function FoldStr(s: string): (r: string)
    ensures |r| == |s|
    ensures forall i :: 0 <= i < |s| ==> r[i] == Fold(s[i])
  {
    seq(|s|, i requires 0 <= i < |s| => Fold(s[i]))
  }

  /** `pat` occurs in `s` starting at index `i`. */
  predicate OccursAt(s: string, pat: string, i: nat) {
    i + |pat| <= |s| && s[i..i + |pat|] == pat
  }

  /** Python's `pat in s`. */
  predicate Contains(s: string, pat: string) {
    exists i: nat | i <= |s| :: OccursAt(s, pat, i)
  }

  /** `s.lower()` contains `pat.lower()`, with `Fold` as the lower-casing. */
  predicate FoldContains(s: string, pat: string) {
    Contains(FoldStr(s), FoldStr(pat))
  }

  /** Every character of `s[i..j]` is whitespace. */
  predicate AllSpace(s: string, i: nat, j: nat) {
    j <= |s| && forall k :: i <= k < j ==> IsSpace(s[k])
  }

  /** Two maximal whitespace runs that start at the same place and end at a
      non-whitespace character (or the end of `s`) end at the same place. */
  lemma SpaceRunEnd(s: string, i: nat, a: nat, b: nat)
    requires i <= a && i <= b
    requires AllSpace(s, i, a) && (a == |s| || !IsSpace(s[a]))
    requires AllSpace(s, i, b) && (b == |s| || !IsSpace(s[b]))
    ensures a == b
  {
  }

  /** A character that is not whitespace lies outside every whitespace run. */
  lemma NotInSpaceRun(s: string, i: nat, j: nat, x: nat)
    requires AllSpace(s, i, j) && x < |s| && !IsSpace(s[x])
    ensures x < i || j <= x
  {
  }

  /** The end of the whitespace run that starts at `i` (a greedy `\s*`). */
  function SkipSpace(s: string, i: nat): (j: nat)
    requires i <= |s|
    ensures i <= j <= |s| && AllSpace(s, i, j)
    ensures j == |s| || !IsSpace(s[j])
    decreases |s| - i
  {
    if i < |s| && IsSpace(s[i]) then SkipSpace(s, i + 1) else i
  }

  /** The start of the whitespace run that ends at `j`, going no further
      left than `i`. */
  function TrimSpaceEnd(s: string, i: nat, j: nat): (k: nat)
    requires i <= j <= |s|
    ensures i <= k <= j && AllSpace(s, k, j)
    ensures forall k' :: i <= k' <= j && AllSpace(s, k', j) ==> k <= k'
    ensures k == i || !IsSpace(s[k - 1])
    decreases j
  {
    if i < j && IsSpace(s[j - 1]) then
      assert forall k' :: i <= k' < j && AllSpace(s, k', j) ==> AllSpace(s, k', j - 1);
      TrimSpaceEnd(s, i, j - 1)
    else j
  }

  /** The first occurrence of `pat` in `s` at or after `i` (`s.find(pat, i)`). */
  function FindFrom(s: string, pat: string, i: nat): (r: Option<nat>)
    ensures r.Some? ==> i <= r.value && OccursAt(s, pat, r.value)
    ensures r.Some? ==> forall k :: i <= k < r.value ==> !OccursAt(s, pat, k)
    ensures r.None? ==> forall k :: i <= k ==> !OccursAt(s, pat, k)
    decreases |s| - i
  {
    if i + |pat| > |s| then None
    else if OccursAt(s, pat, i) then Some(i)
    else FindFrom(s, pat, i + 1)
  }

  /** `FindFrom` returns exactly the first occurrence. */
  lemma FindFromFirst(s: string, pat: string, i: nat, d: nat)
    requires i <= d && OccursAt(s, pat, d)
    requires forall k :: i <= k < d ==> !OccursAt(s, pat, k)
    ensures FindFrom(s, pat, i) == Some(d)
  {
  }

  /** An occurrence in the slice `s[a..b]` is an occurrence in `s` that lies within `[a, b)`. */
  lemma OccursInSlice(s: string, pat: string, a: nat, b: nat, k: nat)
    requires a <= b <= |s|
    ensures OccursAt(s[a..b], pat, k) <==> k + |pat| <= b - a && OccursAt(s, pat, a + k)
  {
    if k + |pat| <= b - a {
      var u, v := s[a..b][k..k + |pat|], s[a + k..a + k + |pat|];
      assert forall i :: 0 <= i < |u| ==> u[i] == v[i];
      assert u == v;
    }
  }

  /** Pattern occurrences survive a prefix being put in front. */
  lemma OccursAfterPrefix(a: string, b: string, pat: string, i: nat)
    requires OccursAt(b, pat, i)
    ensures OccursAt(a + b, pat, |a| + i)
  {
    assert (a + b)[|a| + i..|a| + i + |pat|] == b[i..i + |pat|];
  }

  /** A substring of a string in which `pat` does not occur does not contain it either. */
  lemma AbsentInSlice(s: string, pat: string, a: nat, b: nat)
    requires a <= b <= |s|
    requires forall k :: a <= k && k + |pat| <= b ==> !OccursAt(s, pat, k)
    ensures forall k :: !OccursAt(s[a..b], pat, k)
  {
    forall k: nat
      ensures !OccursAt(s[a..b], pat, k)
    {
      OccursInSlice(s, pat, a, b, k);
    }
  }

  // ---------------------------------------------------------------------
  // str.strip()

  /** `s.strip()`: the slice of `s` that remains once its leading
      whitespace run (up to `SkipSpace(s, 0)`) and its trailing whitespace
      run are cut off; the result neither starts nor ends with whitespace. */
  function Strip(s: string): (r: string)
    ensures SkipSpace(s, 0) + |r| <= |s| && r == s[SkipSpace(s, 0)..SkipSpace(s, 0) + |r|]
    ensures AllSpace(s, SkipSpace(s, 0) + |r|, |s|)
    ensures r == [] || (!IsSpace(r[0]) && !IsSpace(r[|r| - 1]))
  {
    var a := SkipSpace(s, 0);
    s[a..TrimSpaceEnd(s, a, |s|)]
  }

  /** A string without leading or trailing whitespace is its own `strip()`. */
  lemma StripIdempotent(s: string)
    ensures Strip(Strip(s)) == Strip(s)
  {
    var r := Strip(s);
    assert SkipSpace(r, 0) == 0;
    assert TrimSpaceEnd(r, 0, |r|) == |r|;
    assert r[0..|r|] == r;
  }

  /** Strip cannot introduce an occurrence of `pat`. */
  lemma StripKeepsAbsent(s: string, pat: string)
    requires forall k :: !OccursAt(s, pat, k)
    ensures forall k :: !OccursAt(Strip(s), pat, k)
  {
    var a := SkipSpace(s, 0);
    AbsentInSlice(s, pat, a, a + |Strip(s)|);
  }

  // ---------------------------------------------------------------------
  // str.replace('\\r\\n', '\n')

  /** The four characters backslash, `r`, backslash, `n`: an escaped CR LF
      left in the stored text. */
  const CrLfEscape: string := "\\r\\n"

  /** `s.replace('\\r\\n', '\n')`: every escaped CR LF, scanned left to
      right without overlap, becomes one real newline. */
  function ReplaceEscapes(s: string): (r: string)
    ensures |r| <= |s|
    decreases |s|
  {
    if |s| == 0 then []
    else if OccursAt(s, CrLfEscape, 0) then "\n" + ReplaceEscapes(s[4..])
    else [s[0]] + ReplaceEscapes(s[1..])
  }

  /** Text without escapes is left unchanged. */
  lemma {:induction false} ReplaceEscapesIdentity(s: string)
    requires forall k :: !OccursAt(s, CrLfEscape, k)
    ensures ReplaceEscapes(s) == s
    decreases |s|
  {
    if |s| > 0 {
      assert !OccursAt(s, CrLfEscape, 0);
      forall k: nat ensures !OccursAt(s[1..], CrLfEscape, k) {
        OccursInSlice(s, CrLfEscape, 1, |s|, k);
      }
      ReplaceEscapesIdentity(s[1..]);
    }
  }

  /** A prefix of the replaced text that holds no newline was already a
      prefix of the original text. */
  lemma {:induction false} ReplacedPrefix(t: string, w: string)
    requires '\n' !in w
    ensures |w| <= |ReplaceEscapes(t)| && ReplaceEscapes(t)[..|w|] == w ==> |w| <= |t| && t[..|w|] == w
    decreases |w|
  {
    if |w| > 0 && |w| <= |ReplaceEscapes(t)| && ReplaceEscapes(t)[..|w|] == w {
      var r := ReplaceEscapes(t);
      assert r[0] == w[0];
      assert r[0] == if OccursAt(t, CrLfEscape, 0) then '\n' else t[0];
      assert r == [t[0]] + ReplaceEscapes(t[1..]);
      assert ReplaceEscapes(t[1..])[..|w| - 1] == w[1..];
      ReplacedPrefix(t[1..], w[1..]);
      assert t[..|w|] == [t[0]] + t[1..][..|w| - 1];
    }
  }

  /** Replacing escapes cannot create an occurrence of a newline-free
      pattern that the original text lacked. */
  lemma {:induction false} ReplaceEscapesKeepsAbsent(t: string, w: string)
    requires |w| > 0 && '\n' !in w
    requires forall k :: !OccursAt(t, w, k)
    ensures forall k :: !OccursAt(ReplaceEscapes(t), w, k)
    decreases |t|
  {
    if |t| > 0 {
      var r := ReplaceEscapes(t);
      var n := if OccursAt(t, CrLfEscape, 0) then 4 else 1;
      var rest := t[n..];
      assert r[1..] == ReplaceEscapes(rest);
      forall k: nat ensures !OccursAt(rest, w, k) {
        OccursInSlice(t, w, n, |t|, k);
      }
      ReplaceEscapesKeepsAbsent(rest, w);
      forall k: nat ensures !OccursAt(r, w, k) {
        if k == 0 && |w| <= |r| {
          assert r[0] == if n == 4 then '\n' else t[0];
          assert w[0] in w && !OccursAt(t, w, 0);
          ReplacedPrefix(t, w);
        } else if k > 0 {
          assert r[1..|r|] == r[1..];
          OccursInSlice(r, w, 1, |r|, k - 1);
        }
      }
    }
  }

  /** No escaped CR LF survives the replacement. */
  lemma {:induction false} ReplaceEscapesRemovesAll(t: string)
    ensures forall k :: !OccursAt(ReplaceEscapes(t), CrLfEscape, k)
    decreases |t|
  {
    if |t| > 0 {
      var r := ReplaceEscapes(t);
      var n := if OccursAt(t, CrLfEscape, 0) then 4 else 1;
      var rest := t[n..];
      assert r[1..] == ReplaceEscapes(rest);
      ReplaceEscapesRemovesAll(rest);
      forall k: nat ensures !OccursAt(r, CrLfEscape, k) {
        if k == 0 && 4 <= |r| {
          assert r[0] == if n == 4 then '\n' else t[0];
          ReplacedPrefix(t, CrLfEscape);
        } else if k > 0 {
          assert r[1..|r|] == r[1..];
          OccursInSlice(r, CrLfEscape, 1, |r|, k - 1);
        }
      }
    }
  }

  // ---------------------------------------------------------------------
  // Decimal numerals, for `str(int(n))`

  predicate IsDigit(c: char) { '0' <= c <= '9' }

  function DigitValue(c: char): nat
    requires IsDigit(c)
  {
    c as int - '0' as int
  }

  /** `str(n)` for a natural number. */
  function NatToString(n: nat): (r: string)
    ensures |r| > 0 && forall i :: 0 <= i < |r| ==> IsDigit(r[i])
    decreases n
  {
    if n < 10 then [('0' as int + n) as char]
    else NatToString(n / 10) + [('0' as int + n % 10) as char]
  }

  /** `int(s)` for a non-empty string of decimal digits. */
  function ParseNat(s: string): nat
    requires forall i :: 0 <= i < |s| ==> IsDigit(s[i])
    decreases |s|
  {
    if |s| == 0 then 0
    else 10 * ParseNat(s[..|s| - 1]) + DigitValue(s[|s| - 1])
  }

  /** Reading back the numeral gives the number. */
  lemma {:induction false} ParseNatToString(n: nat)
    ensures ParseNat(NatToString(n)) == n
    decreases n
  {
    if n >= 10 {
      var s := NatToString(n);
      assert s[..|s| - 1] == NatToString(n / 10);
      ParseNatToString(n / 10);
    }
  }
}
