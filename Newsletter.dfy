/**
 * Newsletter records and the fields the page derives from them: the date
 * label (`日付表示`), the weekday theme (`テーマ`), the theme-filtered view
 * and the 150-character guide preview.
 */
module Newsletter {
  import opened Options
  import opened Text
  import opened Selection

  /** One row of the archive: month, day, weekday label, title and body
      (the columns `月`, `日`, `曜日`, `タイトル`, `本文`). */
  datatype Record = Record(month: nat, day: nat, weekday: string, title: string, body: string)

  // ---------------------------------------------------------------------
  // Date label

  const MonthSuffix: string := "月"
  const DaySuffix: string := "日 ("

  /** `f"{int(月)}月{int(日)}日 ({曜日})"`. */
  function DateDisplay(r: Record): string {
    NatToString(r.month) + MonthSuffix + NatToString(r.day) + DaySuffix + r.weekday + ")"
  }

  predicate AllDigits(s: string) {
    forall i :: 0 <= i < |s| ==> IsDigit(s[i])
  }

  /** Reads a date label back into month, day and weekday. */
  function ParseDateDisplay(s: string): Option<(nat, nat, string)> {
    match FindFrom(s, MonthSuffix, 0)
    case None => None
    case Some(i) =>
      if !AllDigits(s[..i]) then None
      else
        match FindFrom(s, DaySuffix, i + |MonthSuffix|)
        case None => None
        case Some(j) =>
          if !AllDigits(s[i + |MonthSuffix|..j]) || |s| < j + |DaySuffix| + 1 || s[|s| - 1] != ')' then None
          else Some((ParseNat(s[..i]), ParseNat(s[i + |MonthSuffix|..j]), s[j + |DaySuffix|..|s| - 1]))
  }

  /** A run of digits holds no occurrence of a pattern that starts with a
      non-digit. */
  lemma NoPatternInDigits(s: string, pat: string, a: nat, b: nat)
    requires a <= b <= |s| && AllDigits(s[a..b])
    requires |pat| > 0 && !IsDigit(pat[0])
    ensures forall k :: a <= k < b ==> !OccursAt(s, pat, k)
  {
    forall k | a <= k < b
      ensures !OccursAt(s, pat, k)
    {
      assert s[k] == s[a..b][k - a];
      if k + |pat| <= |s| {
        assert s[k..k + |pat|][0] == s[k];
      }
    }
  }

  /** The date label determines the record's month, day and weekday. */
  lemma DateDisplayRoundTrip(r: Record)
    ensures ParseDateDisplay(DateDisplay(r)) == Some((r.month, r.day, r.weekday))
  {
    var ms, ds := NatToString(r.month), NatToString(r.day);
    var s := DateDisplay(r);
    var i := |ms|;
    var j := |ms| + |MonthSuffix| + |ds|;
    assert s == ms + MonthSuffix + ds + DaySuffix + r.weekday + ")";
    assert s[..i] == ms;
    assert s[i..i + |MonthSuffix|] == MonthSuffix;
    NoPatternInDigits(s, MonthSuffix, 0, i);
    FindFromFirst(s, MonthSuffix, 0, i);
    assert s[i + |MonthSuffix|..j] == ds;
    assert s[j..j + |DaySuffix|] == DaySuffix;
    NoPatternInDigits(s, DaySuffix, i + |MonthSuffix|, j);
    FindFromFirst(s, DaySuffix, i + |MonthSuffix|, j);
    assert s[j + |DaySuffix|..|s| - 1] == r.weekday;
    ParseNatToString(r.month);
    ParseNatToString(r.day);
  }

  /** Two records with the same date label agree on month, day and weekday. */
  lemma DateDisplayInjective(r1: Record, r2: Record)
    requires DateDisplay(r1) == DateDisplay(r2)
    ensures r1.month == r2.month && r1.day == r2.day && r1.weekday == r2.weekday
  {
    DateDisplayRoundTrip(r1);
    DateDisplayRoundTrip(r2);
  }

  // ---------------------------------------------------------------------
  // Weekday themes

  /** The fixed weekday-to-theme table; Sunday (`日`) has no entry. */
  const ThemeMapping: map<char, string> := map[
    '月' := "日大一の地理情報",
    '火' := "日大一の6年間",
    '水' := "日大一の進路",
    '木' := "学校行事",
    '金' := "日大一の入試",
    '土' := "日大一ストーリー"
  ]

  /** The theme option that shows every record. */
  const AllThemes: string := "すべて"

  /** `df['曜日'].str[0].map(theme_mapping)`: the theme for the first
      character of the weekday label, if the table has one. */
  function WeekdayTheme(weekday: string): Option<string> {
    if weekday != [] && weekday[0] in ThemeMapping then Some(ThemeMapping[weekday[0]]) else None
  }

  function ThemeOf(r: Record): Option<string> {
    WeekdayTheme(r.weekday)
  }

  /** The inverse table: which weekday a theme belongs to. */
  function ThemeWeekday(theme: string): (r: Option<char>)
    ensures r.Some? ==> r.value in ThemeMapping && ThemeMapping[r.value] == theme
    ensures r.None? ==> forall c :: c in ThemeMapping ==> ThemeMapping[c] != theme
  {
    if theme == "日大一の地理情報" then Some('月')
    else if theme == "日大一の6年間" then Some('火')
    else if theme == "日大一の進路" then Some('水')
    else if theme == "学校行事" then Some('木')
    else if theme == "日大一の入試" then Some('金')
    else if theme == "日大一ストーリー" then Some('土')
    else None
  }

  /** The six themes, in the table's order. */
  const Themes: seq<string> := [
    "日大一の地理情報", "日大一の6年間", "日大一の進路", "学校行事", "日大一の入試", "日大一ストーリー"
  ]

  /** The weekday label determines its theme and the theme determines the
      weekday's first character: the six themes are distinct. */
  lemma WeekdayThemeRoundTrip(weekday: string)
    ensures WeekdayTheme(weekday).Some? <==> weekday != [] && weekday[0] in ThemeMapping
    ensures WeekdayTheme(weekday).Some? ==> ThemeWeekday(WeekdayTheme(weekday).value) == Some(weekday[0])
  {
  }

  /** The table's fixed values; Sunday and any other first character map
      to no theme, and no theme is the "all" option. */
  lemma ThemeTable()
    ensures WeekdayTheme("月") == Some("日大一の地理情報")
    ensures WeekdayTheme("火") == Some("日大一の6年間")
    ensures WeekdayTheme("水") == Some("日大一の進路")
    ensures WeekdayTheme("木") == Some("学校行事")
    ensures WeekdayTheme("金") == Some("日大一の入試")
    ensures WeekdayTheme("土") == Some("日大一ストーリー")
    ensures forall w :: w != [] && w[0] == '日' ==> WeekdayTheme(w) == None
    ensures forall c :: c in ThemeMapping ==> ThemeMapping[c] in Themes
    ensures AllThemes !in Themes
  {
  }

  /** The boolean mask `df['テーマ'] == theme`, as a per-record step: a
      record of the theme is kept as it is. */
  function ThemeRow(theme: string): Record -> Option<Record> {
    rec => if ThemeOf(rec) == Some(theme) then Some(rec) else None
  }

  /** `df[df['テーマ'] == theme]`: the records of one theme, in archive order. */
  function FilterTheme(records: seq<Record>, theme: string): (r: seq<Record>)
    ensures |r| <= |records|
    ensures forall x :: x in r ==> x in records && ThemeOf(x) == Some(theme)
    ensures forall x :: x in records && ThemeOf(x) == Some(theme) ==> x in r
  {
    SelectPositions(records, ThemeRow(theme));
    var r := Select(records, ThemeRow(theme));
    assert forall x :: x in records && ThemeOf(x) == Some(theme) ==> x in r by {
      forall x | x in records && ThemeOf(x) == Some(theme) ensures x in r {
        var i :| 0 <= i < |records| && records[i] == x;
        assert i in Positions(records, ThemeRow(theme));
        var k :| 0 <= k < |Positions(records, ThemeRow(theme))| && Positions(records, ThemeRow(theme))[k] == i;
        assert r[k] == x;
      }
    }
    r
  }

  /** The archive positions of the records `FilterTheme` keeps. */
  function FilterPositions(records: seq<Record>, theme: string): seq<nat> {
    Positions(records, ThemeRow(theme))
  }

  /** The filtered view is an order- and count-preserving selection: entry
      `k` is record `FilterPositions[k]`, the positions strictly increase,
      and position `i` is selected exactly when record `i` has the theme. */
  lemma FilterThemeSelects(records: seq<Record>, theme: string)
    ensures var r, idx := FilterTheme(records, theme), FilterPositions(records, theme);
            && |idx| == |r|
            && (forall k, l :: 0 <= k < l < |idx| ==> idx[k] < idx[l])
            && (forall k :: 0 <= k < |idx| ==> idx[k] < |records| && r[k] == records[idx[k]])
            && (forall i :: 0 <= i < |records| ==> (i in idx <==> ThemeOf(records[i]) == Some(theme)))
  {
    SelectPositions(records, ThemeRow(theme));
  }

  /** The records the listing shows for the selected theme option, read as
      the filter of `app.py` alone: everything for "すべて", otherwise the
      theme's records. */
  function SelectByTheme(records: seq<Record>, selected: string): (r: seq<Record>)
    ensures selected == AllThemes ==> r == records
    ensures selected != AllThemes ==> forall x :: x in r ==> ThemeOf(x) == Some(selected)
    ensures selected != AllThemes ==> forall x :: x in records && ThemeOf(x) == Some(selected) ==> x in r
  {
    if selected == AllThemes then records else FilterTheme(records, selected)
  }

  /** A record whose weekday has no theme is listed only under "all". */
  lemma UnmappedOnlyUnderAll(records: seq<Record>, x: Record, selected: string)
    requires ThemeOf(x) == None && x in records
    ensures x in SelectByTheme(records, selected) <==> selected == AllThemes
  {
  }

  /** The listing the page as written shows: it sits inside the branch
      taken only when no search is shown and the selected option is not
      "すべて", so that option lists nothing. */
  function PageListing(records: seq<Record>, selected: string, searching: bool): (r: seq<Record>)
    ensures selected == AllThemes || searching ==> r == []
    ensures forall x :: x in r ==> x in records && ThemeOf(x) == Some(selected)
  {
    if searching || selected == AllThemes then [] else SelectByTheme(records, selected)
  }

  /** As written, "すべて" lists no record, and a record whose weekday has no
      theme is listed under no option at all. */
  lemma PageListingHidesUnmapped(records: seq<Record>, x: Record, selected: string, searching: bool)
    requires ThemeOf(x) == None && x in records
    ensures PageListing(records, AllThemes, searching) == []
    ensures x !in PageListing(records, selected, searching)
  {
    if !searching && selected != AllThemes {
      UnmappedOnlyUnderAll(records, x, selected);
    }
  }

  /** A record of theme `t` is listed as written exactly when no search is
      shown and `t` is selected. */
  lemma PageListingOfTheme(records: seq<Record>, x: Record, selected: string, searching: bool)
    requires x in records && ThemeOf(x).Some?
    ensures x in PageListing(records, selected, searching) <==> !searching && selected == ThemeOf(x).value
  {
    ThemeTable();
    if !searching && selected != AllThemes && selected != ThemeOf(x).value {
      assert x !in SelectByTheme(records, selected);
    }
  }

  /** The per-record step that keeps the records whose weekday has no theme. */
  function UnmappedRow(rec: Record): Option<Record> {
    if ThemeOf(rec) == None then Some(rec) else None
  }

  /** The records whose weekday has no theme, in archive order. */
  function Unmapped(records: seq<Record>): (r: seq<Record>)
    ensures forall x :: x in r ==> x in records && ThemeOf(x) == None
  {
    SelectPositions(records, UnmappedRow);
    Select(records, UnmappedRow)
  }

  /** Sum of the sizes of each theme's list. */
  function ThemeTotal(records: seq<Record>, themes: seq<string>): nat {
    if themes == [] then 0 else |FilterTheme(records, themes[0])| + ThemeTotal(records, themes[1..])
  }

  lemma {:induction false} ThemeTotalNoRecords(themes: seq<string>)
    ensures ThemeTotal([], themes) == 0
  {
    if themes != [] {
      ThemeTotalNoRecords(themes[1..]);
    }
  }

  predicate Distinct(themes: seq<string>) {
    forall i, j :: 0 <= i < j < |themes| ==> themes[i] != themes[j]
  }

  /** The first record adds one to the total of distinct themes when its
      theme is among them, and nothing otherwise. */
  lemma {:induction false} ThemeTotalStep(records: seq<Record>, themes: seq<string>)
    requires records != [] && Distinct(themes)
    ensures ThemeTotal(records, themes)
            == ThemeTotal(records[1..], themes)
               + (if ThemeOf(records[0]).Some? && ThemeOf(records[0]).value in themes then 1 else 0)
    decreases |themes|
  {
    if themes != [] {
      assert Distinct(themes[1..]) by {
        forall i, j | 0 <= i < j < |themes| - 1 ensures themes[1..][i] != themes[1..][j] {
          assert themes[1..][i] == themes[i + 1] && themes[1..][j] == themes[j + 1];
        }
      }
      assert themes[0] !in themes[1..] by {
        forall j | 0 <= j < |themes| - 1 ensures themes[1..][j] != themes[0] {
          assert themes[1..][j] == themes[j + 1];
        }
      }
      ThemeTotalStep(records, themes[1..]);
      SelectFront(records, ThemeRow(themes[0]));
      assert themes == [themes[0]] + themes[1..];
    }
  }

  /** A record falls in exactly one theme's list, or in none when its
      weekday is unmapped: per-theme counts plus unmapped records make up
      the total record count. */
  lemma {:induction false} ThemeCountsPartition(records: seq<Record>)
    ensures ThemeTotal(records, Themes) + |Unmapped(records)| == |records|
  {
    if records != [] {
      ThemeTable();
      assert Distinct(Themes);
      ThemeTotalStep(records, Themes);
      ThemeCountsPartition(records[1..]);
      var x := records[0];
      assert ThemeOf(x).Some? ==> ThemeOf(x).value in Themes by {
        if ThemeOf(x).Some? {
          assert ThemeOf(x).value == ThemeMapping[x.weekday[0]];
        }
      }
      SelectFront(records, UnmappedRow);
    } else {
      ThemeTotalNoRecords(Themes);
    }
  }

  // ---------------------------------------------------------------------
  // Preview

  const PreviewLength: nat := 150
  const Ellipsis: string := "..."

  /** `guide_content[:150] + "..." if len(guide_content) > 150 else guide_content`. */
  function Preview(content: string): (r: string)
    ensures |r| <= PreviewLength + |Ellipsis|
    ensures |content| <= PreviewLength ==> r == content
    ensures |content| > PreviewLength ==>
              |r| == PreviewLength + |Ellipsis| && r[..PreviewLength] == content[..PreviewLength]
              && r[PreviewLength..] == Ellipsis
  {
    if |content| > PreviewLength then content[..PreviewLength] + Ellipsis else content
  }

  /** A preview is its own preview. */
  lemma PreviewIdempotent(content: string)
    ensures Preview(Preview(content)) == Preview(content)
  {
  }
}
