# Newsletter archive text engine

This project models, in Dafny, the text engine behind a school newsletter
archive page (`app.py`). Each newsletter record has a month, a day, a weekday
label, a title and a body. The model covers the parts that work on those
records:

- **Guide extraction.** `extract_school_guide_content` finds the
  "今日の学校案内（…）" section between two `-----` delimiters. It returns
  the label in the parentheses and the section's text, with escaped CR LFs
  turned into newlines and surrounding whitespace stripped.
- **Theme extraction.** `get_theme_from_content` reads the theme named after
  "のテーマ：" in that heading, or answers "その他".
- **Highlighting.** `highlight_keywords` wraps every case-insensitive
  occurrence of a keyword in a highlight span.
- **Search.** `search_in_guide_content` keeps, in archive order, the records
  whose guide text contains the query, and attaches the highlighted text.
- **Page fields.** The weekday-to-theme table and the theme filter, the date
  label, the 150-character preview, and the record and per-theme counts.

Both regular expressions are written out by hand. For each one, a ghost
predicate gives every way the pattern can match, and a second predicate gives
the order in which Python's backtracking matcher tries those ways: leftmost
heading first, then lazy groups shortest first and greedy whitespace runs
longest first. The search functions are proved to return the first match in
that order, which is the match `re.search` reports. `\s` and `str.strip()`
share one whitespace table (`Text.IsSpace`, Python's `str.isspace`). One
per-character fold (`Text.Fold`) stands for both `str.lower()` and
`re.IGNORECASE`.

Modules:

- `Options` and `Text` hold string primitives: whitespace, case folding,
  substring search, `strip`, `replace('\\r\\n', '\n')` and decimal numerals.
- `GuideExtractor` and `ThemeExtractor` model the two regexes.
- `Highlighter` models the keyword highlighter.
- `Newsletter` models records, the date label, the themes and the preview.
- `Selection` is the generic in-order scan. It is the loop of
  `search_in_guide_content`, written over any per-element step.
- `Search` models the guide search. `Search.Found` is the loop body's per-record
  step: it tests the record and builds its row.

## Model

| member | source | states |
|---|---|---|
| GuideExtractor.ExtractSchoolGuide | app.py:146-153 | Has no contract of its own, so that callers need not unfold the regex model. Its contract is `GuideExtractor.ExtractSchoolGuideSpec`. |
| GuideExtractor.GuideOf | app.py:149-152 | Group 1 as the label, and group 2 with escaped CR LFs replaced and then stripped. Its properties are stated by `GuideExtractor.FirstGuideWellFormed`. |
| GuideExtractor.MatchAfterLabel | app.py:148 | For a fixed heading and label length, the result is the first match in the matcher's order, or there is no match with that heading and label. |
| GuideExtractor.MatchFromLabel | app.py:148 | For a fixed heading, the result is the first match whose label is at least the given length (the lazy `(.+?)`), or every match there has a shorter label. |
| GuideExtractor.FirstGuideMatchFrom | app.py:148 | The result is the first match whose heading starts at the given position or later, or every match starts earlier. |
| GuideExtractor.FirstGuideMatch | app.py:148 | `re.search` with DOTALL: the result is a match that comes before every other match in the matcher's order, and the result is None only when the pattern cannot match at all. |
| GuideExtractor.FirstGuideMatchUnique | app.py:148 | Two matches that both come first are equal, so the reported match is well defined. |
| GuideExtractor.FirstMatchContentHasNoDelimiter | app.py:148 | Group 2 of the reported match contains no `-----`, because the lazy `(.*?)` stops at the first delimiter. |
| GuideExtractor.FirstGuideWellFormed | app.py:149-152 | On the reported match, the label is non-empty. After the CR LF replacement and strip, the content has no surrounding whitespace, no `-----` and no escaped CR LF. |
| GuideExtractor.ExtractSchoolGuideSpec | app.py:146-153 | Extraction gives None exactly when the pattern has no match, and it never fails. Otherwise it gives the label and cleaned content of the match `re.search` reports, and that result is well formed. |
| GuideExtractor.NoGuideWithoutHeading | app.py:148-153 | A body without the heading has no guide section. |
| GuideExtractor.NoGuideWithoutTwoDelimiters | app.py:148-153 | A body with no heading followed by two non-overlapping delimiters has no guide section. |
| ThemeExtractor.ThemeLength | app.py:157 | The lazy `(.+?)` takes the shortest newline-free run that is followed by `）`, or there is no such run. |
| ThemeExtractor.ThemeFromPrefix | app.py:157 | For a fixed heading, the result is the first match whose `.+?` prefix is at least the given length, or every match there has a shorter prefix. |
| ThemeExtractor.FirstThemeMatchFrom | app.py:157 | The result is the first theme match whose heading starts at the given position or later, or every match starts earlier. |
| ThemeExtractor.FirstThemeMatch | app.py:157 | `re.search` without flags: the result is the match that comes first in the matcher's order, or None when the pattern cannot match at all. |
| ThemeExtractor.CapturedThemeShape | app.py:157-159 | The captured theme is non-empty, has no newline, and has no `）` after its first character. |
| ThemeExtractor.GetThemeFromContent | app.py:155-160 | The result is "その他" when the pattern has no match. Otherwise it is group 1 of the reported match, which is non-empty and has no newline. |
| Highlighter.HighlightKeywords | app.py:191-194 | With an empty keyword, the text comes back unchanged. |
| Highlighter.Pieces | app.py:197-198 | The split `re.sub` makes. It is specified by `Highlighter.PiecesSpec`. |
| Highlighter.Render | app.py:198 | Each hit is written inside its own span markup and every other character as it is. It is specified by its inverse `Highlighter.Unrender` through `Highlighter.UnrenderRender`. |
| Highlighter.UnrenderRender | app.py:198 | Reading the markup back gives exactly the pieces it was written from, when the covered text has no `<`. So every hit, and only a hit, is wrapped in its own span, in order. |
| Highlighter.HighlightUnrender | app.py:196-199 | For a non-empty keyword and a text without `<`, the string `highlight_keywords` returns reads back as the substitution's split `Pieces`. So what `PiecesSpec` states about the split holds for the returned markup. |
| Highlighter.PiecesSpec | app.py:197-198 | The substitution's split covers the text in order without overlap. Each hit has the keyword's length and fold-equals the keyword. A piece is a hit exactly when the keyword matches where the piece starts, so the scan is leftmost and skips no match. |
| Highlighter.HighlightErase | app.py:196-199 | Removing the span markup from the highlighted text gives back the text, when the text has no `<`. |
| Highlighter.HitsIffContained | app.py:173-175 | The highlighter makes at least one hit exactly when the lower-cased keyword is in the lower-cased text. Without a hit, the text comes back unchanged. |
| Highlighter.MixedCaseExample | app.py:197-198 | "ABCabc" highlighted for "abc" wraps both occurrences, and each keeps its own casing. |
| Selection.Collect | app.py:168-187 | The loop over the records returns exactly the rows the records yield, in order. |
| Selection.SelectPositions | app.py:168-187 | The collected rows are an order-preserving selection. Row k comes from element Positions[k], the positions strictly increase, and an element is selected exactly when it yields a row. |
| Search.Found | app.py:169-186 | The loop body for one record. It is specified by `Search.FoundKeeps`. |
| Search.Keeps | app.py:170-173 | The source's test for keeping a record. It is tied to `Found` by `Search.FoundKeeps`. |
| Search.SearchSpec | app.py:162-189 | The list the search returns. It is specified by `Search.SearchSelects`, `Search.ResultsHaveGuides` and `Search.ResultHighlighted`. |
| Search.RenderHasSpan | app.py:198 | Rendering with at least one hit writes a highlight span. |
| Search.FoundKeeps | app.py:170-187 | A record yields a row exactly when its guide section is present and non-empty and contains the query under folding. The row carries the record, the guide's label and content, and the highlighted content. |
| Search.SearchInGuideContent | app.py:162-189 | The result is the search specification. It is empty for the empty query and never longer than the archive. |
| Search.SearchSelects | app.py:162-189 | Results keep archive order. Each row comes from a record whose guide is present, non-empty and contains the query under folding, and carries that guide and its highlighted text. A record is selected exactly when the query is not the empty string and the record passes the test, so a whitespace-only query is searched like any other. |
| Search.ResultsHaveGuides | app.py:169-171 | Every result row comes from a record whose body has a guide section, and the row carries that section's label and content. |
| Search.ResultHighlighted | app.py:173-186 | Every result's highlighted text contains a highlight span. Erasing the markup gives back the guide text when that text has no `<`. |
| Newsletter.DateDisplay | app.py:139 | The date label. It is specified by its inverse, see `Newsletter.DateDisplayRoundTrip` and `Newsletter.DateDisplayInjective`. |
| Newsletter.DateDisplayRoundTrip | app.py:139 | The date label can be parsed back into the record's month, day and weekday. |
| Newsletter.DateDisplayInjective | app.py:139 | Two records with the same date label have the same month, day and weekday. |
| Newsletter.ThemeWeekday | app.py:240-247 | The inverse of the theme table: a theme maps back to the weekday that has it, and a string that is no theme maps to nothing. |
| Newsletter.WeekdayTheme | app.py:250 | `str[0].map(theme_mapping)`. It is specified by `Newsletter.WeekdayThemeRoundTrip` and `Newsletter.ThemeTable`. |
| Newsletter.ThemeOf | app.py:250 | A record's theme column, the weekday theme of its label. It is specified through `Newsletter.WeekdayTheme`. |
| Newsletter.WeekdayThemeRoundTrip | app.py:250 | A weekday label has a theme exactly when its first character is in the table, and that theme determines the first character. |
| Newsletter.ThemeTable | app.py:240-250 | The six weekdays map to their fixed themes. `日` maps to no theme. Every value in the table is one of the six themes, and "すべて" is none of them. |
| Newsletter.FilterTheme | app.py:375 | The filtered view has exactly the records of the selected theme, drawn from the archive, and is no longer than the archive. |
| Newsletter.FilterThemeSelects | app.py:375 | The filtered view is an order- and count-preserving selection. Entry k is record FilterPositions[k], the positions strictly increase, and a record is kept exactly when its theme is the selected one. |
| Newsletter.SelectByTheme | app.py:371-376 | The filter read on its own (the corrected listing, see Findings): "すべて" lists the whole archive, and any other option lists exactly the records of that theme. |
| Newsletter.UnmappedOnlyUnderAll | app.py:371-376 | Under that filter, a record whose weekday has no theme appears in a view exactly when the view is "すべて". |
| Newsletter.PageListing | app.py:360-376 | The listing as the page is written: nothing for "すべて" or while a search is shown, and otherwise only records of the selected theme. Its full behaviour is stated by `Newsletter.PageListingHidesUnmapped` and `Newsletter.PageListingOfTheme`. |
| Newsletter.PageListingHidesUnmapped | app.py:360-376 | As the page is written, "すべて" lists no record, and a record whose weekday has no theme is listed under no option. |
| Newsletter.PageListingOfTheme | app.py:360-376 | As the page is written, a record with a theme is listed exactly when no search is shown and its theme is the selected option. |
| Newsletter.ThemeCountsPartition | app.py:311-322 | The per-theme counts plus the records without a theme add up to the total record count. |
| Newsletter.Preview | app.py:396 | A guide of at most 150 characters is shown unchanged. A longer one is shown as its first 150 characters followed by "...", 153 characters in all. |
| Newsletter.PreviewIdempotent | app.py:396 | A preview is its own preview. |
| Text.FindFrom | app.py:148 | The result is the first occurrence of the pattern at or after the start position, or there is none. |
| Text.Strip | app.py:151 | `strip()` removes exactly the leading and trailing whitespace runs, so the result neither starts nor ends with whitespace. |
| Text.StripIdempotent | app.py:151 | Stripping twice is stripping once. |
| Text.StripKeepsAbsent | app.py:151 | Stripping cannot create an occurrence of a pattern. |
| Text.ReplaceEscapes | app.py:151 | `replace('\\r\\n', '\n')`, scanning left to right without overlap. The result is never longer than the input. Its other properties are stated by the three lemmas below. |
| Text.ReplaceEscapesIdentity | app.py:151 | Text without an escaped CR LF is left unchanged. |
| Text.ReplaceEscapesKeepsAbsent | app.py:151 | The replacement cannot create an occurrence of a non-empty pattern that has no newline, such as `-----`. |
| Text.ReplaceEscapesRemovesAll | app.py:151 | No escaped CR LF survives the replacement. |
| Text.ParseNatToString | app.py:139 | Reading back `str(n)` gives n. |

## Left out

- The Streamlit page (layout, CSS, widgets, buttons, reruns, markdown output) is not modelled. It only displays values. The "back to all articles" button (`app.py:365-367`) assigns "すべて" to a local variable that the immediate `st.rerun()` discards. On the rerun the select box keeps its previous value, so the option does not change.
- `Newsletter.SelectByTheme` and `Newsletter.UnmappedOnlyUnderAll` describe the filter of `app.py:371-376` read on its own, which is the intended listing. The page as written never lists for "すべて" (see Findings and `Newsletter.PageListing`).
- The Excel load (`pd.read_excel`) and the column renaming are not modelled. Records are a parameter.
- `dropna()` is not modelled: every record is assumed to have all five fields.
- Month and day are natural numbers. The model does not cover `int()` of the float values Excel can produce.
- `sort_values(['月', '日'])` before listing is not modelled. The filtered view keeps archive order (`Newsletter.FilterThemeSelects`).
- The display order of `value_counts()` is not modelled. Only the counts are (`Newsletter.ThemeCountsPartition`).
- `extract_popular_keywords` is not modelled. It returns a constant list and is not part of the text engine.
- The full-article expander (`app.py:399-408`) only displays the body and is not modelled.
- `Text.Fold`: only ASCII and full-width Latin capitals are folded. Python's full Unicode lower-casing is not modelled. Neither are the non-ASCII characters on which `str.lower()` and `re.IGNORECASE` disagree (for example U+0130 and U+017F: `re` matches `s` against `ſ` under IGNORECASE, but `'ſ'.lower()` does not contain `s`). Here the search test and the highlighter fold alike.
- `Text.IsSpace` lists the characters for which Python's `str.isspace()` holds. Unicode database changes are not modelled.
- HTML escaping is not modelled. The source inserts the guide text into markup without escaping, and so does the model. `Highlighter.HighlightErase` therefore assumes the text has no `<`.
- `ThemeExtractor.GetThemeFromContent`: "その他" is stated only for the case where the pattern has no match. The pattern can capture the string "その他" itself, so "その他 exactly when there is no match" does not hold.
- `Newsletter.Preview`: only one direction holds for "unchanged". A 153-character guide that ends in "..." is its own preview, so "the preview equals the guide exactly when the guide has at most 150 characters" does not hold.

## Findings

| source | as written | input that shows it | evidently intended | confidence | as-written member | corrected member |
|---|---|---|---|---|---|---|
| app.py:362-376 | The listing block (371-413) is indented under `if selected_theme != 'すべて':` (362). For the default option "すべて" the page lists no article, and the `filtered_df = df` branch (371-373) is unreachable. | Any archive with the option "すべて" and no search lists nothing. A record whose weekday label starts with `日` is listed under no option. | The listing dedented one level: "すべて" lists every record, and a theme lists exactly its records. | not executed; read from the indentation | Newsletter.PageListing, Newsletter.PageListingHidesUnmapped | Newsletter.SelectByTheme |
