# Exploit filter and game search, modelled in Dafny

This project models the two client-side widgets of the site.

- **The exploit filter** (`ExploitFilter` in js/chromekit.js) handles the
  `details` elements of the page, each tagged with `searchi` children.
  - Once, at start-up, it builds an index. Each tag text is split on `;`,
    trimmed and stripped of empty parts. Each part becomes either a numeric
    version requirement or a lower-cased term. Both kinds are kept in
    insertion-ordered Sets.
  - On every form change it reads the `esterm-value` of the checked inputs.
    It shows an element when it is untagged, or when nothing is checked, or
    when it passes the version test (some requirement is at most some
    selected version, if versions are selected) and the term test (some term
    is among the selected terms, if terms are selected). It hides every
    other element and counts the shown ones.
- **The game search** (`handleSearch` in js/gamellection.js) works on a
  fixed table of 37 games.
  - It lower-cases and trims the typed text.
  - A blank query clears the result.
  - Otherwise it keeps, in table order, the games whose lower-cased name
    contains the query.
  - It renders them as a `<ul>` of links, or as the fixed no-results message
    when nothing matches.

## Modules

| file | module | contents |
|---|---|---|
| `js_text.dfy` | `JsText` | The JavaScript string primitives: `split`, `trim` (the ECMAScript white-space set), `toLowerCase` (ASCII), `includes` (a left-to-right position scan), and the numeric test with its value. |
| `exploit_index.dfy` | `ExploitIndex` | The index as specification functions: tag parts, the version/term classification, Sets as duplicate-free sequences, one entry per element. Also the lemmas on what the index holds. |
| `exploit_rule.dfy` | `ExploitRule` | The selection made by the checked inputs, the visibility rule of lines 206-225, the match count, and the lemmas on the rule. |
| `exploit_filter.dfy` | `ExploitSearch` | The `ExploitFilter` object as a class. It holds the page's elements in an array and the index in a field. Its methods run the loops of `indexItems` and `applyFilter` and update elements in place through `toggleItem`. Each method is proved against the functions above. |
| `gamellection.dfy` | `Gamellection` | The `games` table, the search, its rendering, and the lemmas on them. |

Two modelling choices follow from the source itself.
- The visibility rule is the one the code applies, js/chromekit.js:206-225.
  The comments at lines 158-204 discuss other rules (strict matching, a
  term required whenever a version is). The flags `versionMatch` and
  `termMatch` that lines 161-192 compute for them are never read, so they
  are not modelled.
- The form's values are classified by the looser test of line 137. A
  checked input whose value is blank (empty or white space only) counts as a
  selected version. `parseFloat` turns it into NaN, which no requirement is
  at most. Such an input switches the version filter on and can never
  satisfy it (`ExploitRule.BlankValueHidesTagged`).

## Model

| member | source | states |
|---|---|---|
| JsText.Split | js/chromekit.js:85 | `split(";")` yields at least one piece, and no piece contains the separator |
| JsText.JoinSplit | js/chromekit.js:85 | splitting loses nothing: joining the pieces with the separator gives back the text |
| JsText.Trim | js/chromekit.js:85 | `trim` yields a text with no white space at either end, no longer than the input, made of the input's characters, and empty exactly when the input is all white space |
| JsText.TrimIdempotent | js/chromekit.js:85 | `trim` leaves a text that has no white space at either end unchanged; with `TrimPadded` this fixes `trim` completely |
| JsText.TrimPadded | js/gamellection.js:51 | `trim` ignores any white space added before or after a text |
| JsText.LowerChar | js/chromekit.js:92 | lower-casing maps each capital A-Z to its small letter (32 code points on) and leaves every other character, white space and `;` included, as it is; no capital remains |
| JsText.ToLowerCase | js/chromekit.js:92 | `toLowerCase` keeps the length and maps each character by `LowerChar` |
| JsText.LowerIsLower | js/chromekit.js:92 | a lower-cased text is lower case, and lower-casing it again changes nothing |
| JsText.TrimLowerCommute | js/gamellection.js:51 | `toLowerCase().trim()` equals `trim().toLowerCase()` |
| JsText.Includes | js/gamellection.js:61 | `s.includes(q)` as a left-to-right scan of the start positions; characterised by `IncludesAt` |
| JsText.IncludesAt | js/gamellection.js:61 | `s.includes(q)` holds exactly when `q` occurs in `s` at some index |
| JsText.IncludesTransitive | js/gamellection.js:61 | if `b` contains `a` and `c` contains `b`, then `c` contains `a` |
| JsText.NonNumeralStart | js/chromekit.js:89 | a text starting with anything but a digit, a point or a sign is not a decimal numeral (`ParseDecimal`); the parts that reach line 89 are already trimmed, so for them this is the numeric test |
| JsText.UnsignedAtDot | js/chromekit.js:89-90 | a numeral of digits, one point and digits has the value of its whole part plus its fraction, as `parseFloat` reads it |
| JsText.ZerosFraction | js/chromekit.js:90 | zeros after the point add nothing to the value, which is why "9.00" and "9" give the same version |
| JsText.ParseDecimal | js/chromekit.js:89-90 | the numeric test and `parseFloat` value of a trimmed part: an optional sign, then digits with at most one point; characterised by `IntegerParse`, `UnsignedAtDot`, `SignedParse`, `TwoPointsRejected`, `NonNumeralStart` and `UnsignedParse` |
| JsText.IntegerParse | js/chromekit.js:89-90 | a non-empty run of digits is a numeral whose value is its decimal value |
| JsText.SignedParse | js/chromekit.js:89-90 | a `-` before an unsigned numeral negates its value, and a `+` keeps it |
| JsText.TwoPointsUnsigned | js/chromekit.js:89 | a text with two points is not an unsigned numeral |
| JsText.TwoPointsRejected | js/chromekit.js:89 | a text with two points fails the numeric test, signed or not |
| JsText.NoPointInDigits | js/chromekit.js:89-90 | a run of digits holds no point |
| JsText.UnsignedParse | js/chromekit.js:89-90 | a text starting with a digit has no sign, so it is read as an unsigned numeral |
| JsText.ParseNumber | js/chromekit.js:89-90 | `!isNaN(part)` with `parseFloat(part)`: white space at either end is ignored (the same test classifies the checked values at lines 137-142); characterised by `TrimmedParse` |
| JsText.TrimmedParse | js/chromekit.js:89-90 | a trimmed text is read as it is |
| ExploitIndex.AddUnique | js/chromekit.js:90 | `set.add(x)` keeps the Set duplicate-free, adds exactly `x` and keeps the earlier members in their order |
| ExploitIndex.TrimEach | js/chromekit.js:85 | `.map(s => s.trim())` trims every piece and keeps `;`-free pieces `;`-free |
| ExploitIndex.DropEmpty | js/chromekit.js:85 | `.filter(s => s.length > 0)` keeps exactly the non-empty pieces |
| ExploitIndex.TagParts | js/chromekit.js:84-85 | every part of a tag text is non-empty, `;`-free and trimmed |
| ExploitIndex.AllParts | js/chromekit.js:83-85 | every part of an element's tags is non-empty, `;`-free and trimmed |
| ExploitIndex.Classify | js/chromekit.js:87-93 | a part becomes a term only when it fails the numeric test |
| ExploitIndex.Tokens | js/chromekit.js:87-93 | one token per part, in order, each the classification of its part |
| ExploitIndex.VersionsOf | js/chromekit.js:80-94 | the `versions` Set after adding the version tokens in order; characterised by `VersionsExact` and `VersionsCollapse` |
| ExploitIndex.TermsOf | js/chromekit.js:81-94 | the `terms` Set after adding the term tokens in order; characterised by `TermsExact` and `TermsCollapse` |
| ExploitIndex.EntryFor | js/chromekit.js:70-102 | the entry of one element; characterised by `EntryContents` and `IndexShape` |
| ExploitIndex.IndexOf | js/chromekit.js:70 | one entry per element in document order; characterised by `IndexShape` |
| ExploitIndex.AllPartsFromTags | js/chromekit.js:83-85 | an element's parts are exactly the parts of its tags |
| ExploitIndex.VersionsExact | js/chromekit.js:80-101 | the `versions` Set holds each version of the parts exactly once and nothing else |
| ExploitIndex.TermsExact | js/chromekit.js:81-101 | the `terms` Set holds each term of the parts exactly once and nothing else |
| ExploitIndex.EntryContents | js/chromekit.js:79-102 | a tagged element's entry is not flagged empty; it has no duplicate version or term; every term is non-empty, lower case, `;`-free and trimmed; every numeric part lands in `versions` and every other part, lower-cased, in `terms`; nothing else lands in either |
| ExploitIndex.TokensOfParts | js/chromekit.js:87-94 | the classified tokens are exactly the classifications of the parts |
| ExploitIndex.TokensFromTags | js/chromekit.js:83-94 | an element's tokens are exactly the classifications of its tags' parts |
| ExploitIndex.TermsAreIndexTerms | js/chromekit.js:92 | every term token is non-empty, lower case, `;`-free and trimmed |
| ExploitIndex.LowerOfCleanPart | js/chromekit.js:92 | lower-casing a clean part gives a valid index term |
| ExploitIndex.IndexShape | js/chromekit.js:70-77 | one entry per element in document order; an entry is flagged empty iff its element has no tags, and then it has neither versions nor terms |
| ExploitIndex.WordIsTerm | js/chromekit.js:92 | a trimmed part starting with a non-numeral character is stored as its lower-cased text |
| ExploitIndex.NineParses | js/chromekit.js:89-90 | "9" is the version 9 |
| ExploitIndex.NinePointZeroZeroParses | js/chromekit.js:89-90 | "9.00" is the version 9 |
| ExploitIndex.VersionsCollapse | js/chromekit.js:90 | the parts "9" and "9.00" give the single version 9 |
| ExploitIndex.TermsCollapse | js/chromekit.js:92 | two non-numeric parts that differ only in case give a single term |
| ExploitRule.NonBlank | js/chromekit.js:137 | keeps exactly the values that are not blank; it and the blanks dropped (`CountBlank`) add up to all the values |
| ExploitRule.SomeBlankCounted | js/chromekit.js:136-138 | a blank among the checked values is counted |
| ExploitRule.SelectionValues | js/chromekit.js:134-142 | every non-blank checked value lands as its version in `selectedVersions` or as its lower-cased term in `selectedTerms`, and nothing else lands in either |
| ExploitRule.SelectionBlanks | js/chromekit.js:134-142 | versions, blanks and terms add up to the checked values; the NaN versions are exactly the blank values, and any blank value switches the version filter on |
| ExploitRule.SelectionOf | js/chromekit.js:134-142 | the selection made by the checked values; characterised by `SelectionContents`, `NothingSelectedIffNoneChecked` and `BlankValueHidesTagged` |
| ExploitRule.SplitTokens | js/chromekit.js:136-142 | every classified value goes to exactly one of the version and term lists, and nothing else does |
| ExploitRule.SelectionContents | js/chromekit.js:134-142 | each checked value counts once, as a version, a blank or a term; every blank value is one NaN version, and any blank switches the version filter on; the numeric ones are in `selectedVersions`, the other non-blank ones, lower-cased, in `selectedTerms`, and nothing else |
| ExploitRule.NothingSelectedIffNoneChecked | js/chromekit.js:206-207 | neither filter is active exactly when no input is checked |
| ExploitRule.CountVisible | js/chromekit.js:147-225 | `matchCount` as the rule computes it, never more than the items; its value is stated by `CountVisibleIsSize` |
| ExploitRule.CountVisibleIsSize | js/chromekit.js:147-225 | the match count equals the number of positions whose item the selection shows |
| ExploitRule.SomeAtLeastIff | js/chromekit.js:210 | `sel.some(v => req <= v)` holds iff some selected version is at least `req` |
| ExploitRule.VersionTest | js/chromekit.js:209-211 | the version test holds iff some requirement is at most some selected version |
| ExploitRule.TermTest | js/chromekit.js:213-215 | the term test holds iff some term of the item is among the selected terms |
| ExploitRule.VersionPass | js/chromekit.js:209-211 | `vPass`; characterised by `VersionTest` |
| ExploitRule.TermPass | js/chromekit.js:213-215 | `tPass`; characterised by `TermTest` |
| ExploitRule.IsVisible | js/chromekit.js:150-222 | whether an item is shown; characterised by `VisibleIff` |
| ExploitRule.VisibleIff | js/chromekit.js:150-222 | an item is shown iff it is untagged, or no filter is active, or it passes the version test when that filter is active and the term test when that filter is active |
| ExploitRule.UntaggedAlwaysShown | js/chromekit.js:151-156 | an element without tags is shown whatever is checked |
| ExploitRule.NothingCheckedShowsAll | js/chromekit.js:217-222 | with nothing checked every item is shown and the count is the number of items |
| ExploitRule.NoRequirementFailsVersionFilter | js/chromekit.js:209-211 | a tagged item without version requirements fails an active version filter |
| ExploitRule.WideningKeepsVisible | js/chromekit.js:209-215 | selecting more versions or terms, without switching on an inactive filter, never hides a shown item |
| ExploitRule.WideningKeepsCount | js/chromekit.js:209-225 | such a widening never lowers the match count |
| ExploitRule.FirstVersionCanHide | js/chromekit.js:206-211 | switching the version filter on can hide an item: requirement 9 is shown with nothing checked and hidden when only 5.05 is checked |
| ExploitRule.BlankValueHidesTagged | js/chromekit.js:136-138 | a single checked blank value becomes one NaN version, which hides every tagged item |
| ExploitSearch.Toggled | js/chromekit.js:231-239 | `toggleItem(e, show)` leaves `e` displayed and not hidden when `show`, not displayed and `hidden="until-found"` otherwise, and does not touch the tags |
| ExploitSearch.LastToggleWins | js/chromekit.js:231-239 | only the last toggle of an element counts |
| ExploitSearch.CountShown | js/chromekit.js:225 | the number of shown elements, never more than the elements; its value is stated by `CountShownIsSize` |
| ExploitSearch.CountShownIsSize | js/chromekit.js:225 | the count equals the number of positions whose element is shown, the second reading `ApplyFilter` gives `matchCount` |
| ExploitSearch.AddToken | js/chromekit.js:89-93 | one more part adds its version to `versions` or its term to `terms`, as `set.add` does |
| ExploitSearch.AddParts | js/chromekit.js:85-94 | the inner `forEach` leaves both Sets equal to those of all parts seen so far |
| ExploitSearch.IndexElement | js/chromekit.js:70-102 | the callback's nested loops build exactly the entry `EntryFor` specifies |
| ExploitSearch.ExploitFilter.constructor | js/chromekit.js:11-44 | without its container or form the filter keeps an empty index; otherwise its index is the index of the page |
| ExploitSearch.ExploitFilter.IndexItems | js/chromekit.js:67-106 | `itemsIndex` becomes the index of the elements, entry `i` belonging to element `i` |
| ExploitSearch.ExploitFilter.ToggleItem | js/chromekit.js:231-239 | the element becomes `Toggled(old, show)` and every other element is unchanged |
| ExploitSearch.Decide | js/chromekit.js:150-222 | the callback decides `IsVisible`: it shows an item iff the item is untagged, or no filter is active, or some requirement is at most some selected version (when versions are selected) and some term is selected (when terms are selected) |
| ExploitSearch.ExploitFilter.ApplyFilter | js/chromekit.js:132-229 | every indexed element is toggled by the rule and the rest are unchanged; `matchCount` equals both the number of visible items and the number of indexed elements now shown |
| Gamellection.NormalizeQuery | js/gamellection.js:51 | the query is lower case and trimmed, and empty exactly when the typed text is all white space |
| Gamellection.GamesTable | js/gamellection.js:5-43 | the table holds the 37 games, from "3 Slices" to "Wordle+", in source order (written as four joined parts, lines 6-17, 18-28, 29-38 and 39-42) |
| Gamellection.Matches | js/gamellection.js:60-62 | the matches are exactly the games of the table whose lower-cased name contains the query |
| Gamellection.MatchesAppend | js/gamellection.js:60-62 | the matches keep table order: those of the first part of a table come before those of the second |
| Gamellection.ListHtmlAppend | js/gamellection.js:67-69 | the list is the items of the matches, concatenated in match order |
| Gamellection.ListItem | js/gamellection.js:68 | the `<li><a href=…>…</a></li>` of one game, name and URL unescaped |
| Gamellection.ListHtml | js/gamellection.js:66-69 | the items of the matches joined with no separator; characterised by `ListHtmlAppend` |
| Gamellection.LongerQueryNarrows | js/gamellection.js:60-62 | if query `q1` is a substring of `q2`, every match for `q2` is a match for `q1` |
| Gamellection.EmptyQueryMatchesAll | js/gamellection.js:54-62 | the empty query would match every game, which is why it is handled first |
| Gamellection.SearchOutcomes | js/gamellection.js:50-75 | the output is empty iff the typed text is all white space; it is the no-results message iff the query is not blank and nothing matches; it is `<ul>` + the items + `</ul>` iff something matches |
| Gamellection.Search | js/gamellection.js:50-75 | what `handleSearch` writes to the result container: "" for a blank query, otherwise the `<ul>` list, or the no-results message "rest in piss" of line 73; characterised by `SearchOutcomes` and `NormalizationInvariance` |
| Gamellection.HandleSearch | js/gamellection.js:50-75 | `Search` over the site's own table |
| Gamellection.NormalizeIdempotent | js/gamellection.js:51 | normalising a normalised query changes nothing |
| Gamellection.NormalizeTrimsFirst | js/gamellection.js:51 | the query is the trimmed text, lower-cased |
| Gamellection.NormalizeLowered | js/gamellection.js:51 | lower-casing the typed text first gives the same query |
| Gamellection.NormalizeTrimmed | js/gamellection.js:51 | trimming the typed text first gives the same query |
| Gamellection.SameQuerySameOutput | js/gamellection.js:51-75 | the output depends only on the normalised query |
| Gamellection.NormalizationInvariance | js/gamellection.js:51-75 | normalising, lower-casing or trimming the typed text first leaves the output unchanged |
| Gamellection.PaddingIgnored | js/gamellection.js:51 | white space typed before or after the query leaves the output unchanged |
| Gamellection.PaddedCapitalsIgnored | js/gamellection.js:51 | "  SLOPE " and "slope" give the same output |
| Gamellection.SlopeEntry | js/gamellection.js:39 | entry 33 of the table is Slope, with its page |
| Gamellection.SlopeMatchesItself | js/gamellection.js:39 | the Slope entry matches the query "slope" |
| Gamellection.LetterMissing | js/gamellection.js:60-62 | a query holding a letter that a name holds in neither case does not match that name |
| Gamellection.PairMissing | js/gamellection.js:60-62 | a query holding two letters in a row that a name never holds in a row, in any mix of cases, does not match that name |
| Gamellection.TitlesWithoutP1 | js/gamellection.js:6-10 | none of these titles contains "slope" once lower-cased, as none has a 'p' |
| Gamellection.TitlesWithoutSl | js/gamellection.js:11-14 | "Awesome Planes" and "Big FLAPPY Tower VS Tiny Square" do not contain "slope", as neither has "sl" in any case |
| Gamellection.TitlesWithoutP2 | js/gamellection.js:12-17 | none of the titles of lines 12-13 and 15-17 contains "slope", as none has a 'p' |
| Gamellection.TitlesWithoutP3 | js/gamellection.js:18-23 | none of these titles contains "slope", as none has a 'p' |
| Gamellection.TitlesWithoutP4 | js/gamellection.js:24-28 | none of these titles contains "slope" ("Escape Road" has no 'l', the others no 'p') |
| Gamellection.TitlesWithoutP5 | js/gamellection.js:29-33 | none of these titles contains "slope", as none has a 'p' |
| Gamellection.TitlesWithoutP6 | js/gamellection.js:34-38 | none of these titles contains "slope" (no 'l', no 's' or no 'p') |
| Gamellection.TitlesWithoutP7 | js/gamellection.js:40-42 | none of the titles after Slope contains "slope" |
| Gamellection.Part1MissesSlope | js/gamellection.js:6-17 | no game of these lines matches "slope" |
| Gamellection.Part2MissesSlope | js/gamellection.js:18-28 | no game of these lines matches "slope" |
| Gamellection.Part3MissesSlope | js/gamellection.js:29-38 | no game of these lines matches "slope" |
| Gamellection.Part4FindsSlope | js/gamellection.js:39-42 | of these lines only Slope matches "slope" |
| Gamellection.SlopeQueryNormal | js/gamellection.js:51 | "slope" is its own normalised query |
| Gamellection.ListHtmlSingle | js/gamellection.js:67-69 | a single match renders as its own list item |
| Gamellection.SlopeOnlyMatch | js/gamellection.js:5-62 | the matches of "slope" are the Slope entry and nothing else |
| Gamellection.SlopeOnly | js/gamellection.js:5-75 | typing "slope" shows a list holding the Slope link alone (and, by `PaddedCapitalsIgnored`, so does typing "  SLOPE ") |

## Left out

- server.js is not part of this model: it wires library middleware, serves static files and keeps a cookie counter.
- The DOM is abstracted. Elements are records in an array, and tags are their text contents. A missing `textContent` (`|| ""` at line 84) is not modelled. `innerHTML` is modelled as the string assigned to it.
- Checked inputs are given as their `esterm-value` strings. An input without the attribute behaves as a blank value in the source, and it is not modelled separately.
- A page without the filter's container or form is modelled as the constructor's `widgetFound` flag.
- `handleVisibility` (js/chromekit.js:49-61) is not modelled, because it only reads the URL and writes `aria-hidden` and `style.display` on the container. `bindEvents` and console logging are not modelled either.
- `updateStatus` is empty. `ApplyFilter` returns `matchCount` instead of passing it on.
- Debouncing with `setTimeout`/`clearTimeout` (js/chromekit.js:116-126, js/gamellection.js:80-84) is event timing only and is not modelled.
- Versions are exact reals, with no floating-point rounding.
- The numeric test accepts decimal numerals only: an optional sign, digits, and an optional point, with at least one digit, surrounded by optional white space.
  - Exponents (`1e3`), `Infinity`, and hexadecimal, binary and octal literals (`0x10`, `0b101`, `0o17`) are classified as terms here. JavaScript's `isNaN` treats them all as numbers.
  - For a hexadecimal, binary or octal literal the source would then store `parseFloat`'s value at js/chromekit.js:90, which is 0 (it reads only the leading "0"). The model stores the lower-cased literal as a term instead.
- `toLowerCase` maps ASCII letters only. Unicode case mapping is not modelled.
- The rendered list is not HTML-escaped, and neither is the model, as in the source.
