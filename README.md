# IMDBSpider, modelled in Dafny

IMDBSpider (`src/main/java/org/example/IMDBSpider.java`) reads a list of film
titles. For each title it runs an IMDb search and follows the first result.
It reads the film's page through a dozen XPath expressions and writes one
JSON record per film. This project models the logic between the HTML
library and the JSON writer:

- the value normalisers `formatDuration`, `formatBudgetGross`, `formatText`
  and `cleanText`, over strings as sequences of characters;
- the selector helpers `XPathEval` (the i-th match, or a fresh `"empty"`
  node) and `CumulativeXPathEval` (all matches copied into a new array);
- the assembly of a record from a page's matches (lines 145-208);
- the loop over the titles that stops at the first exception.

Files:

- `results.dfy` (module `Results`): `Option`, `Result` and the Java
  exceptions that can escape (`NumberFormat`, `SubstringRange`, `ArrayIndex`,
  `Transport`).
- `java_strings.dfy` (module `JavaStrings`): the parts of `String`,
  `Integer` and `java.util.regex` that the normalisers use. This covers
  `indexOf`, `parseInt`, `toString`, a literal `replaceAll`/`replace` and
  `trim`.
- `normalizers.dfy` (module `Normalizers`): the four normalisers and their
  properties.
- `selectors.dfy` (module `Selectors`): tag nodes, `XPathEval` and
  `CumulativeXPathEval`.
- `spider.dfy` (module `Spider`): pages, the movie record, its assembly
  (as a function and as the imperative method that builds it field by
  field), and the title loop.

A page is modelled as a function from each of the spider's selectors to the
sequence of nodes that selector matches, in document order. A node carries
its name, its text (`getText()`), its attributes, and the `<li>` elements
below it (`getElementListByName("li", true)`).

Behaviour of the code worth knowing:

- `formatDuration` throws `NumberFormatException` when the hour or minute
  part is empty or not a numeral (for instance `h30m`); it has no fallback
  to 0 for a missing number.
- A title without a search result raises no not-found error. The sentinel
  node has no `href`, so the spider goes on to fetch
  `"https://www.imdb.com" + null`, that is `https://www.imdb.comnull`.
- The duration is stored as the decimal string `Integer.toString`
  prints.
- The lazy pattern `\<.*?>` in `cleanText` does not cross a line
  terminator. So a tag split over two lines survives the tag removal. Its
  line feed then becomes a space, so a second cleaning removes it: cleaning
  is not idempotent (`CleanTextSplitTag`, `CleanTextJoinedTag`).
- `cleanText` is not called anywhere in the file.

## Model

| member | source | states |
|---|---|---|
| JavaStrings.IndexOf | src/main/java/org/example/IMDBSpider.java:85-90 | `indexOf` is -1 exactly when the character is absent; otherwise the position holds the character and no earlier position does |
| JavaStrings.IntegerToString | src/main/java/org/example/IMDBSpider.java:92 | `Integer.toString` of a non-negative value is a non-empty digit string that starts with '0' only for 0 |
| JavaStrings.ParseInt | src/main/java/org/example/IMDBSpider.java:86-90 | `parseInt` succeeds exactly when the text is a non-empty string of digits; otherwise it throws NumberFormatException |
| JavaStrings.NumeralPositive | src/main/java/org/example/IMDBSpider.java:86-92 | a numeral that does not start with '0' has a positive value |
| JavaStrings.ParseIntegerToString | src/main/java/org/example/IMDBSpider.java:86-92 | `parseInt` reads back the value that `Integer.toString` printed |
| JavaStrings.IntegerToStringParse | src/main/java/org/example/IMDBSpider.java:86-92 | a numeral without leading zeros parses, and printing its value gives the numeral back |
| JavaStrings.ReplaceAll | src/main/java/org/example/IMDBSpider.java:234-235 | a literal `replaceAll` keeps the length when the replacement is as long as the pattern, and text that starts with the pattern comes out starting with the replacement |
| JavaStrings.ReplaceRemoves | src/main/java/org/example/IMDBSpider.java:100 | after a literal `replaceAll`, the pattern no longer occurs when pattern and replacement cannot overlap |
| JavaStrings.ReplaceAbsentUnchanged | src/main/java/org/example/IMDBSpider.java:100 | `replaceAll` of a pattern that does not occur returns the text unchanged |
| JavaStrings.ReplaceKeepsAbsent | src/main/java/org/example/IMDBSpider.java:234-235 | replacing never creates an occurrence of a string q when q's first character is not in the replacement and the replacement's first character is not in q |
| JavaStrings.ReplaceShortens | src/main/java/org/example/IMDBSpider.java:234-235 | a replacement no longer than the pattern never lengthens the text, and a strictly shorter one shortens it exactly when the pattern occurs |
| JavaStrings.ReplaceUndone | src/main/java/org/example/IMDBSpider.java:100 | replacing a character by an escape and the escape back restores text that held no escape |
| JavaStrings.TrimStart | src/main/java/org/example/IMDBSpider.java:235 | the leading part `trim` drops is exactly the characters up to ' ', and the rest is a suffix starting above ' ' |
| JavaStrings.TrimEnd | src/main/java/org/example/IMDBSpider.java:235 | the trailing part `trim` drops is exactly the characters up to ' ', and the rest is a prefix ending above ' ' |
| JavaStrings.Trim | src/main/java/org/example/IMDBSpider.java:235 | `trim` never lengthens the text, what it returns has no character at or below ' ' at either end, and text with none there is returned whole |
| Normalizers.StripDurationNoise | src/main/java/org/example/IMDBSpider.java:83 | removing `\s` and '"' leaves no such character, never lengthens the text, and keeps a leading character that is neither |
| Normalizers.DurationNoiseAppend | src/main/java/org/example/IMDBSpider.java:83 | the noise removal of a concatenation is the removal of each part, concatenated |
| Normalizers.DurationNoiseOneChar | src/main/java/org/example/IMDBSpider.java:83 | a single character is kept exactly when it is neither `\s` nor '"' |
| Normalizers.DurationNoiseKeeps | src/main/java/org/example/IMDBSpider.java:83 | every character that is neither `\s` nor '"' occurs in the result as often as in the input |
| Normalizers.FormatDuration | src/main/java/org/example/IMDBSpider.java:81-93 | every duration that does not throw is a decimal numeral, and the only exception that escapes is NumberFormatException |
| Normalizers.DurationMinutes | src/main/java/org/example/IMDBSpider.java:84-92 | after noise removal, the result is a numeral or a NumberFormatException, never another exception |
| Normalizers.HoursPart | src/main/java/org/example/IMDBSpider.java:84-86 | without an 'h' the hours are 0; with one they parse exactly when the text before the first 'h' is a numeral, and only NumberFormatException is raised |
| Normalizers.MinutesPart | src/main/java/org/example/IMDBSpider.java:89-91 | without an 'm' the minutes are 0; when the first 'm' follows the first 'h' they parse exactly when the text between is a numeral; `substring` throws exactly when the first 'm' does not follow the first 'h' |
| Normalizers.DurationReadsBack | src/main/java/org/example/IMDBSpider.java:84-92 | the stored duration reads back with `parseInt` as 60 times the hours plus the minutes |
| Normalizers.DurationOfParts | src/main/java/org/example/IMDBSpider.java:88-92 | once both parts have parsed, the result is the decimal numeral of 60 times the hours plus the minutes |
| Normalizers.DurationHoursAndMinutes | src/main/java/org/example/IMDBSpider.java:81-93 | `<H>h<M>m...` after noise removal gives 60*H + M |
| Normalizers.DurationMinutesOnly | src/main/java/org/example/IMDBSpider.java:89-92 | with only an 'm', the numeral before it is the result |
| Normalizers.DurationHoursOnly | src/main/java/org/example/IMDBSpider.java:85-88 | with only an 'h', the result is 60 times the numeral before it |
| Normalizers.DurationNoMarkers | src/main/java/org/example/IMDBSpider.java:84-92 | with neither marker the result is "0" |
| Normalizers.DurationBadHours | src/main/java/org/example/IMDBSpider.java:85-86 | an empty or non-numeric hour part throws NumberFormatException |
| Normalizers.DurationBadMinutes | src/main/java/org/example/IMDBSpider.java:89-90 | an empty or non-numeric minute part after valid hours throws NumberFormatException |
| Normalizers.DurationBadMinutesAlone | src/main/java/org/example/IMDBSpider.java:89-90 | the same without an hour marker |
| Normalizers.DurationNeverSubstringRange | src/main/java/org/example/IMDBSpider.java:90 | the substring between the markers never runs backwards: when the hours parse, the first 'm' is after the 'h' |
| Normalizers.DurationExampleHoursAndMinutes | src/main/java/org/example/IMDBSpider.java:81-93 | "2h 15m" gives "135" |
| Normalizers.DurationExampleMinutes | src/main/java/org/example/IMDBSpider.java:81-93 | "45m" gives "45" |
| Normalizers.DurationExampleHours | src/main/java/org/example/IMDBSpider.java:81-93 | a quoted "3h" gives "180" |
| Normalizers.DurationExampleEmptyHours | src/main/java/org/example/IMDBSpider.java:85-86 | "h30m" throws NumberFormatException |
| Normalizers.FormatBudgetGross | src/main/java/org/example/IMDBSpider.java:95-97 | the result holds only the digits 0-9 and is no longer than the input |
| Normalizers.BudgetGrossAppend | src/main/java/org/example/IMDBSpider.java:96 | the digits of a concatenation are the digits of each part, concatenated |
| Normalizers.BudgetGrossOneChar | src/main/java/org/example/IMDBSpider.java:96 | a single character is kept exactly when it is a digit |
| Normalizers.BudgetGrossFixpoint | src/main/java/org/example/IMDBSpider.java:96 | the input is returned unchanged exactly when it holds only digits |
| Normalizers.BudgetGrossIdempotent | src/main/java/org/example/IMDBSpider.java:96 | applying it twice is applying it once |
| Normalizers.BudgetGrossEmpty | src/main/java/org/example/IMDBSpider.java:96 | the result is "" exactly when the input holds no digit |
| Normalizers.BudgetGrossKeepsDigits | src/main/java/org/example/IMDBSpider.java:96 | every digit occurs in the result as often as in the input |
| Normalizers.BudgetGrossInOrder | src/main/java/org/example/IMDBSpider.java:96 | the result is a subsequence of the input, so the digits keep their order |
| Normalizers.BudgetGrossExample | src/main/java/org/example/IMDBSpider.java:95-97 | "$1,234,567" gives "1234567" |
| Normalizers.BudgetGrossNoDigitExamples | src/main/java/org/example/IMDBSpider.java:95-97 | "" and "n/a" give "" |
| Normalizers.FormatText | src/main/java/org/example/IMDBSpider.java:99-101 | the result contains no `&#x27;` |
| Normalizers.FormatTextUnchanged | src/main/java/org/example/IMDBSpider.java:100 | text is returned unchanged exactly when it holds no `&#x27;` |
| Normalizers.FormatTextIdempotent | src/main/java/org/example/IMDBSpider.java:100 | applying it twice is applying it once |
| Normalizers.FormatTextUnescapes | src/main/java/org/example/IMDBSpider.java:100 | it undoes escaping every apostrophe as `&#x27;` |
| Normalizers.FormatTextExample | src/main/java/org/example/IMDBSpider.java:100 | "It&#x27;s" gives "It's" |
| Normalizers.TagClose | src/main/java/org/example/IMDBSpider.java:234 | a lazy `<.*?>` match ends at the first '>' with no line terminator before it, and there is no match exactly when the first line holds no '>' |
| Normalizers.StripTags | src/main/java/org/example/IMDBSpider.java:234 | removing tags never lengthens the text, and shortens it when it holds a tag |
| Normalizers.StripTagsLeavesNoTag | src/main/java/org/example/IMDBSpider.java:234 | no tag within one line is left after removal |
| Normalizers.StripTagsUnchanged | src/main/java/org/example/IMDBSpider.java:234 | text is left unchanged exactly when it holds no tag |
| Normalizers.StripTagsKeepsText | src/main/java/org/example/IMDBSpider.java:234 | a character that does not start a tag is kept, followed by the removal of the rest |
| Normalizers.StripTagsAt | src/main/java/org/example/IMDBSpider.java:234 | a tag `<...>` within one line at the start is dropped whole and the removal goes on after it |
| Normalizers.CollapseSpaces | src/main/java/org/example/IMDBSpider.java:235 | after `replaceAll("\\s+", " ")` every `\s` is a plain space and no two are adjacent |
| Normalizers.CollapseKeepsText | src/main/java/org/example/IMDBSpider.java:235 | collapsing keeps every character that is not `\s`, in order: the non-space characters before and after are the same string |
| Normalizers.CollapseRun | src/main/java/org/example/IMDBSpider.java:235 | a non-empty run made only of `\s` characters becomes exactly one space |
| Normalizers.CollapseAppend | src/main/java/org/example/IMDBSpider.java:235 | collapsing works run by run: text cut where no run of `\s` straddles the cut collapses as its two parts, concatenated, so each maximal run leaves one space in its place |
| Normalizers.CollapseSpacesUnchanged | src/main/java/org/example/IMDBSpider.java:235 | collapsing leaves text unchanged exactly when its spacing is already single plain spaces |
| Normalizers.CollapseKeepsAbsent | src/main/java/org/example/IMDBSpider.java:235 | collapsing never creates a string without `\s` |
| Normalizers.CleanTextShape | src/main/java/org/example/IMDBSpider.java:233-236 | cleaned text has no space at either end, no line feed, no `&nbsp;`, and no two adjacent `\s` |
| Normalizers.CleanText | src/main/java/org/example/IMDBSpider.java:233-236 | cleaning never lengthens the text, shortens text that holds a tag, and leaves nothing at or below ' ' at either end |
| Normalizers.CleanTextIdentity | src/main/java/org/example/IMDBSpider.java:233-236 | cleaning returns the text unchanged exactly when it is already clean |
| Normalizers.CleanTextSplitTag | src/main/java/org/example/IMDBSpider.java:234-235 | a tag split by a line feed survives and comes out as a tag on one line |
| Normalizers.CleanTextJoinedTag | src/main/java/org/example/IMDBSpider.java:234-235 | cleaning that output again removes the tag, so cleaning is not idempotent |
| Selectors.Attribute | src/main/java/org/example/IMDBSpider.java:146 | `getAttributeByName` gives the value exactly when the attribute is present, and null otherwise |
| Selectors.XPathEval | src/main/java/org/example/IMDBSpider.java:63-70 | an index inside the matches gives that match; any other index gives the `"empty"` sentinel instead of an exception |
| Selectors.EmptyHasNothing | src/main/java/org/example/IMDBSpider.java:68 | the sentinel has no text, no attributes and no items |
| Selectors.XPathEvalNoMatch | src/main/java/org/example/IMDBSpider.java:63-70 | with no match every index gives the sentinel |
| Selectors.CumulativeXPathEval | src/main/java/org/example/IMDBSpider.java:72-79 | a new array with the same length as the matches, holding each match at its index |
| Spider.DetailUrl | src/main/java/org/example/IMDBSpider.java:145-146 | the page followed is under https://www.imdb.com: the first result's href when it has one, otherwise `https://www.imdb.comnull` |
| Spider.FormattedTexts | src/main/java/org/example/IMDBSpider.java:176-206 | a list field has one entry per match, in order, each the match's text through `formatText` |
| Spider.FirstText | src/main/java/org/example/IMDBSpider.java:153-171 | a single-valued field is the text of the first match, or "" when nothing matched |
| Spider.AddTexts | src/main/java/org/example/IMDBSpider.java:175-178 | the array-builder loop produces exactly that list |
| Spider.Assemble | src/main/java/org/example/IMDBSpider.java:150-208 | a record throws ArrayIndexOutOfBounds exactly when the year/duration list is empty and otherwise can only throw NumberFormatException; a record read has the url followed, the first item's text as year, a numeral as duration, and one list entry per cast, character, genre and country match |
| Spider.BuildRecord | src/main/java/org/example/IMDBSpider.java:150-208 | building the record field by field gives the record that `Assemble` specifies, including its exceptions |
| Spider.AssembleFails | src/main/java/org/example/IMDBSpider.java:156-159 | a record fails exactly when the year/duration list is empty (ArrayIndexOutOfBounds) or its last item is not a readable duration |
| Spider.AssembleThreeItems | src/main/java/org/example/IMDBSpider.java:156-159 | with three items the year is the first and the duration is read from the third |
| Spider.AssembleOneItem | src/main/java/org/example/IMDBSpider.java:156-159 | with one item the year and the duration are read from it |
| Spider.AssembleSingleFields | src/main/java/org/example/IMDBSpider.java:150-171 | in a record read, the duration is `formatDuration` of the last year/duration item for any number of items; title and description are the first match's text through `formatText`, the rating is that text as is, and budget and gross are it through `formatBudgetGross` |
| Spider.AssembleLists | src/main/java/org/example/IMDBSpider.java:173-208 | cast, characters, genres and countries follow their own matches one for one; directors come from the first credit list, and are empty when none matched |
| Spider.AssembleMissingFields | src/main/java/org/example/IMDBSpider.java:153-171 | a single-valued field whose selector matched nothing is "" |
| Spider.AssembleFieldsIndependent | src/main/java/org/example/IMDBSpider.java:153-208 | pages that differ in one selector give records that differ only in that selector's fields |
| Spider.TitleWithoutResults | src/main/java/org/example/IMDBSpider.java:145-148 | a title with no search result is read from the "null" page, and its url field says so |
| Spider.TitleOutcome | src/main/java/org/example/IMDBSpider.java:135-208 | a failed search request gives a transport error; a record read carries the url followed from the search page, under https://www.imdb.com; a `substring` exception never escapes |
| Spider.FetchTitle | src/main/java/org/example/IMDBSpider.java:135-208 | handling one title gives the outcome `TitleOutcome` specifies |
| Spider.FetchIMDBMovies | src/main/java/org/example/IMDBSpider.java:131-222 | records are written for a prefix of the titles, in order and all successful; the loop ends either after the last title or at the first title whose outcome is an exception, which it reports |

## Left out

- HTTP: `SubmitHttpGetRequest` and its client. The result of each request
  is a parameter: a search page, or `None` when the request failed, and a
  fetch function from URL to page.
- HtmlCleaner: `clean` and `evaluateXPath`. What each expression matches is
  given as a sequence of nodes. The `(TagNode)` casts always succeed.
  `XPatherException` is not modelled, since the matches are given.
- JSON: reading the title list and `movie_name`, building objects and
  arrays, and pretty-printed file output. The record's field values are
  modelled. File number n is the n-th entry of the written sequence.
  Failures of the file writer are not modelled.
- The search query: `URLEncoder` and the query string built from the title.
  The search page for each title is an input.
- Timing and console output, and `main`.
- `getElementListByName("li", true)` is a library tree walk. The `<li>`
  items under a node are a field of the node.
- JavaStrings.ParseInt: only unsigned ASCII digit strings are numerals, and
  values are unbounded. A leading sign, non-ASCII digits and 32-bit
  overflow are not modelled.
- Normalizers.DurationMinutes: `dur * 60 + minutes` is computed without
  32-bit wrap-around.
- Normalizers.StripTags: models only what the pattern `\<.*?>` matches.
  It does not know HTML: a '>' inside an attribute value ends the tag.
- Normalizers.StripDurationNoise: its own contract states the shape of the
  result and its first character only. That the other characters are kept,
  in order, is stated by `DurationNoiseAppend` and `DurationNoiseOneChar`
  (and their counts by `DurationNoiseKeeps`), which together pin the result
  down character by character.
- Normalizers.CollapseSpaces: its own contract states the spacing of the
  result only. That each maximal run of `\s` becomes one space in its place
  is stated by `CollapseRun` and `CollapseAppend`, and that the other
  characters survive in order by `CollapseKeepsText`.
- Normalizers.StripTags: its own contract gives only lengths. What is kept
  and what is dropped is stated by `StripTagsKeepsText`, `StripTagsAt`,
  `StripTagsLeavesNoTag` and `StripTagsUnchanged`.
