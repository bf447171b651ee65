# pg-search-opds in Dafny

This project models the pure core of pg-search-opds, the Project Gutenberg catalogue
search service that serves JSON results and OPDS 2.0 feeds. The Dafny model covers four
parts of the service:

- **Field formatting** (`Formatters`, `Contributors`). Every crosswalk's output goes
  through this clean-up. It strips MARC subfield markers, straightens curly quotes,
  normalises title separators and cuts the "Updated:" tail from credits. It also renders
  contributors: life dates with uncertainty and BCE years, "Last, First" name reversal,
  the formal and pretty styles, and the Oxford-comma list.
- **The `SearchQuery` builder** (`SearchQuery`, `QueryInvariants`). The builder is an
  immutable value threaded through the builder calls. It accumulates search and filter
  clauses, binds each engine value under a fresh `__pN` name, keeps one ordering and a
  clamped page window, and renders the page and count statements. Rendered SQL is a small
  syntax tree plus strings; SQL itself is given no meaning.
- **The engine around the builder** (`FullTextSearch`). This covers the page arithmetic
  of `execute`, the crosswalk dispatch of `_transform` (with the custom transformer) and
  the statement `get_top_subjects_for_query` prepares. The count and the rows the
  database would return are parameters.
- **The crosswalks** (`Rows`, `Crosswalks`, `Html`). These turn a row of the
  `mv_books_dc` view into the full, mini, PG and OPDS 2.0 publication records.
- **The pure helpers of the OPDS feed layer** (`OpdsFeed`): parameter parsing, facet and
  pagination links, query-string filtering, the filters and sort a feed request adds to a
  search, LoCC child ordering and labelling, and the position of the Broad Genre facet.

Shared pieces:

- `Wrappers` holds `Option` and `Result`.
- `Text` holds string helpers: trimming, joining, case mapping and integer text.
- `Json` holds the dict/list/scalar values the crosswalks produce. A dict is its sequence
  of entries in insertion order.
- `Constants` holds the four enumerations of search/constants.py that the core uses.

Each regular expression of the source is modelled as an explicit left-to-right scanner
with the semantics of `re.sub`: the leftmost match wins and matches do not overlap.

## Model

| member | source | states |
|---|---|---|
| Constants.OrderByOf | search/constants.py:42-50 | `OrderBy(s)` finds the member whose value is `s`, and fails exactly when no member has that value |
| Constants.OrderByRoundTrip | search/constants.py:42-50 | every ordering is found again from its own value |
| Constants.CrosswalkOf | search/constants.py:58-63 | `Crosswalk(s)` finds the member whose value is `s`, and fails exactly when no member has that value |
| Constants.CrosswalkRoundTrip | search/constants.py:58-63 | every crosswalk is found again from its own value |
| Constants.ValidSorts | opds/opds.py:21 | the valid sort names are exactly the ordering values, and each names a member |
| Formatters.RemoveSubfieldMarkers | search/formatters.py:37 | deleting `$x` markers never lengthens the text, and text without `$` is returned as is |
| Formatters.RemoveMarkersSkipsPlainText | search/formatters.py:37 | a `$`-free prefix passes through the marker deletion untouched |
| Formatters.RemoveMarkersOfEncoded | search/formatters.py:37 | a field written as `$a…$b…` loses its markers and keeps its subfield texts run together, with nothing inserted between them |
| Formatters.FixSeparatorSpacing | search/formatters.py:38 | the rewrite keeps the length, and at a space/newline + `,`/`:` + alphanumeric it writes separator, space, alphanumeric |
| Formatters.FixSeparatorSpacingLeavesNone | search/formatters.py:38 | after the rewrite no separator is left glued to the next word |
| Formatters.FixSeparatorSpacingFixesClean | search/formatters.py:38 | text with no glued separator is unchanged |
| Formatters.StripMarcSubfields | search/formatters.py:33-39 | the result is no longer than the input and is trimmed at both ends |
| Formatters.StripMarcOfEncoded | search/formatters.py:33-39 | a clean field of subfields comes out as its bare subfield texts, concatenated |
| Formatters.StripMarcExample | search/formatters.py:33-39 | `$aSmith$bJohn` becomes `SmithJohn` |
| Formatters.StraightenQuotes | search/formatters.py:46-47 | the length is kept; `‘` and `’` become `'`, `“` and `”` become `"`, every other character is kept, and no curly quote is left |
| Formatters.StraightenQuotesFixesStraight | search/formatters.py:46-47 | text without curly quotes is unchanged, so straightening twice is straightening once |
| Formatters.SplitTitleSeparators | search/formatters.py:48 | every colon of the result is followed by exactly one space and then the end of the text or a non-space |
| Formatters.SplitTitleSeparatorsAtSeparator | search/formatters.py:48 | a `;` or `:` with any whitespace around it, after separator-free text, becomes exactly `: ` and the rest is rewritten the same way |
| Formatters.SplitTitleSeparatorsExample | search/formatters.py:48 | `a ;b` becomes `a: b` |
| Formatters.SplitTitleSeparatorsClean | search/formatters.py:48 | no `;` survives, and no curly quote is brought in |
| Formatters.SplitTitleSeparatorsFixesPlain | search/formatters.py:48 | text without `;` or `:` is untouched |
| Formatters.StripExposesNoColon | search/formatters.py:49 | after the trailing colons and spaces are gone, trimming cannot leave a colon at the end |
| Formatters.NormalizeText | search/formatters.py:42-49 | normalised text is trimmed at both ends |
| Formatters.NormalizeTextClean | search/formatters.py:42-49 | normalised text has no `;`, no curly quote and no trailing colon |
| Formatters.NormalizeTextFixesClean | search/formatters.py:42-49 | text that is already clean comes back unchanged |
| Formatters.MarkerLength | search/formatters.py:17 | a marker is `[Uu]pdate:` (7 characters) or `[Uu]pdated:` (8), and ends with the colon |
| Formatters.FirstUpdatedMatch | search/formatters.py:56 | the leftmost index where the whole "Updated:" pattern matches, or none when it matches nowhere |
| Formatters.RemoveUpdated | search/formatters.py:56 | without a match the text is unchanged, and it never grows |
| Formatters.RemoveUpdatedCut | search/formatters.py:56 | with a match the text is cut before the whitespace run ahead of the first marker, keeping at most a final newline |
| Formatters.StripUpdated | search/formatters.py:52-56 | the result is no longer than the input and is trimmed |
| Formatters.StripUpdatedCut | search/formatters.py:52-56 | the result is the trimmed text before the first matching marker, or the whole text trimmed when nothing matches |
| Formatters.StripUpdatedSingleLine | search/formatters.py:52-56 | on one line, the first marker, the whitespace before it and everything after it are removed |
| Formatters.StripUpdatedNoMarker | search/formatters.py:52-56 | text with no marker is only trimmed |
| Formatters.UpperCaseMarkerIgnored | search/formatters.py:17 | only the first letter is case-flexible: `UPDATED:` is not a marker |
| Formatters.FormatField | search/formatters.py:59-69 | an empty value gives ""; results are trimmed; keys outside the text fields are only trimmed |
| Formatters.FormatFieldClean | search/formatters.py:59-69 | a formatted text field other than credits has no `;`, no curly quote and no trailing colon |
| Formatters.FormatCreditsWithoutMarker | search/formatters.py:66-68 | credits without an "Updated:" marker are formatted like any other text field |
| Formatters.FormatPlainString | search/formatters.py:76-77 | a string under a non-text key is only trimmed |
| Formatters.FormatOptPlain | search/formatters.py:76-83 | a nullable string under a non-text key: `None` stays `None`, a string is trimmed |
| Formatters.FormatString | search/formatters.py:76-77 | a string in a dict is formatted under its own key |
| Formatters.FormatOptInt | search/formatters.py:82-83 | integers and `None` pass through unchanged |
| Formatters.FormatOptStr | search/formatters.py:76-83 | `None` passes through and a string is formatted under its key |
| Formatters.FormatDict | search/formatters.py:72-84 | the formatted dict has the same keys in the same order |
| Formatters.FormatList | search/formatters.py:87-99 | the list keeps its length, and each string item is formatted under the parent key |
| Formatters.FormatValueShape | search/formatters.py:72-99 | formatting keeps every dict's keys, every list's length, strings where strings were, and every non-string scalar |
| Formatters.FormatListValue | search/formatters.py:80-81 | a list inside a dict is formatted item by item under the list's key |
| Contributors.Strunk | search/formatters.py:120-130 | no items give "", one item is itself, two are joined by " and " |
| Contributors.StrunkIsOxfordList | search/formatters.py:130 | from three items on, the items are joined by ", " with "and " before the last |
| Contributors.StrunkExample | search/formatters.py:120-123 | Tom, Dick and Harry give "Tom, Dick, and Harry" |
| Contributors.YearLabel | search/formatters.py:136-148 | a year label is never empty; ParseYearLabelRoundTrip reads it back |
| Contributors.ParseYearLabelRoundTrip | search/formatters.py:136-148 | every non-zero year and uncertainty mark read back from its label; BCE years are `1 - y` |
| Contributors.FormatDateRange | search/formatters.py:133-148 | the label is empty exactly when both bounds are missing or zero |
| Contributors.FormatDateRangeMeaning | search/formatters.py:133-148 | an exact floor is shown as certain; otherwise the later bound is shown with a `?` |
| Contributors.ExactDate | search/formatters.py:146-148 | equal positive bounds print the plain year |
| Contributors.SplitCommaSpace | search/formatters.py:155 | `split(", ")` always gives at least one part |
| Contributors.SplitCommaSpaceJoin | search/formatters.py:155 | joining the parts with ", " gives the name back |
| Contributors.SplitCommaSpaceParts | search/formatters.py:155 | no part contains ", " |
| Contributors.RemoveParenGroups | search/formatters.py:156 | removing parenthesised text never lengthens the name, keeps only characters of the name, and leaves text without `(` unchanged |
| Contributors.CollapseWhitespace | search/formatters.py:157 | the only whitespace left is single spaces, never two in a row, the first character is kept or becomes a space, and the non-whitespace characters are kept in order |
| Contributors.CollapseWhitespaceFixesSingleSpaces | search/formatters.py:157 | text with only single spaces is unchanged |
| Contributors.ReverseName | search/formatters.py:151-158 | the reversed name is trimmed at both ends |
| Contributors.ReverseNameOfLastFirst | search/formatters.py:151-158 | "Last, First" becomes "First Last" |
| Contributors.SplitOfLastFirst | search/formatters.py:155 | "Last, First" splits into exactly the two words |
| Contributors.TwoWordsClean | search/formatters.py:156-158 | two words and one space survive the parenthesis, whitespace and trimming steps |
| Contributors.ShownRole | search/formatters.py:217-219 | a role is shown exactly when roles are on and the role is non-empty and not author/creator/aut/cre in any case |
| Contributors.LifeDates | search/formatters.py:204-214 | dates are empty exactly when both labels are; otherwise they are exactly `born-died`, `born-` or `d. died` |
| Contributors.YearLabelHasNoDash | search/formatters.py:136-148 | a year label starts with a digit and contains no `-` |
| Contributors.DateRangeHasNoDash | search/formatters.py:133-148 | a date label is empty or a year label, so it holds no `-` |
| Contributors.LifeDatesReadBack | search/formatters.py:204-214 | cutting the life dates at the first `-` (or after `d. `) gives back the birth and death labels |
| Contributors.Decorate | search/formatters.py:221-235 | the text is exactly the display name, then ` (dates)` (pretty) or `, dates` (formal) when there are dates, then ` [role]` when a role is shown |
| Contributors.FormatContributor | search/formatters.py:198-237 | a nameless contributor gives ""; otherwise it is the styled name decorated with the dates and role |
| Contributors.FormatContributorShape | search/formatters.py:198-237 | formal style writes the name, `, dates` and ` [role]`; pretty style writes the reversed name, ` (dates)` and ` [role]`; each part only when present |
| Contributors.TwainDates | search/formatters.py:186-187 | 1835/1835 and 1910/1910 give "1835-1910" |
| Contributors.AuthorIsSilent | search/formatters.py:218 | "Author" is not shown |
| Contributors.EditorIsShown | search/formatters.py:218 | "Editor" is shown |
| Contributors.FormalExample | search/formatters.py:186-187 | the docstring's formal example: "Twain, Mark, 1835-1910" |
| Contributors.EditorExample | search/formatters.py:189-190 | the docstring's example with a role: "…, 1835-1910 [Editor]" |
| Contributors.FormalDecoration | search/formatters.py:229-233 | the formal style writes `, dates` after the name and nothing for a silent role |
| Contributors.EditorDecoration | search/formatters.py:229-235 | the formal style writes ", dates" and then " [role]" |
| Contributors.PrettyStyleOfLastFirst | search/formatters.py:192-196 | pretty style on "Last, First" is exactly "First Last", then " (dates)" when there are dates, then " [role]" when a role is shown |
| Contributors.Named | search/formatters.py:290-293 | keeps only contributors that have a name, and every contributor that has one |
| Contributors.NamedAppend | search/formatters.py:290-293 | the named contributors of a concatenation are those of each part, in order, so order and repeats are kept |
| Contributors.NamedSingle | search/formatters.py:290-293 | one contributor is kept exactly when it has a name |
| Contributors.FormatAll | search/formatters.py:290-293 | formats every contributor in order |
| Contributors.ContributorFormat | search/formatters.py:289-300 | without `all`, the first contributor or ""; with `all`, "" for no named contributor and the single one formatted alone |
| Contributors.ContributorFormatSkipsNameless | search/formatters.py:290-292 | in the `all` form, a nameless contributor anywhere changes nothing |
| SearchQuery.LookupUpdate | search/full_text_search.py:272-278 | after `d.update(e)`, keys written by `e` take its value and the others keep theirs |
| SearchQuery.FormatJoined | search/full_text_search.py:115 | `template.format` on brace-free pieces succeeds exactly when there is an argument for every field, and then interleaves them |
| SearchQuery.NewQuery | search/full_text_search.py:73-81 | a fresh builder has no clauses, counter 0, DOWNLOADS with no direction, page 1 of 25, and the given crosswalk |
| SearchQuery.ParamName | search/full_text_search.py:103-106 | every engine name starts with `__p` |
| SearchQuery.ParamNameInjective | search/full_text_search.py:103-106 | different counters give different names |
| SearchQuery.Clamp | search/full_text_search.py:86-87 | `max(lo, min(hi, x))` lies in `[lo, hi]` and is `x` when `x` is in range |
| SearchQuery.GetItem | search/full_text_search.py:83-90 | a page below 1 becomes 1 and any other page is kept; with a pair, a size below 1 becomes 1, above 100 becomes 100 and is kept otherwise; a single key leaves the size alone; nothing else changes |
| SearchQuery.GetItemIdempotent | search/full_text_search.py:83-90 | indexing twice with the same key is indexing once |
| SearchQuery.GetItemRoundTrip | search/full_text_search.py:83-90 | indexing with the page and size a query already holds gives that query back |
| SearchQuery.SetOrder | search/full_text_search.py:96-101 | sets the ordering and direction (none when not given) and nothing else |
| SearchQuery.SetCrosswalk | search/full_text_search.py:92-94 | sets the crosswalk and nothing else |
| SearchQuery.FreshBindings | search/full_text_search.py:108-114 | value `i` is bound under the name for counter + `i` |
| SearchQuery.Filter | search/full_text_search.py:108-117 | on success, one clause with the fresh bindings is appended, the counter advances by the number of values, and nothing else changes |
| SearchQuery.Search | search/full_text_search.py:119-138 | blank text changes nothing; otherwise one clause binding the trimmed text under the next name is appended |
| SearchQuery.ApplyFilter | search/full_text_search.py:142-258 | each filter method appends exactly one clause; the flag methods bind nothing and keep the counter, the others bind one fresh name |
| SearchQuery.ApplyFilterIsFilter | search/full_text_search.py:142-258 | each filter method is `filter()` on its own template with its value, or a parameterless clause for the flags |
| SearchQuery.Where | search/full_text_search.py:260-268 | raises, with the reserved-name message, exactly when a name starts with `__p`; otherwise it appends the SQL with the caller's params |
| SearchQuery.OrderSql | search/full_text_search.py:280-293 | `rank_q` is bound exactly for relevance with a search, without `%`; relevance with no search falls back to "downloads DESC" |
| SearchQuery.RelevanceOrdering | search/full_text_search.py:281-287 | ranking binds `rank_q` to the clause's text with every `%` removed |
| SearchQuery.ColumnOrderings | search/full_text_search.py:289-300 | RANDOM gives `RANDOM()`; the other keys use the explicit or default direction, with NULLS LAST only for author and release date |
| SearchQuery.RelevanceFollowsSearchType | search/full_text_search.py:281-287 | relevance ranks by the last search: word_similarity for fuzzy, ts_rank_cd for FTS, then downloads |
| SearchQuery.FuzzySqlIsTrigram | search/full_text_search.py:137 | a fuzzy clause contains `<%` |
| SearchQuery.FtsSqlIsNotTrigram | search/full_text_search.py:133 | a full-text clause does not contain `<%` |
| SearchQuery.Build | search/full_text_search.py:302-319 | LIMIT is the page size, OFFSET is (page - 1) × page size, and the params start with `_params()` |
| SearchQuery.BuildParamsLookup | search/full_text_search.py:302-304 | the page query binds what `_params()` binds, except that relevance ordering writes `rank_q` last |
| SearchQuery.BuildCount | search/full_text_search.py:321-335 | the count statement has the page statement's selection and exactly `_params()` |
| SearchQuery.SelectionConjoinsAll | search/full_text_search.py:307-317 | in all four shapes, a row is selected exactly when every search and every filter condition holds |
| QueryInvariants.FilterParamsPrefix | search/full_text_search.py:276-277 | the params of earlier filters come first, so appending never reorders |
| QueryInvariants.FreshNamesDistinct | search/full_text_search.py:103-106 | the names of one call's values are pairwise distinct |
| QueryInvariants.NewQueryWellFormed | search/full_text_search.py:73-81 | a fresh builder is well-formed: page window in range, engine names issued and bound once |
| QueryInvariants.SearchKeepsWellFormed | search/full_text_search.py:119-138 | `search` keeps a query well-formed |
| QueryInvariants.ApplyFilterKeepsWellFormed | search/full_text_search.py:142-258 | every filter method keeps a query well-formed |
| QueryInvariants.FilterKeepsWellFormed | search/full_text_search.py:108-117 | `filter` keeps a query well-formed |
| QueryInvariants.WhereKeepsWellFormed | search/full_text_search.py:260-268 | an accepted `where` keeps a query well-formed |
| QueryInvariants.ApplyKeepsWellFormed | search/full_text_search.py:83-268 | every builder call keeps a query well-formed |
| QueryInvariants.RunKeepsWellFormed | search/full_text_search.py:83-268 | every chain of builder calls keeps a query well-formed |
| QueryInvariants.EngineBindingsIntact | search/full_text_search.py:272-278 | in a well-formed query, `_params()` binds each search text and each engine value under its own name |
| QueryInvariants.BuildKeepsEngineBindings | search/full_text_search.py:280-304 | the page query binds every engine name as `_params()` does |
| Rows.RoleOr | search/crosswalks.py:26 | a missing or empty role becomes "Author" |
| Rows.BuildCreatorsNames | search/crosswalks.py:18-27 | the creators are the row's non-empty names in row order, each with a role |
| Rows.BuildCreatorsAligned | search/crosswalks.py:18-27 | with aligned arrays and every name present, creator `i` is slot `i` of the row |
| Rows.BuildNamedNames | search/crosswalks.py:30-47 | subjects and bookshelves are the row's non-empty names in row order |
| Rows.BuildNamedAligned | search/crosswalks.py:30-47 | with aligned arrays and every name present, entry `i` pairs name `i` with id `i` |
| Rows.BuildFormatsFilenames | search/crosswalks.py:50-71 | the formats are the row's non-empty filenames in row order |
| Html.EscapeChar | search/crosswalks.py:203 | only `& < > " '` are rewritten, each to an entity starting with `&` |
| Html.Escape | search/crosswalks.py:203 | escaping never shortens the text |
| Html.UnescapeEscape | search/crosswalks.py:203 | escaping loses nothing: unescaping gives the text back |
| Html.EscapeIsInert | search/crosswalks.py:203 | escaped text contains no `<`, `>`, `"` or `'` |
| Html.Paragraphs | search/crosswalks.py:201-204 | the description starts with `<p>` and ends with `</p>` |
| Html.ParagraphsRoundTrip | search/crosswalks.py:201-204 | the paragraphs read back out of the markup exactly |
| Crosswalks.RightsText | search/crosswalks.py:10-15 | the copyrighted notice exactly when the flag is truthy, the public-domain notice otherwise |
| Crosswalks.PyStr | search/crosswalks.py:199 | an absent count prints as "None" |
| Crosswalks.PyStrRoundTrip | search/crosswalks.py:199 | a printed count reads back as the same number |
| Crosswalks.Label | search/crosswalks.py:81 | a language's label, or its code when the table has no label |
| Crosswalks.LanguageValues | search/crosswalks.py:80-84 | one `{code, name}` per code, in order |
| Crosswalks.CreatorValues | search/crosswalks.py:26 | one `{id, name, role}` per creator, in order |
| Crosswalks.NamedValues | search/crosswalks.py:30-47 | one `{id, subject}` or `{id, bookshelf}` per entry, in order |
| Crosswalks.FormatValues | search/crosswalks.py:62-70 | one five-key dict per format, starting with its filename |
| Crosswalks.OptStrs | search/crosswalks.py:91-93 | raw arrays keep their `None` elements |
| Crosswalks.TaggedValues | search/crosswalks.py:90 | one `{dcmitype}` per type, in order |
| Crosswalks.CoverageValues | search/crosswalks.py:85-89 | one `{id, locc}` per code, both the code |
| Crosswalks.CrosswalkFull | search/crosswalks.py:74-112 | the full record has exactly its seventeen keys in order |
| Crosswalks.FullIdentity | search/crosswalks.py:94-98 | the book id and download count are kept as they are |
| Crosswalks.FullRights | search/crosswalks.py:109 | the rights entry is the notice the copyright flag selects |
| Crosswalks.FullPublisher | search/crosswalks.py:111 | the publisher is null exactly when the row names none |
| Crosswalks.FullLists | search/crosswalks.py:80-90 | one entry per named creator, language code, type and LoCC code |
| Crosswalks.CrosswalkMini | search/crosswalks.py:115-122 | the mini record has exactly the keys id, title, author and downloads |
| Crosswalks.MiniRecord | search/crosswalks.py:115-122 | the id and downloads are kept, the title is formatted and the author line trimmed |
| Crosswalks.ContributorValues | search/crosswalks.py:141-144 | one `{name, role}` per creator, in order |
| Crosswalks.WithFilename | search/crosswalks.py:150-158 | keeps only formats that have a filename, and keeps all of them when all do |
| Crosswalks.FileValues | search/crosswalks.py:150-158 | one `{filename, type, size}` per file |
| Crosswalks.CrosswalkPg | search/crosswalks.py:125-160 | the PG record has exactly its ten keys in order |
| Crosswalks.PgNames | search/crosswalks.py:128-131 | subjects and bookshelves are the formatted non-empty names |
| Crosswalks.PgFiles | search/crosswalks.py:150-158 | one file per non-empty filename |
| Crosswalks.PgCover | search/crosswalks.py:159 | the cover URL is the first coverpage slot, or null |
| Crosswalks.Href | search/crosswalks.py:248-252 | absolute URLs are kept; other filenames go under the Gutenberg site without leading slashes |
| Crosswalks.Preferences | search/crosswalks.py:235-236 | the preference list ends with html |
| Crosswalks.FirstOffering | search/crosswalks.py:240-246 | the first format with a filename offering the type, or none when no format offers it |
| Crosswalks.Preferred | search/crosswalks.py:239-267 | the first preference any format offers, with the first format offering it |
| Crosswalks.AcquisitionLink | search/crosswalks.py:253-264 | the link has the file's href, a media type, a length exactly when the extent is positive, and a title exactly when there is a readable type |
| Crosswalks.Links | search/crosswalks.py:232-275 | a publication always gets exactly one link |
| Crosswalks.PreferredFinds | search/crosswalks.py:239-267 | the nested loops stop at the first preference offered and its first format |
| Crosswalks.LinkChoice | search/crosswalks.py:232-267 | the link is for the first format of the most preferred type any format offers |
| Crosswalks.LinkFallback | search/crosswalks.py:269-275 | with no preferred format, the link is the book's HTML page |
| Crosswalks.ImagesFrom | search/crosswalks.py:279-292 | the scan only appends, and at most two images come from an empty start |
| Crosswalks.ImagesMeaning | search/crosswalks.py:279-292 | there are images exactly when some file is a cover, and the first image is the first cover |
| Crosswalks.PrimaryLanguage | search/crosswalks.py:176 | the first language code, or "en" when it is missing or empty |
| Crosswalks.AuthorOf | search/crosswalks.py:179-184 | an author exactly when the first creator is named, with an identifier exactly when its id is truthy |
| Crosswalks.DescriptionParts | search/crosswalks.py:189-199 | 2 to 6 paragraphs: the summary first when present, then Rights and Downloads last |
| Crosswalks.CollectionsOf | search/crosswalks.py:213-228 | one collection per named bookshelf and per code |
| Crosswalks.ShelfCollections | search/crosswalks.py:214-221 | one collection per named bookshelf |
| Crosswalks.LoccCollections | search/crosswalks.py:222-228 | one collection per code, named by the code |
| Crosswalks.OpdsDescription | search/crosswalks.py:201-204 | the description reads back as exactly its paragraphs |
| Crosswalks.OpdsSubjects | search/crosswalks.py:206-230 | subjects are the subject names followed by the LoCC codes; collections are the bookshelves and codes |
| Crosswalks.OpdsAuthor | search/crosswalks.py:179-184 | the author is present exactly when the row names a creator, and is the first one |
| Crosswalks.OpdsIdentifier | search/crosswalks.py:174 | the identifier is `urn:gutenberg:` followed by text that reads back as the book id |
| Crosswalks.MetadataKeys | search/crosswalks.py:172-230 | the metadata keys in order, with author, published, subject, publisher and belongsTo present only when non-empty |
| Crosswalks.OpdsMetadataPresence | search/crosswalks.py:186-230 | a date and publisher appear when the row has them; subjects and collections appear when it has names or codes |
| Crosswalks.OpdsCounts | search/crosswalks.py:232-294 | exactly one link and at most two images |
| Crosswalks.PublicationShape | search/crosswalks.py:277-294 | the record has metadata and links, and images only when there are some |
| Crosswalks.OpdsImages | search/crosswalks.py:279-294 | a publication has images exactly when one of its files is a cover |
| Crosswalks.CrosswalkMap | search/crosswalks.py:299-304 | every crosswalk but CUSTOM has a transformer, the one named by its value |
| FullTextSearch.SetCustomTransformer | search/full_text_search.py:356-358 | the engine holds the given transformer |
| FullTextSearch.NewSearch | search/full_text_search.py:360-364 | a fresh well-formed builder on page 1 of 25, with no clauses or params, using the given crosswalk |
| FullTextSearch.Transform | search/full_text_search.py:366-369 | fails with a KeyError exactly for CUSTOM without a transformer; CUSTOM with one calls it; the others give a dict |
| FullTextSearch.TransformKeys | search/full_text_search.py:366-369 | FULL, MINI and PG records have their crosswalk's keys |
| FullTextSearch.CustomOnlyAffectsCustom | search/full_text_search.py:356-369 | installing a transformer changes only what CUSTOM produces |
| FullTextSearch.TransformAll | search/full_text_search.py:383 | fails exactly when there is a row and CUSTOM has no transformer; otherwise one result per row, each that row's transform |
| FullTextSearch.TotalPages | search/full_text_search.py:376 | at least one page; one for no rows; otherwise the least count of pages holding every row |
| FullTextSearch.TotalPagesUnique | search/full_text_search.py:376 | no other page count satisfies the ceiling bounds |
| FullTextSearch.ClampPage | search/full_text_search.py:377 | the page lands in `[1, total_pages]`, unchanged when already there |
| FullTextSearch.Settle | search/full_text_search.py:376-377 | only the page changes, into range, and an in-range page is kept |
| FullTextSearch.SettleKeepsWellFormed | search/full_text_search.py:376-377 | clamping the page keeps a query well-formed |
| FullTextSearch.SettleIdempotent | search/full_text_search.py:377 | clamping twice is clamping once |
| FullTextSearch.SettledOffsetInRange | search/full_text_search.py:376-379 | the page statement's offset is 0 for no rows and otherwise lies inside the matching rows |
| FullTextSearch.Execute | search/full_text_search.py:371-388 | counts with `build_count`, writes the clamped page back before `build`, fails only where the transform does, and reports total, pages, page, size and one result per row |
| FullTextSearch.SubjectConditions | search/full_text_search.py:470-472 | only non-empty condition strings are kept |
| FullTextSearch.WhereClause | search/full_text_search.py:473 | the WHERE clause is empty exactly when there are no conditions |
| FullTextSearch.TopSubjects | search/full_text_search.py:465-495 | max_books below 1 becomes 1, above 5000 becomes 5000 and is kept otherwise; limit below 1 becomes 1, above 100 becomes 100 and is kept otherwise; both are bound under their names, with the query's ordering |
| FullTextSearch.TopSubjectsParams | search/full_text_search.py:468-495 | every other parameter is bound as the page query binds it |
| FullTextSearch.TopSubjectsSameConditions | search/full_text_search.py:470-474 | the sampled books meet the same conjunction as the page query |
| OpdsFeed.ParseSearchType | opds/opds.py:24-30 | FTS exactly for "fts" or an `fts_` prefix, FUZZY for everything else |
| OpdsFeed.KeywordIsFuzzy | opds/opds.py:67 | the feed's "keyword" search is fuzzy |
| OpdsFeed.ToInt | opds/opds.py:51 | an integer converts to itself and `None` does not convert |
| OpdsFeed.ToIntOfText | opds/opds.py:51 | the decimal text of any integer, with or without trailing whitespace, converts back to that integer |
| OpdsFeed.ParsePagination | opds/opds.py:48-53 | a page below 1 becomes 1 and is kept otherwise; a limit below 1 becomes 1, above 100 becomes 100 and is kept otherwise; a failed conversion resets both to `(1, default)` |
| OpdsFeed.ParsePaginationGroupedDigits | opds/opds.py:51 | a page written `1_0` is read as 10, as `int()` reads it |
| Text.ParseIntGroupedDigits | opds/opds.py:51 | `int("1_0")` is 10: an underscore between digits only groups them |
| Text.ParseIntMisplacedUnderscore | opds/opds.py:51 | a doubled, leading or trailing underscore makes the conversion fail |
| OpdsFeed.ParsePaginationOfText | opds/opds.py:48-53 | an in-range page and limit read back unchanged from their query-string text |
| OpdsFeed.FacetLink | opds/opds.py:33-38 | href, type and title always; `rel: self` exactly for the active facet |
| OpdsFeed.FacetLinkRel | opds/opds.py:33-38 | looked up as a dict, `rel` is present exactly when active, and is "self" |
| OpdsFeed.Clean | opds/opds.py:43 | keeps, in order, exactly the params whose value is neither "" nor None |
| OpdsFeed.CleanKeepsValued | opds/opds.py:43 | params that all have values are kept as they are |
| OpdsFeed.CleanIdempotent | opds/opds.py:43 | cleaning twice is cleaning once |
| OpdsFeed.UrlEncode | opds/opds.py:44 | the encoded query string is empty exactly when there are no params |
| OpdsFeed.UrlWithParams | opds/opds.py:41-45 | the bare path exactly when no param has a value, otherwise path, `?`, and the encoded kept params |
| OpdsFeed.FilterPlan | opds/opds.py:62-78 | at most four builder calls |
| OpdsFeed.FilterPlanSearch | opds/opds.py:66-67 | searches exactly for a non-blank query, always fuzzily |
| OpdsFeed.FilterPlanFilters | opds/opds.py:68-77 | language when given; rights and audio filters exactly for "true"/"false" |
| OpdsFeed.SearchPiece | opds/opds.py:66-67 | one fuzzy search exactly for a non-blank query |
| OpdsFeed.LangPiece | opds/opds.py:68-69 | a language filter exactly when a language is given |
| OpdsFeed.RightsPiece | opds/opds.py:70-73 | copyrighted for "true", public domain for "false", nothing otherwise |
| OpdsFeed.AudioPiece | opds/opds.py:74-77 | audiobook for "true", text only for "false", nothing otherwise |
| OpdsFeed.SearchStep | opds/opds.py:66-67 | adds one search clause exactly for a non-blank query; nothing else changes but the counter |
| OpdsFeed.SearchStepRuns | opds/opds.py:66-67 | the search step is what running the plan's search piece gives |
| OpdsFeed.LangStep | opds/opds.py:68-69 | runs the language piece and only appends filters |
| OpdsFeed.RightsStep | opds/opds.py:70-73 | runs the rights piece and only appends filters |
| OpdsFeed.AudioStep | opds/opds.py:74-77 | runs the audio piece and only appends filters |
| OpdsFeed.ApplyFilters | opds/opds.py:62-78 | one search clause more exactly for a non-blank query, filters only appended, and nothing else but the counter changes |
| OpdsFeed.ApplyFiltersIsPlan | opds/opds.py:62-78 | `_apply_filters` is the chain of builder calls its plan lists |
| OpdsFeed.ApplyFiltersKeepsWellFormed | opds/opds.py:62-78 | filtering keeps a query well-formed |
| OpdsFeed.SortOrder | opds/opds.py:83-89 | a direction exactly for "asc" or "desc", the one of that name |
| OpdsFeed.ApplySort | opds/opds.py:80-95 | a valid sort orders by that key with the requested direction; otherwise relevance with a query and downloads without, with no direction |
| OpdsFeed.ApplySortEveryKey | opds/opds.py:80-90 | every ordering can be requested by its own name |
| OpdsFeed.PagingTargets | opds/opds.py:101-131 | first and previous exactly when page > 1; next and last exactly when page < total_pages |
| OpdsFeed.PagingTargetsInRange | opds/opds.py:101-131 | on a page inside the result, every link leads to another page inside it |
| OpdsFeed.AppendPaginationLinks | opds/opds.py:97-131 | the existing links stay first and unchanged, and each appended link points at its target page |
| OpdsFeed.ParentCode | opds/opds.py:605 | the parent code is trimmed, holds no lower-case letter, and differs from the trimmed argument only in letter case |
| Text.UpperMeaning | opds/opds.py:605 | upper-casing leaves no lower-case letter and changes only the case of letters |
| OpdsFeed.ParentCodeIdempotent | opds/opds.py:605 | normalising a parent code twice is normalising once |
| OpdsFeed.StrLessAsymmetric | opds/opds.py:616 | string order is asymmetric |
| OpdsFeed.StrLessTotal | opds/opds.py:616 | any two different strings are ordered one way |
| OpdsFeed.Insert | opds/opds.py:616 | inserting into a sorted list keeps it sorted and adds exactly that child |
| OpdsFeed.SortChildren | opds/opds.py:616 | the children sorted by (code length, code), the same children as before |
| OpdsFeed.SortedByLength | opds/opds.py:616 | a longer code never comes before a shorter one |
| OpdsFeed.LoccLabel | opds/opds.py:638-643 | a label without `:` is shown as it is |
| OpdsFeed.LoccLabelOfPrefixed | opds/opds.py:638-643 | a label `CODE: Name` shows as `Name` |
| OpdsFeed.LoccEntry | opds/opds.py:653-661 | keys href, title, type, rel; href names the child code as parent; the title is the label with its subcategory or book count; rel is always "subsection" |
| OpdsFeed.InsertAt | opds/opds.py:1173 | `insert` puts the item at the index, or at the end past it, and keeps the rest in order |
| OpdsFeed.WithGenreFacet | opds/opds.py:1171-1173 | inserting the genre facet adds exactly one facet |
| OpdsFeed.GenreFollowsSortAndSubjects | opds/opds.py:1171-1173 | the Broad Genre facet comes right after the sort facet and any top-subjects facet, before the others |

## Left out

- Database access is not modelled: sessions, `scalar()`, `fetchall()`, `count`, `list_bookshelves`, `list_subjects`, `get_subject_name` and `get_locc_children`. `execute` and `get_top_subjects_for_query` take the count and the rows as parameters, and the subject rows the database would return are not modelled.
- SQL has no semantics here. Full-text matching, trigram similarity, ranking and the EXISTS joins are strings. Line breaks inside the SQL text are not reproduced.
- The HTTP layer of opds/opds.py is not modelled: cherrypy routing, errors, logging, the feed dicts each handler assembles and the `__main__` server. `_get_top_subjects`, the LoCC child and book counts and the catalogue handlers are glue around the modelled helpers.
- The percent-encoding of `urlencode`/`quote` is a function parameter. `doseq` list expansion is not modelled because every parameter is a scalar.
- The Language, LoCC and curated-bookshelf tables of search/constants.py are static data. The language label table is a map parameter.
- search/test.py is a timing script against a live database and is not modelled.
- search/helpers.py is not part of this model. The crosswalks import their formatting decorator from it, and the model takes that decorator to be `format_dict_result` of search/formatters.py.
- Custom transformers are opaque functions from a row to a value.
- `\s` and `str.strip()` are modelled on six whitespace characters: space, `\t`, `\n`, `\r`, `\x0b` and `\x0c`. The separators `\x1c`–`\x1f`, `\x85` and the other Unicode spaces, which Python also treats as whitespace, are not modelled. `lower()`/`upper()` are modelled on ASCII letters only.
- SearchQuery.Filter: only auto-numbered `{}` fields are modelled. An explicit index (`{0}`), a format spec (`{:s}`) or a conversion (`{!s}`), which `str.format` accepts, makes the model report a failure. Every template in search/full_text_search.py uses `{}` only.
- OpdsFeed.ToInt: text is read as `int()` reads ASCII decimals, with single underscores between digits. Non-ASCII decimal digits (Arabic-Indic, full-width and so on), which `int()` also accepts, make the model's conversion fail.
- Html.Unescape reads back only the five entities `html.escape` writes. It is the inverse used in the proofs, not a model of `html.unescape`.
- Non-string inputs to the formatters, which return "" for them, are excluded by typing: every value is a string.
- Crosswalks.DescriptionParts: the contract states the count, the summary first and Rights/Downloads last. The Credits, Reading Level and Category paragraphs in between are in the definition but not in an ensures.
- Crosswalks.AcquisitionLink: the media type is only stated to be non-empty. The contract does not say it is the trimmed media type with `application/epub+zip` as the default.
- Crosswalks.ImagesFrom: the second image, a medium cover after a plain cover, is bounded but not characterised.
- Crosswalks.CollectionsOf: counts and names are stated; the identifier URLs are not.
- Crosswalks.FormatValues: only the entry count and the filename entry are stated.
- Contributors.ContributorFormat: with `all` and two or more named contributors, the join with `sep` or `strunk` is in the definition, but only the nameless-skipping lemma states anything about it.
- Contributors.ReverseName: the general contract states only trimming. The reversal is proved for "Last, First" words.
- Contributors.RemoveParenGroups: only the bounds and the identity on text without `(` are stated.
- OpdsFeed.SortChildren: the order and the multiset are proved. Stability is built into the insertion but not proved as a separate lemma.
- OpdsFeed.LoccLabel: the general contract covers labels without `:`. The cut after the first colon is proved for labels of the form `CODE: Name`. A label present but `None`, which raises in the source, is not modelled.

## Where the code differs from its description

The model follows the code in each of these cases:

- `strip_marc_subfields` deletes `$a`/`$b` markers without inserting a space, so `$aSmith$bJohn` becomes `SmithJohn` (Formatters.StripMarcExample).
- Field normalisation is not idempotent in general: `$$ab` becomes `$b`, which becomes "".
- The image loop of `crosswalk_opds` takes the first cover and stops at the first medium cover. A plain cover followed by a medium cover therefore gives two images (Crosswalks.OpdsCounts bounds this at two).
- The OPDS author is the first creator, whatever its role.
- `crosswalk_opds` has no audio reading order, durations or narrator lists.
- `query()` defaults to the FULL crosswalk, but a bare `SearchQuery()` uses PG (FullTextSearch.DefaultCrosswalk, SearchQuery.NewQuery).
- The LoCC navigation entry uses "subsection" for both leaves and sub-classes.
