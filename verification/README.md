# OpenBB documentation server: table-of-contents parser and section locator

This project models the text-processing core of the OpenBB documentation
server (`server.py`) in Dafny and proves properties of the model. The core has
three parts.

- **The table-of-contents parser** (`_parse_toc`) walks the stripped lines of
  the table of contents and remembers the latest category header. A header is
  a line that starts with none of the bullet markers `-`, `*`, `1.`–`5.`, and
  headers starting with `#` or `http` are skipped. Each bullet line that holds
  a markdown link `[title](url)` becomes a record with a title, category, url
  and description. An optional query keeps only the records whose title or
  category contains it, ignoring case.
- **The section locator** (`_find_section_content`) tries six title patterns in
  a fixed order: three heading forms, the title, its lower-case form and its
  slug. For each pattern it looks for the first document line that matches.
  From the matched line it collects the lines below it until a boundary line,
  the end of the document, or 100 body lines. In the last case it appends the
  marker `... (content truncated)`.
- **The extractor** (`_extract_sections_from_docs`) maps every requested title
  to the located text, or to a fixed not-found message.

Files:

- `text.dfy` (module `Text`) holds the Python string built-ins the core uses,
  over ASCII: `strip`, `lower`, `startswith`, `in`, `split`/`join` on one
  character, and `replace` of one character.
- `link.dfy` (module `LinkPattern`) holds the link regular expression
  `\[([^\]]+)\]\(([^)]+)\)`, written as a deterministic leftmost scanner.
- `toc.dfy` (module `Toc`) holds the parser.
  - `ParseLines` is the parse as a function, read line by line.
  - The method `ParseToc` is the source's loop, proved equal to that function.
- `sections.dfy` (module `Sections`) holds the locator and the extractor.
  - The methods `FindSectionContent`, `CollectSection` and `ExtractSections`
    are the source's loops.
  - Each is proved against a specification function: `FindSection`,
    `SectionLines` or `SectionValue`.

Cases where the code's behaviour may not be what a reader of the server
expects. The model follows the code in each one, and the lemmas named state
the behaviour:

- A `## x` line does not start with `"# "`. It ends a section only when it
  differs from the stripped header line, and a `### ` line never ends one
  (`SubheadingEnds`, `SubSubheadingContinues`).
- Patterns are not lower-cased, only the document line is. A title with an
  upper-case letter is never found by its first four patterns
  (`UpperTitleSkipsFirstFour`).
- The `line.lower().strip() == pattern` test adds nothing to the substring
  test (`MatchesIsContains`).
- The empty title always finds a section (`EmptyTitleFound`). The located
  text can be `""`, and then the stored value is still the not-found message:
  in the empty document the empty title locates `""` (`EmptyTitleEmptyDocs`,
  and the second ensures of `SectionValue`).
- The result is a dictionary, so a title requested twice gives one entry:
  the keys of `ExtractSections` are the set of requested titles, and
  `KeyCount` bounds the entries by the number of titles.
- A link whose text is only whitespace gives an empty title, and a link
  whose target is only whitespace gives an empty url: `- [a]( )` yields the
  url `""` (`BlankLinkParts`).
- A non-empty title that occurs verbatim in some line is always found, and
  its value is the located text rather than the not-found message
  (`VerbatimTitleFound`). The located text need not hold the title's heading,
  though: the search starts at the first line that matches the first matching
  pattern. For the title `Copilot Basics` and the document whose three lines
  are `Intro: see Copilot Basics below`, `## Copilot Basics` and `body`, the
  first four patterns hold upper-case letters and never match. The fifth
  matches line 0, and collection stops at the `## ` line, which differs from
  line 0. The value is `Intro: see Copilot Basics below` alone
  (`FoundAtFirstMatch`).
- A section is at most 102 lines: the matched line, 100 body lines and the
  marker (`SectionShape`).
- An ordinal bullet such as `6. [a](b)` is not a bullet: it becomes the
  category (`HigherOrdinalIsHeader`).

## Model

| member | source | states |
|---|---|---|
| Text.Strip | server.py:252 | the stripped line is no longer than the line and neither starts nor ends with whitespace |
| Text.StripMargins | server.py:252 | every character outside the stripped infix is whitespace, so stripping removes only whitespace and only at the ends |
| Text.StripIsInfix | server.py:252 | the stripped string is the infix of the line that starts after its leading whitespace |
| Text.StripIdempotent | server.py:268-269 | stripping a stripped title or url changes nothing |
| Text.StripEmpty | server.py:268-269 | a string strips to `""` exactly when all its characters are whitespace |
| Text.StripChars | server.py:268-269 | a stripped string holds only characters of the original |
| Text.StripOfSliceOccurs | server.py:268-269 | a stripped slice of a line occurs in the line |
| Text.Lower | server.py:272 | `lower()` keeps the length and lower-cases each ASCII letter in place |
| Text.StartsWith | server.py:259-261 | `s.startswith(prefix)`: `prefix` is a prefix of `s` (the body) |
| Text.Contains | server.py:316 | Python's `p in s`: `p` is a prefix of `s` or of one of its suffixes (the body; `ContainsAt` and `ContainsOffset` make it the infix test) |
| Text.ContainsAt | server.py:316 | `p in s` holds whenever `p` occurs at some offset of `s` |
| Text.ContainsOffset | server.py:316 | `p in s` holds only when `p` occurs at some offset of `s`; with `ContainsAt`, `in` is exactly the infix test |
| Text.ContainsLen | server.py:316 | a contained string is no longer than its container |
| Text.ContainsLower | server.py:316 | if `p in s` then `p.lower() in s.lower()` |
| Text.ContainedChars | server.py:316 | every character of a contained string is a character of the container |
| Text.SplitOn | server.py:247 | `split('\n')` always returns at least one piece, and no piece holds a line feed |
| Text.JoinSplit | server.py:302 | joining the pieces of a split on a character gives back the text |
| Text.JoinWith | server.py:339 | `'\n'.join(pieces)`: the pieces with the separator between neighbours (the body; `JoinSplit` and `SplitJoin` are its partners) |
| Text.JoinFirst | server.py:339 | `'\n'.join(pieces)` is at least as long as its first piece |
| Text.SplitJoin | server.py:339 | splitting a join of line-feed-free pieces gives back the pieces |
| Text.ReplaceChar | server.py:311 | `replace(' ', '-')` keeps the length and replaces exactly the spaces |
| Text.RemoveChar | server.py:262 | `replace('#', '')` leaves no `#` and does not lengthen the text |
| Text.RemoveCharKeeps | server.py:262 | `replace('#', '')` keeps every other character exactly as often as it occurs, and removes every `#` |
| Text.RemoveCharAppend | server.py:262 | `replace('#', '')` of a concatenation is the concatenation of the replacements, so the kept characters stay in order |
| LinkPattern.MatchUnique | server.py:266 | from a given `[` the link pattern matches in at most one way |
| LinkPattern.MatchAt | server.py:266 | a match found at a start satisfies the pattern there: non-empty groups, no `]` in group 1, no `)` in group 2 |
| LinkPattern.MatchAtComplete | server.py:266 | when no match is found at a start, the pattern does not match there at all |
| LinkPattern.SearchFrom | server.py:266 | a match found from an offset starts at or after it and satisfies the pattern |
| LinkPattern.Search | server.py:266 | a match found in a line satisfies the pattern |
| LinkPattern.SearchFromLeftmost | server.py:266 | the search from an offset returns the leftmost match at or after it, and none only when there is none |
| LinkPattern.SearchLeftmost | server.py:266 | `re.search` returns the leftmost match of the line, and finds one whenever the pattern matches anywhere |
| LinkPattern.LinkText | server.py:268 | group 1 is non-empty and holds no `]` |
| LinkPattern.LinkTarget | server.py:269 | group 2 is non-empty and holds no `)` |
| Toc.IsBullet | server.py:259 | a line starts with `-`, `*`, or a digit `1`–`5` followed by `.` (the body; `BulletMarkers` ties it to the `startswith` tuple) |
| Toc.BulletMarkers | server.py:259 | the bullet test is exactly `startswith` on one of `-`, `*`, `1.`–`5.` |
| Toc.IsHashOrUrl | server.py:261 | a line starts with `#` or with `http` (the body; `HashOrUrlPrefixes` ties it to the two `startswith` tests) |
| Toc.HashOrUrlPrefixes | server.py:261 | the skip test is exactly `startswith('#')` or `startswith('http')` |
| Toc.SetsCategory | server.py:255-262 | a stripped line sets the category when it is non-empty, not a bullet, and starts with neither `#` nor `http` (the body) |
| Toc.NextCategory | server.py:258-263 | the category after a line: that line's category text when it sets one, else the category before it (the body) |
| Toc.CategoryText | server.py:262 | a category holds no `#` and is already stripped |
| Toc.BlankLinkParts | server.py:266-269 | a record's title is empty exactly when its link text is all whitespace, and its url is empty exactly when its link target is |
| Toc.RecordOf | server.py:266-280 | the record of a line: the first link match, its stripped text as title, its stripped target as url, the given category and the description (the body) |
| Toc.RecordOfShape | server.py:266-280 | a line gives a record exactly when the link pattern matches it, and the record carries the given category and the description built from it and the title |
| Toc.Describe | server.py:279 | `f"{category}: {title}"` when the category is non-empty, else the title (the body) |
| Toc.DescribeShape | server.py:279 | a description ends with the title, and is the title alone when the category is empty |
| Toc.MatchesQuery | server.py:272 | the lower-cased query occurs in the lower-cased title or the lower-cased category (the body) |
| Toc.Keeps | server.py:272-273 | a record is kept when the query is absent or empty, or matches (the body; `FilterMembers` and `QueryKeepsMatches` state the consequences) |
| Toc.RecordOfWellFormed | server.py:266-280 | a record read from a line has its description built from its category and title, a title without `]`, a url without `)`, and stripped fields |
| Toc.RecordInLine | server.py:266-269 | the title and the url of a record both occur in the line it was read from |
| Toc.Emit | server.py:251-280 | a line yields at most one record, and only a non-empty bullet line whose link gives that record |
| Toc.CategoryAfter | server.py:249-263 | the category in force holds no `#` and is stripped |
| Toc.ParseLines | server.py:251-280 | a parse yields no more records than lines |
| Toc.TocLines | server.py:247 | the parser always walks at least one line |
| Toc.ParseToc | server.py:244-282 | the loop returns exactly the line-by-line parse of the stripped, split table of contents, so at most one record per line |
| Toc.ParsedRecordsWellFormed | server.py:275-280 | every record of a parse is well formed: description `category: title`, or the title alone when the category is empty |
| Toc.FilterMembers | server.py:272-273 | the query filter keeps exactly the records whose title or category contains the query, ignoring case |
| Toc.FilterIsSubsequence | server.py:272-273 | the query filter keeps records in their order |
| Toc.FilterAppend | server.py:272-273 | filtering records line by line is filtering them all at once |
| Toc.EmitFilter | server.py:272-273 | on one line a non-empty query filters the unfiltered record, and an empty query changes nothing |
| Toc.QueryFilters | server.py:272-273 | a parse with a non-empty query is the unfiltered parse filtered, and with an empty query it is the unfiltered parse |
| Toc.QueryKeepsMatches | server.py:272-273 | a parse with a query is a subsequence of the unfiltered parse and keeps exactly the matching records |
| Toc.CategoryWithoutHeader | server.py:249 | before any category header the category is `""` |
| Toc.CategoryIsLatestHeader | server.py:258-263 | the category is that of the latest line that sets one |
| Toc.OriginsIncrease | server.py:251-280 | records come in the order of the lines that yield them |
| Toc.OriginYields | server.py:251-280 | each record is exactly what its bullet line yields under the category in force before that line |
| Toc.EmittingLineIsOrigin | server.py:251-280 | every line that yields a record under the category in force before it is the origin of a record of the parse, so no record is dropped |
| Toc.YieldsAtExtend | server.py:251-280 | reading further lines does not change what an earlier line yielded |
| Toc.IgnoredLine | server.py:254-263 | empty lines and lines starting with `#` or `http` change neither the records nor the category |
| Toc.HigherOrdinalIsHeader | server.py:259-262 | a line starting `6.`–`9.` yields no record and becomes the category |
| Sections.Patterns | server.py:305-312 | six patterns, none shorter than the title, the fourth the title itself and the fifth its lower-case form |
| Sections.LineMatches | server.py:316 | `pattern in line.lower() or line.lower().strip() == pattern` (the body; `MatchesIsContains` simplifies it) |
| Sections.MatchesIsContains | server.py:316 | a line matches a pattern exactly when the pattern occurs in the lower-cased line |
| Sections.LowerHasNoUpper | server.py:316 | a lower-cased line holds no upper-case letter |
| Sections.UpperPatternNeverMatches | server.py:316 | a pattern holding an upper-case letter matches no line |
| Sections.IsBoundary | server.py:324-328 | the stripped line starts with `# `, or starts with `## ` and differs from the stripped header line (the body; the two lemmas below give its cases) |
| Sections.SubSubheadingContinues | server.py:326-328 | a `### ` line never ends a section |
| Sections.SubheadingEnds | server.py:326-328 | a `## ` line ends a section exactly when it differs from the stripped header line |
| Sections.FirstLine | server.py:315-316 | the line found for a pattern matches it |
| Sections.FirstLineEarliest | server.py:315-316 | no line before the one found matches the pattern |
| Sections.FirstHit | server.py:314-316 | a hit names a pattern and a line in range |
| Sections.FirstHitIsFirst | server.py:314-316 | the hit matches, no earlier pattern matches any line, and no earlier line matches the hit's pattern |
| Sections.NoHitNoMatch | server.py:314-316 | without a hit no pattern matches any line |
| Sections.MatchGivesHit | server.py:314-316 | a matching pattern and line guarantee a hit |
| Sections.Body | server.py:320-337 | the lines collected from a position with room left: none at the end or at a stopping line, the line and the marker when it fills the room, else the line and the rest (the body; `BodyShape` and `BodyLine` characterise it) |
| Sections.BodyAt | server.py:322-337 | a non-boundary line is collected, followed by the marker when it fills the room and by the rest otherwise |
| Sections.BodyShape | server.py:320-337 | the collected body is either short of the room, stopped at the end or before a boundary, or fills the room and ends with the marker |
| Sections.BodyLine | server.py:320-332 | each collected body line is the document line at its position and is not a boundary line |
| Sections.SectionLines | server.py:318-337 | the returned lines start with the matched line itself |
| Sections.SectionShape | server.py:318-337 | a section has at most 100 lines, the header included, and stopped at the end or before a boundary line; or it has 101 lines and then the marker |
| Sections.SectionLine | server.py:318-332 | the returned lines before the marker are the document lines from the hit on, verbatim, and none after the header is a boundary |
| Sections.CollectStep | server.py:322-337 | one pass of the collecting loop keeps the collected lines a prefix of the section |
| Sections.CollectSection | server.py:318-337 | the `while` loop returns exactly the section lines for the hit |
| Sections.FindSectionContent | server.py:300-341 | the nested loops return exactly the specified locator result |
| Sections.FindSection | server.py:300-341 | the join of the section lines at the first hit, or none without a hit (the body; `MatchFound`, `NotFoundNoMatch` and `FoundAtFirstMatch` characterise it) |
| Sections.NotFoundNoMatch | server.py:314-316 | when nothing is found, no pattern occurs in any lower-cased line |
| Sections.MatchFound | server.py:314-318 | when a pattern occurs in a lower-cased line, something is found |
| Sections.FoundAtFirstMatch | server.py:314-339 | a found section is the joined section at the first matching line of the first pattern that matches any line |
| Sections.VerbatimTitleFound | server.py:289-316 | a non-empty title occurring verbatim in a document line is found, and the value stored for it is the located text, not the not-found message |
| Sections.FoundLinesRoundTrip | server.py:339 | the returned text splits back into exactly the section lines |
| Sections.SectionPieces | server.py:318-337 | every returned line is a document line or the marker |
| Sections.UpperTitleSkipsFirstFour | server.py:305-316 | a title with an upper-case letter is found only by its lower-case form or its slug |
| Sections.SkipUnmatched | server.py:314-316 | a pattern with an upper-case letter passes the search on to the next pattern |
| Sections.EmptyTitleFound | server.py:305-316 | the empty title is always found |
| Sections.EmptyTitleEmptyDocs | server.py:291-295 | in the empty document the empty title locates `""`, so its stored value is the not-found message |
| Sections.NotFound | server.py:295 | the not-found message is longer than the title it names |
| Sections.SectionValue | server.py:291-295 | the stored value is never empty, and is the not-found message when nothing or nothing non-empty was found |
| Sections.ExtractSections | server.py:285-297 | the keys are exactly the requested titles, and each value is the found content when non-empty, else the not-found message |
| Sections.KeyCount | server.py:287-295 | there are at most as many entries as requested titles |

## Left out

- The MCP tool wrappers `identify_openbb_docs_sections` and `fetch_openbb_content` (server.py:54-107) only register protocol entry points.
- `_identify_sections_async` and `_fetch_content_async` (server.py:110-241) are network fetches with `httpx`. Their exception handling and instruction text are I/O and formatting around the core.
- The application setup, URL constants and server launch (server.py:19-51, 344-358) are configuration and I/O.
- `test_section_extraction.py` fetches live documentation and only prints results, so it states no property.
- Text.Strip: the whitespace set is the ASCII part of Python's `str.isspace`. Characters such as U+00A0 or U+2028 are not treated as whitespace.
- Text.Lower: only ASCII letters are lower-cased. Python's `str.lower` also maps non-ASCII letters.
- LinkPattern.Search: only the one link pattern is modelled, as a scanner, not a general regular-expression engine.
- Sections.ExtractSections: the result is a Dafny map, so the insertion order of the Python dictionary is not modelled.
