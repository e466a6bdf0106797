# The Rulin Waishi dashboard core, modelled in Dafny

The dashboard (`app.py`, a Streamlit app about the novel *Rulin Waishi*)
mostly renders data. Three parts of it compute something, and this
project models those three:

- **The chapter statistics aggregator** `process_chapter_stats` and its
  location table `LOCATIONS_DB` (module `ChapterStats`).
  - The corpus is cut before every chapter-title marker (a `*` followed by a
    character other than a newline), and blank chunks are dropped.
  - Each remaining chunk becomes one row. The row holds the chunk's full title,
    a short label, and one count per location: how many times that location's
    aliases occur in the chunk.
- **The keyword paragraph search** (module `KeywordSearch`).
  - The corpus is cut into paragraphs on literal backslash-n sequences, falling
    back to real newlines.
  - The first three paragraphs that contain the term are shown, stripped.
  - A warning is raised when no paragraph contains the term.
- **The route-point flattening loop** of the character-route tab (module
  `RoutePoints`). Every waypoint of every route becomes one scatter point,
  carrying that route's name and colour.

The Python string operations these parts rely on are modelled once, in
module `PyString`:
- `str.isspace` and `strip`;
- `in` (substring containment);
- `count`, which counts non-overlapping occurrences left to right;
- `split` with an explicit separator;
- `join`;
- `replace(p, "")`.

The regular-expression split with the lookahead `(?=\*[^\n]+)` is specified
by where it cuts, not by a regex engine:
- A cut falls before every index `i` where `s[i]` is `*` and a next
  character exists that is not a newline.
- A cut at index 0 gives a leading empty chunk.
- Adjacent cuts give one-character chunks.

`IsChapterSplit` states what a correct split is. `SplitChapters` computes
one such split (`SplitChaptersSpec`), and `SplitUnique` proves it is the only
one.

The three loop nests are imperative Dafny methods:
- `ChapterRows` (the location table is a parameter) and
  `ProcessChapterStats` (with the table fixed to `LocationsDb`);
- `Search`;
- `FlattenRoutes`.

Each method is proved equal to a specification function: `RowsOf`/`RowFor`,
`Take(Matches(...), 3)` and `PointsOf`, in that order. The properties are
then proved about those functions.

Three behaviours of the code are worth stating plainly, because a reader
might expect otherwise:
- **Title markers are not anchored to line starts.** The lookahead in
  `app.py:105` has no line anchor, so any `*` followed by a non-newline
  character cuts, even in the middle of a line.
  - The cut positions are those of Python 3.7 and later, whose `re.split`
    also splits on empty matches. Earlier versions do not split on empty
    matches, and 3.5 and 3.6 reject this pattern in `re.split`.
  - A doubled marker cuts twice: `**x` gives `["", "*", "*x"]`
    (`DoubledMarkerCutsTwice`).
  - So a piece after the first starts with `*`. That `*` is followed by a
    non-newline character in the whole text, but that character can lie in
    the next piece: `**x` gives the piece `*`.
- **Text before the first marker is kept.** It becomes a chunk like any
  other, and it yields a row unless it is blank.
- **An empty search term shows nothing.** No paragraph is shown and no
  message is raised (`app.py:280`).

## Model

| member | source | states |
|---|---|---|
| PyString.StripShape | app.py:108 | `Strip` (`strip()`) leaves a slice of the text with only whitespace (Python's full `isspace` set) before and after it; the slice neither starts nor ends with whitespace, and it is empty exactly when the text is all whitespace |
| PyString.ContainsIffOccurs | app.py:285 | `Contains` (`term in p`) holds exactly when the term occurs at some index of `p` |
| PyString.ContainsChar | app.py:111 | `' ' in title` means the same as the character being an element of the title |
| PyString.CountBounds | app.py:117 | `Count` (`str.count`) finds non-overlapping occurrences: their total length is at most the text's length, and the count is positive exactly when the alias occurs |
| PyString.SplitLength | app.py:109 | `Split` (`split(sep)`) gives exactly one piece more than `count(sep)` |
| PyString.SplitJoin | app.py:281-282 | joining the pieces of `split(sep)` with `sep` gives back the text |
| PyString.SplitFirst | app.py:109 | the first piece of a split is a prefix of the text without the separator, and no occurrence of the separator starts inside it (it ends at the leftmost one); there is more than one piece exactly when it is shorter than the text, and then the separator follows it |
| PyString.SplitPiecesFree | app.py:281-282 | no piece of a split contains the separator |
| PyString.RemoveLength | app.py:110 | `Remove` (`replace(p, "")`) shortens the text by `len(p)` for each counted occurrence |
| PyString.RemoveIsJoinOfSplit | app.py:110 | `replace(p, "")` equals splitting on `p` and joining with nothing |
| PyString.RemoveCharGone | app.py:110 | after removing every `*`, no `*` is left |
| PyString.StripKeepsAbsent | app.py:110 | stripping adds no character: one absent from the text is absent from what `strip()` leaves |
| PyString.RemoveCharKeepsAbsent | app.py:110 | removing every `*` adds no other character: a newline absent before is absent after |
| PyString.RemoveCharKeepsOthers | app.py:110 | removing one character keeps every other character as often as before |
| ChapterStats.NextSplit | app.py:105 | the next cut at or after a position is a split point, and no split point lies before it |
| ChapterStats.SplitChaptersSpec | app.py:105 | `SplitChapters` (the `re.split` on the title lookahead): the chunks concatenate to the corpus; every chunk after the first is non-empty and starts a suffix with a split point at its head; no other index inside a chunk is a split point |
| ChapterStats.PiecesSplit | app.py:105 | the cutting recursion, from either start position, yields pieces that concatenate to the rest of the text and break exactly at the split points |
| ChapterStats.SplitUnique | app.py:105 | any list of chunks with those properties equals `SplitChapters`'s, so the split is fully determined |
| ChapterStats.ChunksStartWithStar | app.py:105 | every chunk after the first starts with `*` |
| ChapterStats.DoubledMarkerCutsTwice | app.py:105 | `**x` is cut into `""`, `*` and `*x` |
| ChapterStats.NonBlankOne | app.py:107-108 | `NonBlank` (the `continue` on blank chunks): a chunk is kept exactly when it is not all whitespace |
| ChapterStats.NonBlankConcat | app.py:107-108 | filtering out blank chunks keeps the chunks' order across a concatenation |
| ChapterStats.NonBlankCounts | app.py:107-108 | each non-blank chunk is kept as often as it occurs, and each blank chunk (the leading empty one included) never |
| ChapterStats.FirstLineShape | app.py:109 | `FirstLine` (`lines[0]`) is a prefix of the chunk with no newline, followed by a newline unless it is the whole chunk |
| ChapterStats.TitleShape | app.py:110 | `Title` (`Full_Title`) contains no `*` and no newline and has no whitespace at either end; the first line, with its stars removed, is the title with only whitespace around it |
| ChapterStats.ShortLabel | app.py:111 | the label is a prefix of the title; with a space, it is the text before the first space; without one, it is the first 6 characters, or the whole title when shorter |
| ChapterStats.LocationsDbWellFormed | app.py:60-74 | the nine location names are pairwise distinct, differ from `Chapter` and `Full_Title`, and no alias is empty |
| ChapterStats.AliasTotal | app.py:114-117 | a location's count is never negative |
| ChapterStats.AliasTotalPositive | app.py:114-117 | a location's count is positive exactly when one of its aliases occurs in the chunk |
| ChapterStats.AliasTotalConcat | app.py:116-117 | the count over two lists of aliases is the sum of their separate counts |
| ChapterStats.AliasTotalAbsent | app.py:116-117 | aliases whose first character is not in the chunk add nothing |
| ChapterStats.AliasTotalCountsEach | app.py:116-117 | every alias's own count is included in the location's count, whatever the other aliases match |
| ChapterStats.AliasTotalAtLeast | app.py:116-117 | the location's count is at least any single alias's count |
| ChapterStats.AliasTotalTwo | app.py:116-117 | when every other alias's first character is absent from the chunk, the location's count is just the two remaining aliases' counts |
| ChapterStats.NestedAliasesCountTwice | app.py:116-117 | when one alias begins another, the longer one's text already counts at least 2 |
| ChapterStats.QiantangGateCountsTwice | app.py:62-63 | in Hangzhou's list, one `錢塘門` adds exactly 2 (once for `錢塘`, once for `錢塘門`) |
| ChapterStats.RowForShape | app.py:113-118 | with distinct location names, the row has exactly the keys `Chapter`, `Full_Title` and the location names; it holds the short label, the title, and each location's alias total |
| ChapterStats.RowOfShape | app.py:113-118 | every row built with `LOCATIONS_DB` has exactly the eleven keys, and each count is the location's non-negative alias total |
| ChapterStats.LocationCount | app.py:114-117 | the inner loop over a location's aliases accumulates exactly the location's alias total |
| ChapterStats.ChapterRow | app.py:109-118 | the loop over `LOCATIONS_DB` builds exactly the chunk's row: label, title and every location's alias total |
| ChapterStats.ChapterRows | app.py:103-120 | the loops give one row per non-blank chunk, in the chunks' order, and each row is that chunk's `RowFor` |
| ChapterStats.ProcessChapterStats | app.py:103-120 | the same, with `LOCATIONS_DB` |
| KeywordSearch.ParagraphsShape | app.py:281-282 | `Paragraphs`: the fallback to real newlines is taken exactly when the text, with its backslash-r gone, holds no literal backslash-n; either way the paragraphs rejoin to the text that was split, and none holds its separator |
| KeywordSearch.MatchesConcat | app.py:283-287 | `Matches` (the stripped paragraphs that contain the term): the matches of two runs of paragraphs are the first run's matches followed by the second's (matches keep paragraph order) |
| KeywordSearch.MatchesEmptyIff | app.py:290 | there are no matches exactly when no paragraph contains the term |
| KeywordSearch.MatchesSound | app.py:284-286 | each match is the stripped form of some paragraph that contains the term |
| KeywordSearch.MatchesComplete | app.py:284-286 | every paragraph that contains the term gives a match, its stripped form |
| KeywordSearch.MatchesLength | app.py:283-285 | there are at most as many matches as paragraphs, and exactly as many when every paragraph contains the term |
| KeywordSearch.Take | app.py:288-289 | at most the first `n` matches are kept, as a prefix: exactly `n` when there are at least that many, all of them otherwise |
| KeywordSearch.ShownAreFirst | app.py:288-289 | breaking at the third match shows exactly the first three matches of all the paragraphs |
| KeywordSearch.Search | app.py:280-290 | an empty term shows nothing and raises no warning; otherwise the loop shows the first three matches (or all, when fewer) in paragraph order, and it warns exactly when there are none |
| RoutePoints.FlattenRoutes | app.py:325-328 | the nested loops produce `PointsOf(routes)`: each route's points, one route after another |
| RoutePoints.PointsOfConcat | app.py:326-328 | the points of two runs of routes are the first run's followed by the second's |
| RoutePoints.PointsOfLength | app.py:326-328 | there is exactly one point per waypoint |
| RoutePoints.PointsOfAt | app.py:326-328 | waypoint `i` of route `k` is the point right after all earlier routes' waypoints, with route `k`'s name and colour |
| RoutePoints.PointsOfFrom | app.py:326-328 | every point is some route's waypoint together with that route's name and colour |
| RoutePoints.RoutesDataPoints | app.py:295-315 | the three routes of `ROUTES_DATA` give 12 points: 6 for Kuang Chaoren, then 2 for Ma Chunshang, then 4 for Niu Buyi |

## Left out

- The Streamlit user interface:
  - Left out: tabs, columns, markdown prose, dividers and the search box.
  - Reason: these only present data. `Search` returns the paragraphs it would
    show and whether it would warn.
  - The `**...**` decoration around each shown paragraph is presentation and
    is not modelled.
- File input:
  - Left out: reading the CSV, the text and the spreadsheet; the existence
    checks; the halt when a mandatory file is missing.
  - Reason: these are I/O. The corpus is a parameter of `ProcessChapterStats`
    and `Search`.
- Framework behaviour:
  - Left out: the `st.cache_data` memoisation.
  - Reason: it does not change any result.
- Wrapping the rows in a pandas `DataFrame`, and the later `melt`
  reshaping:
  - Reason: these are library calls whose code is not part of this model.
  - `ProcessChapterStats` returns the list of row dictionaries the frame is
    built from.
- Rendering and lookups:
  - Left out: the base64 embedding of the background image, the pydeck and
    plotly rendering, and the spreadsheet chapter lookup.
  - Reason: these are I/O, rendering and thin wrappers over external
    libraries.
- The regular-expression engine:
  - The split it performs is specified by its cut positions (`IsSplitPoint`,
    `IsChapterSplit`) rather than by matching the pattern.
- Waypoint coordinates:
  - The coordinates are floating point in the source and an opaque type
    parameter in `RoutePoints`.
  - Only `RoutesData` gives them a concrete form: integers in hundredths of
    a degree, which is exact for the two-decimal values listed.
- Python `split` without a separator is not modelled. It is not used here:
  every split in the core passes an explicit separator.
