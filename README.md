# Advocate directory search, modelled in Dafny

The directory lists advocates (first and last name, city, degree, specialties,
years of experience, phone number). A free-text query selects records and marks
the matched text. The search happens in two places, and both are modelled here:

- **The page** (`src/app/page.tsx`) filters in memory.
  - The query is trimmed, lower-cased and split on runs of whitespace into
    terms.
  - Each record is projected onto its lower-cased searchable strings:
    - the six scalar fields, with `''` for a missing one;
    - the years shown as `"0"` when missing or empty;
    - then each specialty on its own.
  - A record is kept when every term is a substring of one of those strings.
  - The tokens passed to the highlighter are the non-empty terms.
- **The card's highlighter** (`src/app/AdvocateCard.tsx`, `highlightText`)
  walks a display string with a cursor.
  - At each position it tries the non-empty tokens, longest first (a stable
    sort), against the lower-cased text.
  - It marks the first token that matches, in the text's own casing, and
    jumps past it.
  - Otherwise it emits the single character and moves on.
- **The search route** (`src/app/api/advocates/route.ts`) compiles the same
  query into an SQL `WHERE` clause.
  - There is one clause per word.
  - Each clause is an `OR` of `LOWER(column) LIKE '%' || word || '%'` over the
    six columns, plus an `EXISTS` over the specialties array.
  - The clauses are joined by `AND`.
  - The database returns the rows for which the clause is TRUE.

Modules, one file each:

| file | module | contents |
|---|---|---|
| `optional.dfy` | `Optional` | the option type |
| `seqs.dfy` | `Seqs` | order-preserving filter |
| `text.dfy` | `Text` | ECMAScript whitespace, `trim`, ASCII `toLowerCase`, `split(/\s+/)`, `includes` |
| `records.dfy` | `Records` | the record type |
| `search.dfy` | `Search` | the page |
| `highlight.dfy` | `Highlight` | the highlighter |
| `query.dfy` | `Query` | the route |
| `agreement.dfy` | `Agreement` | when the page and the route return the same records |

How each part is modelled:

- **The page's filter** is pure and modelled as functions.
- **`highlightText`** is imperative code. It is modelled as the method
  `HighlightText`, with the outer `while` loop and its invariants. One turn of
  the loop is the method `NextPiece`. The inner `for … break` scan is the method
  `FirstMatchScan`.
  - The methods are proved against the specification predicate
    `IsHighlighting`: the pieces spell the text, and each piece is what the
    algorithm must emit where it starts.
  - `HighlightingIsUnique` shows that this specification determines the output.
- **The route's `WHERE` clause** is a datatype (`Where`, `Clause`,
  `Condition`).
  - It is evaluated with SQL's three-valued logic (`Truth`, `Or3`, `And3`).
  - PostgreSQL's `LIKE` is modelled with `%`, `_` and the default escape `\`.

The model follows the code where the two descriptions of the system differ:

- `highlightText` pushes unmatched text one character at a time. It does not
  gather a run of plain characters into one piece, so the model emits one
  `Plain` piece per unmatched character (`PlainTextComesOutCharacterByCharacter`).
- With no tokens at all, the text comes back whole; this is modelled as the
  single piece `[Plain(text)]`.
- The page and the route do not apply quite the same rule. `Agreement` proves
  that they agree provided that:
  - every record has a non-empty `yearsOfExperience`, and
  - no query word contains `%`, `_` or `\`.

  These conditions are sufficient, not necessary: many records and queries
  that break them are still treated alike (a record without years whose
  first name holds every query word, say). But neither condition can simply be
  dropped: `MissingYearsDiverge` and `UnderscoreDiverges` each exhibit a
  record and a query on which the two sides part when that one condition
  fails.

## Model

| member | source | states |
|---|---|---|
| Records.Advocate | src/db/index.ts:24-32 | the record: first and last name, city, degree, specialties, years of experience, phone number, each possibly missing (a definition) |
| Seqs.Filter | src/app/page.tsx:39-50 | the result is a subsequence of the input (order kept) and holds exactly the elements that pass the test |
| Seqs.FilterCounts | src/app/page.tsx:39-50 | a kept element occurs in the result as often as in the input; any other element does not occur |
| Seqs.FilterFilter | src/app/page.tsx:49 | filtering by one test and then another is filtering once by their conjunction |
| Text.IsSpace | src/app/page.tsx:38 | the characters `\s` matches and `trim()` removes: the ECMAScript white-space and line-terminator code points (a definition; the lemmas below state its use) |
| Text.NonEmpty | src/app/page.tsx:75 | `filter(Boolean)` on strings keeps exactly the non-empty ones (a definition; `Search.HighlightTokens` and `Highlight.BestIgnoresEmpty` use it) |
| Text.TrimStart | src/app/page.tsx:38 | the result is a suffix of the input, everything cut off is whitespace, and the result does not start with whitespace |
| Text.TrimEnd | src/app/page.tsx:38 | the result is a prefix of the input, everything cut off is whitespace, and the result does not end with whitespace |
| Text.Trim | src/app/page.tsx:38 | `trim()` as leading then trailing whitespace removal (a definition; `TrimSlice`, `TrimEnds` and `TrimEmptyIffBlank` characterise it) |
| Text.TrimSlice | src/app/page.tsx:38 | `trim()` returns a slice of its input with only whitespace removed before and after it |
| Text.TrimEnds | src/app/page.tsx:38 | the trimmed string is empty or neither starts nor ends with whitespace |
| Text.TrimEmptyIffBlank | src/app/api/advocates/route.ts:8-10 | `trim()` yields `""` exactly when the input is all whitespace, which is when `!query` holds |
| Text.LowerChar | src/app/page.tsx:38 | `A`..`Z` become `a`..`z` (code point plus 32); every other character is unchanged |
| Text.Lower | src/app/page.tsx:38 | lower-casing keeps the length and lower-cases each character in place |
| Text.LowerIsLower | src/app/page.tsx:48 | a lower-cased string is lower-case, so lower-casing twice changes nothing |
| Text.LowerTrimCommute | src/app/api/advocates/route.ts:8 | trimming then lower-casing equals lower-casing then trimming |
| Text.SplitFrom | src/app/page.tsx:38 | the split has at least one piece and no piece contains whitespace; that the pieces are exactly the maximal runs is `SplitIsMaximalRuns` and `SplitIsDetermined` |
| Text.Split | src/app/page.tsx:38 | `split(/\s+/)` on the whole string (a definition; the lemmas below characterise it) |
| Text.SplitIsMaximalRuns | src/app/page.tsx:38 | the input is its pieces interleaved with non-empty runs of whitespace; no piece holds whitespace and only the first and last piece may be empty, so pieces break only at whitespace runs |
| Text.SplitIsDetermined | src/app/page.tsx:38 | any list of pieces that interleaves with whitespace runs in that way is `split(/\s+/)`'s result: the split is the unique cut at the maximal runs |
| Text.SplitLosesOnlySpace | src/app/page.tsx:38 | joining the pieces of `split(/\s+/)` gives the input with exactly its whitespace removed |
| Text.SplitOfTrimmed | src/app/page.tsx:38 | `""` splits into `[""]`; a non-empty string without leading or trailing whitespace splits into non-empty pieces only |
| Text.TrimAndSplitOfWord | src/app/page.tsx:38 | a string without whitespace is unchanged by `trim()` and splits into itself alone |
| Text.OccursAt | src/app/AdvocateCard.tsx:26 | `startsWith(t, k)`: `t` fits in the string from index `k` and the slice there equals `t` (a definition) |
| Text.Contains | src/app/page.tsx:49 | `includes`: the term occurs at some index of the string (a definition; `ContainsEmpty` and `Query.LikeContains` use it) |
| Text.ContainsEmpty | src/app/page.tsx:49 | `includes('')` holds of every string |
| Search.Terms | src/app/page.tsx:38 | a query always has at least one term |
| Search.TermsAreLowerWords | src/app/page.tsx:38 | every term is free of whitespace and already lower-case |
| Search.TermsOfBlank | src/app/page.tsx:38 | an empty or all-whitespace query has exactly the one term `""` |
| Search.TermsOfNonBlank | src/app/page.tsx:38 | any other query has no empty term |
| Search.TermsOfWord | src/app/page.tsx:38 | a one-word lower-case query is its own single term |
| Search.SearchIgnoresQueryCase | src/app/page.tsx:38 | two queries equal up to letter case have the same terms and filter the same records |
| Search.YearsText | src/app/page.tsx:45 | a missing or empty years value is shown as `"0"`, and a present non-empty value as it is; the result is never empty |
| Search.OrEmpty | src/app/page.tsx:41-44 | the fallback to `''` gives the value when present and `""` when missing |
| Search.SpecialtyList | src/app/page.tsx:47 | the fallback to `[]` gives the list when present and the empty list when missing |
| Search.Projection | src/app/page.tsx:40-48 | a record projects to six plus one string per specialty, all lower-case, and the years string is never empty |
| Search.ScalarFields | src/app/page.tsx:40-46 | the first six projected strings are the lower-cased first name, last name, city and degree (`''` when missing), the years and the phone number |
| Search.SpecialtyFields | src/app/page.tsx:47-48 | after them come the lower-cased specialties, one string each, in order |
| Search.ProjectionOfEmptyRecord | src/app/page.tsx:40-48 | a record with every field missing projects to `""` four times, `"0"` for the years, and `""` for the phone number |
| Search.SpecialtiesMatchOneByOne | src/app/page.tsx:47-49 | specialties are searched one by one: `bc` does not match the specialties `ab`, `cd` |
| Search.Keeps | src/app/page.tsx:49 | `terms.every(t => props.some(p => p.includes(t)))` (a definition; `KeepsConjunction`, `KeepsEveryoneOnEmptyTerm` and `Agreement.RecordAgrees` characterise it) |
| Search.FilterByTerms | src/app/page.tsx:39-50 | the kept records are a subsequence of the input; a record is kept exactly when each term is a substring of one of its projected strings |
| Search.FilterAdvocates | src/app/page.tsx:34-51 | `filterAdvocates` keeps, in order, exactly the records that satisfy every term of the query |
| Search.KeepsEveryoneOnEmptyTerm | src/app/page.tsx:49 | the empty term is satisfied by every record |
| Search.BlankSearchKeepsAll | src/app/page.tsx:34-51 | an empty or all-whitespace query returns the input unchanged |
| Search.KeepsConjunction | src/app/page.tsx:49 | `every`: a record satisfies two term lists together exactly when it satisfies each |
| Search.MoreTermsNarrow | src/app/page.tsx:49 | adding terms filters the previous result further, so the result only shrinks and keeps its order |
| Search.ProjectionOfFolded | src/app/page.tsx:48 | lower-casing the record's strings leaves its projection unchanged |
| Search.KeepsIgnoresRecordCase | src/app/page.tsx:48-49 | two records equal up to letter case are kept or dropped together |
| Search.HighlightTokens | src/app/page.tsx:75 | each highlight token is a non-empty search term |
| Search.HighlightTokensOfBlank | src/app/page.tsx:75 | a blank query gives no highlight tokens |
| Search.HighlightTokensOfNonBlank | src/app/page.tsx:75 | any other query gives exactly its terms as highlight tokens |
| Highlight.Segment | src/app/AdvocateCard.tsx:33-48 | a pushed piece: a `<mark>` around matched text, or plain text (a definition) |
| Highlight.MatchesAt | src/app/AdvocateCard.tsx:25-26 | a token matches at `i` when it is non-empty and the lower-cased text starts with it at `i` (a definition) |
| Highlight.ChosenIsUnique | src/app/AdvocateCard.tsx:12-31 | at most one token is the one marked at a position |
| Highlight.BestIsChosen | src/app/AdvocateCard.tsx:12-31 | the reference choice is the chosen token (it matches, no matching token is longer, ties go to the earlier token), and there is none exactly when no token matches |
| Highlight.BestIgnoresEmpty | src/app/AdvocateCard.tsx:14 | dropping the empty tokens does not change which token is chosen |
| Highlight.InsertByLength | src/app/AdvocateCard.tsx:15 | insertion adds one element and keeps all the others |
| Highlight.SortByLength | src/app/AdvocateCard.tsx:13-15 | the sort keeps the length and the elements of the list |
| Highlight.SortIsLongestFirst | src/app/AdvocateCard.tsx:15 | the sorted tokens are in order of non-increasing length |
| Highlight.SortPermutes | src/app/AdvocateCard.tsx:13-15 | the sorted tokens are a permutation of the input |
| Highlight.SortIsStable | src/app/AdvocateCard.tsx:15 | the sort is stable: tokens of equal length keep their relative order |
| Highlight.FirstMatch | src/app/AdvocateCard.tsx:24-31 | the scan's token is in the list and matches at the position; when it finds none, no token in the list matches |
| Highlight.FirstMatchOfSorted | src/app/AdvocateCard.tsx:13-31 | scanning the length-sorted list finds the reference choice |
| Highlight.ScanFindsChosen | src/app/AdvocateCard.tsx:13-31 | scanning the sorted non-empty tokens finds the chosen token, and finds none exactly when no token matches |
| Highlight.FirstMatchScan | src/app/AdvocateCard.tsx:22-31 | the inner loop finds a match exactly when one exists; it then reports the match end `i + length` and the matched slice in the text's own casing |
| Highlight.MarkedPieceFits | src/app/AdvocateCard.tsx:32-46 | the slice under the chosen token lies inside the text and is a correct marked piece at the cursor |
| Highlight.PlainPieceFits | src/app/AdvocateCard.tsx:47-49 | where nothing matches, the single character at the cursor is a correct plain piece |
| Highlight.NextPiece | src/app/AdvocateCard.tsx:21-50 | one turn of the loop emits a correct piece covering `text[i..j]` and advances the cursor strictly (`i < j <= length`) |
| Highlight.HighlightText | src/app/AdvocateCard.tsx:9-53 | no tokens gives the text whole; otherwise the pieces spell the text exactly and each is the marked chosen token or the plain unmatched character at its position |
| Highlight.PiecesTile | src/app/AdvocateCard.tsx:21-51 | every piece is non-empty, lies inside the text and ends where the next begins |
| Highlight.StartsInside | src/app/AdvocateCard.tsx:21 | every piece starts inside the text |
| Highlight.HighlightingIsUnique | src/app/AdvocateCard.tsx:21-51 | two correct highlightings of the same text and tokens are equal, so the output is fully determined |
| Highlight.FitsIsPieceAt | src/app/AdvocateCard.tsx:21-50 | a piece that fits is the one its start position determines: the source-cased slice under the chosen token, marked, or else the single character there, plain |
| Highlight.LongestTokenWins | src/app/AdvocateCard.tsx:12-15 | with tokens `john` and `johnson`, "Johnson" is highlighted as one marked piece and nothing else |
| Highlight.PlainTextComesOutCharacterByCharacter | src/app/AdvocateCard.tsx:46-49 | "John Doe" with tokens `john`, `boston` is `John` marked, then `" "`, `D`, `o`, `e` as separate plain pieces |
| Query.Column | src/app/api/advocates/route.ts:20-25 | the six scalar columns the route tests, in the route's order (a definition) |
| Query.Condition | src/app/api/advocates/route.ts:20-31 | one test of a clause: a column `LIKE` a pattern, or the specialties array holding an element `LIKE` it (a definition) |
| Query.Clause | src/app/api/advocates/route.ts:18-34 | a word's clause: its conditions joined by `OR` (a definition) |
| Query.Where | src/app/api/advocates/route.ts:10-13 | no `WHERE` for a blank query, else the clauses joined by `and(...)` (a definition) |
| Query.ColumnText | src/app/api/advocates/route.ts:20-25 | the column a condition reads, NULL when the field is missing (a definition; `Agreement.ScalarCondition` ties it to the page's projection) |
| Query.Or3 | src/app/api/advocates/route.ts:20-26 | SQL `OR`: TRUE exactly when one side is TRUE, FALSE exactly when both are FALSE, otherwise unknown |
| Query.And3 | src/app/api/advocates/route.ts:27 | SQL `AND`: TRUE exactly when both sides are TRUE, FALSE exactly when one is FALSE, otherwise unknown |
| Query.LikeMatch | src/app/api/advocates/route.ts:20-30 | PostgreSQL `LIKE` with `%`, `_` and the escape `\` (a definition; the `Like…` lemmas below characterise it) |
| Query.Pattern | src/app/api/advocates/route.ts:20 | the pattern built by concatenation is the term between two `%` characters |
| Query.LikeAnything | src/app/api/advocates/route.ts:20 | the pattern `%` matches every string |
| Query.LikeLiteralPrefix | src/app/api/advocates/route.ts:20 | for a term without special characters, `t%` matches exactly the strings that start with `t` |
| Query.LikeLeadingPercent | src/app/api/advocates/route.ts:20 | `%q` matches a string exactly when `q` matches one of its suffixes |
| Query.LikeContains | src/app/api/advocates/route.ts:20-30 | for a term without `%`, `_` or `\`, `LIKE '%' \|\| t \|\| '%'` holds exactly when `t` occurs in the string |
| Query.LikeAcceptsOccurrence | src/app/api/advocates/route.ts:20-30 | for a term without `\`, every string containing the term matches its pattern |
| Query.EvalCondition | src/app/api/advocates/route.ts:20-31 | a column `LIKE` is unknown exactly when the column is NULL; the specialties test is never unknown |
| Query.NullNeverMatches | src/app/api/advocates/route.ts:20-25 | a NULL column's `LIKE` is unknown, whatever the pattern |
| Query.EvalAny | src/app/api/advocates/route.ts:19-33 | a clause's `OR` over its conditions (a definition; `AnyIsTrueIff` and `AnyIsFalseIff` characterise it) |
| Query.EvalAll | src/app/api/advocates/route.ts:37 | `and(...)` over the clauses (a definition; `AllIsTrueIff` characterises it) |
| Query.EvalWhere | src/app/api/advocates/route.ts:10-13 | no `WHERE` is TRUE of every row, otherwise the `and(...)` of the clauses (a definition) |
| Query.Selected | src/app/api/advocates/route.ts:39-42 | the database returns a row only when its `WHERE` is TRUE, not FALSE or unknown (a definition; `SelectedIff` characterises it) |
| Query.AnyIsTrueIff | src/app/api/advocates/route.ts:19-33 | an `OR` is TRUE exactly when one of its conditions is TRUE |
| Query.AnyIsFalseIff | src/app/api/advocates/route.ts:19-33 | an `OR` is FALSE exactly when every condition is FALSE |
| Query.AllIsTrueIff | src/app/api/advocates/route.ts:37 | `and(...)` is TRUE exactly when every clause is TRUE |
| Query.TermClause | src/app/api/advocates/route.ts:18-34 | a word's clause has seven conditions, all with the pattern `'%' \|\| word \|\| '%'` |
| Query.QueryText | src/app/api/advocates/route.ts:8 | the normalised `q` is lower-case, and empty exactly when `q` is missing or blank |
| Query.QueryTerms | src/app/api/advocates/route.ts:15 | the query has at least one word and no word holds whitespace |
| Query.Compile | src/app/api/advocates/route.ts:8-37 | a missing or blank `q` gives no `WHERE`; otherwise one clause per word, in order |
| Query.QueryRows | src/app/api/advocates/route.ts:39-42 | the returned rows are a subsequence of the table, and a row is returned exactly when the `WHERE` is TRUE on it |
| Query.QueryTermsAreWords | src/app/api/advocates/route.ts:8-15 | the words of a non-blank query are non-empty and free of whitespace |
| Query.CompileOfWord | src/app/api/advocates/route.ts:8-37 | a one-word lower-case query has that word as its only word and compiles to that word's clause alone |
| Query.BlankQueryReturnsAll | src/app/api/advocates/route.ts:10-13 | a missing or blank `q` returns every row |
| Query.SelectedIff | src/app/api/advocates/route.ts:18-37 | a row is returned exactly when, for every word, one of its seven conditions is TRUE |
| Query.SelectedIffEveryClause | src/app/api/advocates/route.ts:37 | a row is returned exactly when every word's clause is TRUE |
| Query.UnderscoreIsAWildcard | src/app/api/advocates/route.ts:20 | the word `a_c` matches "abc" in `LIKE` though it does not occur in it |
| Query.BackslashEscapes | src/app/api/advocates/route.ts:20 | the word `a\b` matches "ab" in `LIKE` though it does not occur in it |
| Agreement.SameTerms | src/app/api/advocates/route.ts:8-15 | the route's words are the page's terms |
| Agreement.ScalarCondition | src/app/api/advocates/route.ts:20-25 | for any record (with years present when the column is the years), a column test is unknown when the column is NULL (its projected string is then `""`), else TRUE exactly when the projected string is `LIKE` the pattern |
| Agreement.SpecialtiesCondition | src/app/api/advocates/route.ts:26-31 | the specialties test is TRUE exactly when one projected specialty is `LIKE` the pattern |
| Agreement.ClauseSound | src/app/api/advocates/route.ts:18-34 | for a literal word, a TRUE clause means the word occurs in a projected string |
| Agreement.ClauseAccepts | src/app/api/advocates/route.ts:18-34 | for a word without `\`, an occurrence in a projected string makes the clause TRUE |
| Agreement.ClauseAgrees | src/app/api/advocates/route.ts:18-34 | for a literal word, the clause is TRUE exactly when the page finds the word in the record |
| Agreement.RecordSound | src/app/api/advocates/route.ts:18-37 | with literal words, a record the route returns is one the page keeps |
| Agreement.RecordAccepted | src/app/api/advocates/route.ts:18-37 | with words free of `\`, a record the page keeps is one the route returns |
| Agreement.RecordAgrees | src/app/api/advocates/route.ts:18-37 | with years present and literal words, the route returns a record exactly when the page keeps it |
| Agreement.RouteAgreesWithPage | src/app/api/advocates/route.ts:8-42 | under the same conditions the route's rows are the page's result, in the same order |
| Agreement.PageResultsAreReturned | src/app/api/advocates/route.ts:18-42 | with words free of `\`, the page's result is contained in the route's |
| Agreement.MissingYearsDiverge | src/app/api/advocates/route.ts:24 | a record with no years is kept by the page for the query `0` and not returned by the route |
| Agreement.UnderscoreDiverges | src/app/api/advocates/route.ts:20 | the query `a_c` makes the route return a record named "abc" that the page does not keep |

## Left out

- Everything in the page besides the filter and the highlight tokens, because it is user-interface plumbing:
  - React state and effects;
  - the initial fetch and the status messages with their timers;
  - the debounce;
  - writing the query into the DOM through `innerHTML`;
  - the reset button;
  - infinite scrolling with `PAGE_SIZE`.
- The card's rendering (`src/app/AdvocateCard.tsx` after line 53) and the `<mark>` styling. The model keeps only the marked/plain flag and the text of each piece. The React `key` is not modelled.
- `src/app/AdvocateFilter.tsx`, the database connection in `src/db/index.ts` and the seed route are not part of this model. The record type is taken from `src/db/index.ts:24-32`. That type declares every field present; the model makes every field optional so that the missing and NULL cases can be stated, which the page's fallbacks to `''`, `0` and `[]` and SQL's NULL handling deal with.
- Numeric `yearsOfExperience` or `phoneNumber` values. The record type declares both as strings, and the model holds them as strings. A number would behave differently on the two sides: `0` is falsy on the page (`0 || ''` gives `""` for a phone number) but casts to `"0"` in SQL. The model cannot represent that case.
- The HTTP layer: parsing the request URL, and `Response.json`. The `q` parameter enters the model as an optional string.
- Drizzle's SQL generation and PostgreSQL's execution. The model assumes the word is bound as a text parameter.
- Row order. A `SELECT` without `ORDER BY` has no specified order; the model returns rows in table order. The "same order" of `RouteAgreesWithPage` rests on this.
- Case folding outside ASCII. JavaScript's `toLowerCase` and SQL's `LOWER` follow Unicode and the locale, while the model lower-cases `A`..`Z` only. JavaScript strings are UTF-16 code units, while the model's strings are sequences of characters.
- A `specialties` value that is not a JSON array of strings, or an array with `null` elements. The record type rules both out.
- A pattern that ends in a lone `\`. PostgreSQL rejects it with an error; the model's `LIKE` matches nothing there. The route's patterns always end in `%`, so they never end that way.
- The `!tokens` test in `highlightText`. A Dafny sequence cannot be undefined, so only `tokens.length === 0` is modelled.
- The bare string that `highlightText` returns when there are no tokens. The model returns the single plain piece `[Plain(text)]` instead, which holds the same text.
