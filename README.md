# Game catalog store

This project models the in-memory game catalog store of the casual-games site in `js/games.js`. The store has two pieces of module state:

- `gamesData`, the catalog, which is a sequence of game records.
- `currentCategory`, the selected category, which starts as `"all"`.

It also provides these operations:

- `loadGamesData` replaces the catalog.
- `getAllGames` returns a copy of the catalog.
- `getGamesByCategory`, `getGamesByTag` and `searchGames` are order-preserving filters.
- `getGameById` is a first-match lookup.
- `getRelatedGames` filters and then truncates.
- `getFeaturedGames` runs a Fisher-Yates shuffle on a copy and then truncates.
- The `currentCategory` setter and getter.

The project has four modules:

- **`Strings`** (`strings.dfy`) holds the JavaScript string operations the search uses:
  - `Lower` models `toLowerCase`, but only maps the letters A-Z.
  - `Trim` models `trim` over the full ECMAScript white-space and line-terminator set.
  - `Contains` models `includes`.
- **`Catalog`** (`catalog.dfy`) holds the `Game` record, the queries as functions over `seq<Game>`, and their specifications.
  - Every `filter` in the source is `Select(games, c)` for a `Criterion` `c`.
  - The reference meaning of "the order-preserving subsequence of records satisfying `c`" is `SelectionOf(r, games, c)`. It asks for a strictly increasing index witness that picks exactly the positions whose records satisfy `c`.
  - `SelectExactly` proves that `Select` is that subsequence and that no other sequence is.
- **`FisherYates`** (`fisher_yates.dfy`) holds the in-place array shuffle.
  - The method is proved against a specification function `Shuffled(s, picks)`.
  - Here `picks` records the random index chosen at each step.
  - The permutation and "settled suffix" properties are proved about that function.
- **`GameStore`** (`store.dfy`) holds the `Store` class with the fields `gamesData` and `currentCategory`, and the methods that read or replace them.

The queries in the source read the module-level `gamesData`. Here they take it as their first argument, so `getGamesByCategory(c)` is `GamesByCategory(store.gamesData, c)`.

Default arguments:

- When no `limit` is passed, `getRelatedGames` uses `Catalog.DefaultRelatedLimit` (4). `Catalog.RelatedGamesDefault` is that call.
- When no `limit` is passed, `getFeaturedGames` uses `GameStore.DefaultFeaturedLimit` (8). `GameStore.Store.GetFeaturedDefault` is that call.
- A missing, `null` or `undefined` search term is `None`. The empty string is one of the blank terms.

Record ids are compared with `===`, which the `Id` datatype models as follows:

- A number id and a string id never match.
- Two ids of the same kind match when they are equal.

## Model

| member | source | states |
|---|---|---|
| GameStore.Store.constructor | js/games.js:7-8 | the store starts with an empty catalog and category `"all"` |
| GameStore.Store.Load | js/games.js:11-23 | on a successful response the catalog is replaced by the response and the response is returned; on failure `[]` is returned and the catalog is unchanged |
| GameStore.Store.GetAll | js/games.js:26-28 | returns a fresh array whose slots equal the catalog in order, so writes to the returned array's slots cannot reach the store |
| Catalog.Select | js/games.js:35 | `filter` with the callback `Keeps(c, g)` (category, tag, search or related-game test): never longer than the catalog; membership and order are `SelectMembers` and `SelectExactly` |
| Catalog.GamesByCategory | js/games.js:31-36 | `"all"` gives the whole catalog; any other category gives exactly the records with that category (both directions of membership) |
| Catalog.CategoryInOrder | js/games.js:35 | for a category other than `"all"`, a sequence is the result if and only if it is the order-preserving subsequence of records of that category |
| Catalog.AbsentCategory | js/games.js:35 | a category that no record has yields the empty sequence |
| Catalog.SelectNone | js/games.js:35 | a filter that no record passes selects nothing |
| Catalog.SelectMembers | js/games.js:35 | a filter keeps a record if and only if it is in the catalog and passes the predicate |
| Catalog.SelectExactly | js/games.js:35 | `Select(s, c)` equals `r` if and only if `r` is the order-preserving subsequence of the records of `s` that satisfy `c` |
| Catalog.SelectPositions | js/games.js:35 | the positions of the kept records witness that `Select` is such a subsequence |
| Catalog.SelectionUnique | js/games.js:35 | any order-preserving subsequence picking exactly the satisfying positions equals `Select` |
| Catalog.GameById | js/games.js:39-41 | absent exactly when no record has the id; otherwise a catalog record with that id |
| Catalog.GameByIdFirst | js/games.js:40 | the record found is the first with that id |
| Catalog.GameByIdUnique | js/games.js:40 | in a catalog with distinct ids, looking up any record's id finds that record |
| Strings.Trim | js/games.js:45 | `trim`: never longer than its input, and its result neither starts nor ends with white space |
| Strings.TrimSpec | js/games.js:45 | `trim` gives empty exactly for an all-white-space string; otherwise a slice of the input with only white space around it that neither starts nor ends with white space |
| Strings.TrimBounds | js/games.js:45 | for a string that is not all white space, the kept slice is non-empty and lies between the leading and trailing white space |
| Strings.SkipSpaces | js/games.js:45 | the index skips exactly the white space from the start index on and stops at the first other character |
| Strings.SkipSpacesBack | js/games.js:45 | the index skips exactly the white space before the end index and stops after the last other character |
| Catalog.SearchGames | js/games.js:44-47 | a missing or blank term gives the whole catalog; every result is a catalog record |
| Catalog.SearchSpec | js/games.js:49-72 | for a non-blank term the result holds exactly the records one of whose lower-cased title, description, tags or category contains the lower-cased trimmed term, in catalog order |
| Catalog.MatchesIffMentions | js/games.js:50-72 | the four-branch filter holds if and only if the term occurs in the lower-cased form of some searchable field |
| Catalog.SomeContainsIff | js/games.js:62 | `tags.some(...)` holds if and only if some tag's lower-cased form contains the term |
| Strings.Contains | js/games.js:52 | `includes`: the empty needle is always found, and a needle longer than the text never is |
| Catalog.Matches | js/games.js:50-72 | the search callback; every record matches the empty term |
| Catalog.SomeContains | js/games.js:62 | `tags.some(tag => tag.toLowerCase().includes(q))`: false on no tags, and for the empty term true exactly when there is a tag |
| Strings.ContainsIff | js/games.js:52 | `includes` holds if and only if the needle occurs at some index |
| Catalog.SearchNormalised | js/games.js:49 | two terms with the same lower-cased trimmed form give the same result |
| Strings.LowerChar | js/games.js:49 | lower-cases one character: each of A-Z goes to its own lower-case letter (code point + 32), every other character is kept, and no upper-case ASCII letter comes out |
| Strings.Lower | js/games.js:49 | `toLowerCase`: same length, no upper-case ASCII letter left, and every character outside A-Z kept at its position; each capital A-Z becomes its own lower-case letter |
| Strings.LowerIdempotent | js/games.js:49 | lower-casing an already lower-cased string changes nothing |
| Strings.LowerIgnoresCase | js/games.js:49-67 | replacing capitals by their lower-case letters does not change the lower-cased string, so the search cannot tell them apart |
| Catalog.SearchKey | js/games.js:49 | the normalised term `term.toLowerCase().trim()`: empty exactly when the term is all white space, and never longer than the term |
| Strings.LowerTrimCommute | js/games.js:49 | trimming after lower-casing equals lower-casing after trimming |
| Strings.LowerKeepsSpaces | js/games.js:49 | lower-casing keeps the length and every character's white-space status |
| Catalog.Slice | js/games.js:85 | `slice(0, end)` is a prefix of length `min(end, n)` for `end >= 0` and `max(n + end, 0)` for negative `end` |
| Catalog.RelatedGames | js/games.js:76-86 | an unknown id gives `[]`; every result is a catalog record with another id; a non-negative limit bounds the length |
| Catalog.RelatedGamesDefault | js/games.js:76 | `getRelatedGames(gameId)` without a limit is the call with `DefaultRelatedLimit` (4), so it returns at most 4 records |
| Catalog.RelatedSpec | js/games.js:82-85 | for a known id and any limit the game itself is never returned and all results share its category; for a non-negative limit the result is the first `min(limit, k)` of the `k` same-category records with another id, in catalog order |
| Catalog.SlicedSelection | js/games.js:83-85 | a non-negative slice of a filter result extends to the whole order-preserving subsequence, and is shorter than `limit` only when it is all of it |
| Catalog.GamesByTag | js/games.js:89-91 | exactly the records whose tags list the tag itself (no case folding or substring) |
| Catalog.TagInOrder | js/games.js:90 | a sequence is the result if and only if it is the order-preserving subsequence of records listing the tag |
| FisherYates.Shuffle | js/games.js:99-102 | the array afterwards is `Shuffled(original, picks)` for picks each within its step's range `0 <= j <= i` |
| FisherYates.Swap | js/games.js:101 | the destructuring swap: same length, the two positions exchange their elements |
| FisherYates.SwapElsewhere | js/games.js:101 | the swap leaves every other position as it was |
| FisherYates.ShuffleFrom | js/games.js:99-102 | the loop steps from index `top` down with the given picks; keeps the length |
| FisherYates.Shuffled | js/games.js:99-102 | the whole loop for an array of length `n` (steps `n-1` down to `1`); keeps the length |
| FisherYates.ShuffleFromSplit | js/games.js:99-102 | running the first steps and then the rest equals running all steps |
| FisherYates.ShuffleFromPermutes | js/games.js:99-102 | every run of the steps preserves the multiset of elements |
| FisherYates.ShuffledPermutes | js/games.js:96-102 | the shuffled copy is a permutation of the catalog |
| FisherYates.ShuffleFromKeepsAbove | js/games.js:99-102 | the steps from index `top` down never change a position above `top` |
| FisherYates.ShuffleSettles | js/games.js:99-102 | once the step for position `i` has run, `shuffled[i..]` is final: the remaining steps leave it unchanged |
| FisherYates.SwapPermutes | js/games.js:101 | the destructuring swap preserves the multiset of elements |
| FisherYates.PicksTail | js/games.js:99-100 | after the step for `i`, the remaining choices belong to the steps from `i - 1` down |
| GameStore.Store.GetFeatured | js/games.js:94-105 | returns the first `limit` records of the shuffle of a copy, for picks valid for every step: `min(limit, n)` records for a non-negative limit, each from the catalog and none more often than there; the catalog is not modified |
| GameStore.Store.GetFeaturedDefault | js/games.js:94-105 | `getFeaturedGames()` without a limit is the call with `DefaultFeaturedLimit` (8): `min(8, n)` records of a shuffle of the catalog |
| GameStore.FeaturedSelection | js/games.js:104 | the result has `min(limit, n)` records for a non-negative limit, and each is a catalog record, none more often than in the catalog |
| GameStore.Store.SetCurrentCategory | js/games.js:117-119 | the category becomes the argument and nothing else in the store changes |
| GameStore.Store.GetCurrentCategory | js/games.js:120-122 | returns the category most recently set |

## Left out

- Network and JSON I/O of `loadGamesData`: the fetched and parsed catalog is the `response` parameter of `Store.Load`. A failed fetch, a non-OK status and a parse error are all `None`. The console logging is not modelled.
- `Math.random` and `Math.floor`: each step's index is an arbitrary `j` with `0 <= j <= i`. The uniform distribution of the shuffle is not modelled.
- Strings.Lower: maps only the ASCII letters A-Z. The Unicode case mappings of `toLowerCase`, including those that change a string's length, are not modelled.
- JavaScript numbers: numeric ids are integers and `rating` is a real that no operation reads. NaN, fractional ids and floating-point comparison are not modelled.
- Arguments of the wrong JavaScript type are not modelled:
  - a non-string search term
  - a non-integer, `NaN` or `Infinity` `limit`
  - records with missing fields
- The queries read the catalog through a parameter rather than the shared module variable. The `window.GameData` export object is not modelled.
- `js/main.js` and `js/play.js` (rendering, URL handling, timers) are not part of this model.
- Sorting, popular games and a sort option are not part of `js/games.js`, so they are not modelled.
- Load on failure: the code leaves `gamesData` as it was and returns `[]`; `Store.Load` does the same.
- Reference semantics of JavaScript objects: records and sequences are values here. `[...gamesData]` is a shallow copy, so a write to a field of a returned record would reach the store; `loadGamesData` returns the store's own array; and `find`, `filter` and `slice` results share record objects with the store. The model captures none of this aliasing. `Store.Load` returns a detached sequence, and `GetAll` promises only that the returned array's slots are its own.
