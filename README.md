# Catalog filter and format facets of export-my-data

The site lists "services" (records with a name, notes, data formats and a
deletion-required flag) and lets the visitor narrow the list by free-text
search, by one data format and by the deletion-required checkbox. All of its
logic sits in the Vue app object of `assets/js/main.js`. This project models it:

- `Text.dfy`: the string primitives the app uses. These are `toLowerCase` and
  `toUpperCase` (ASCII letters only), `includes` (`Contains`), and the string
  comparison of the default `sort()` (`Less`, with `Sort` as its result).
- `Catalog.dfy`: the service record, the three filter inputs, and the filter
  callback of `applyFilters`. The callback is split into its search, format and
  deletion tests. `Filter` is the stable `Array.prototype.filter` over those tests.
  A JavaScript TypeError is a `Result` value. The callback throws one for a record
  without a `name`. It also throws one for a record whose `formats` is truthy but
  not an array, when a format is selected.
- `Facets.dfy`: `populateAvailableFormats` as a specification. `Flatten` lists the
  upper-cased tokens in visiting order. `Dedup` is the `Set` in insertion order.
  `DistinctFormats` is the sorted array.
- `App.dfy`: the app object as a class `ServiceApp` with the fields of `data()`.
  Its methods are `PopulateAvailableFormats` (the nested loops that fill the set),
  `ApplyFilters` and `FetchServices`. The network fetch becomes a `LoadOutcome`
  parameter: the parsed records, or a failure. The class invariant `Valid` has two
  parts. The facet list is always `DistinctFormats` of all records. The visible
  list is always an order-preserving subsequence of all records.
- `Examples.dfy`: two small catalogs run through the filter and the facet builder.

Behaviour of the code worth knowing:

- The search term is lower-cased but not trimmed.
- A record without a `name` makes the filter throw. It is not treated as an empty name.
- A failed load clears only the visible list. `allServices` and `availableFormats` keep their previous values.
- On the success path, a TypeError from the filter is caught by the same `catch`
  as a network error. The visible list then becomes empty, but `allServices` and
  `availableFormats` already hold the new data.

## Model

| member | source | states |
|---|---|---|
| `Text.Lower` | assets/js/main.js:84-85 | `toLowerCase` keeps the length and lower-cases ASCII letters only |
| `Text.Upper` | assets/js/main.js:77 | `toUpperCase` keeps the length and upper-cases ASCII letters only |
| `Text.SameCaseFold` | assets/js/main.js:89 | comparing two strings lower-cased gives the same answer as comparing them upper-cased, so the filter's lower-case match and the facet's upper-case tokens agree |
| `Text.UpperIdempotent` | assets/js/main.js:77 | upper-casing a token that is already upper-cased changes nothing |
| `Text.LowerSlice` | assets/js/main.js:85 | lower-casing commutes with taking a substring |
| `Text.Contains` | assets/js/main.js:85-86 | `includes` never finds a term longer than the text |
| `Text.ContainsHasOccurrence` | assets/js/main.js:85-86 | when `includes` returns true, the term occurs at some index of the text |
| `Text.OccurrenceContained` | assets/js/main.js:85-86 | when the term occurs at any index, `includes` returns true |
| `Text.ContainsIffOccurs` | assets/js/main.js:85-86 | `includes` holds exactly when the term occurs at some index (both directions) |
| `Text.ContainsEmpty` | assets/js/main.js:85 | every string includes the empty string |
| `Text.ContainsTransitive` | assets/js/main.js:85-86 | a substring of a substring is a substring, which makes a longer search term narrower |
| `Text.ContainsLower` | assets/js/main.js:85-86 | an occurrence survives lower-casing both sides |
| `Text.Less` | assets/js/main.js:80 | the default `sort()` comparison: nothing sorts before the empty string, and a proper prefix sorts before every extension of it |
| `Text.LessIrreflexive` | assets/js/main.js:80 | no string sorts before itself |
| `Text.LessTransitive` | assets/js/main.js:80 | the sort order is transitive |
| `Text.LessTotal` | assets/js/main.js:80 | any two different strings are ordered one way or the other |
| `Text.LessAsymmetric` | assets/js/main.js:80 | two strings never sort before each other |
| `Text.Sort` | assets/js/main.js:80 | `sort()` keeps the length of the array |
| `Text.InsertPermutes` | assets/js/main.js:80 | inserting into a sorted list adds exactly that one element |
| `Text.SortPermutes` | assets/js/main.js:80 | `sort()` keeps every element as often as it occurs (a permutation) |
| `Text.InsertAscending` | assets/js/main.js:80 | inserting a new element into a strictly ascending list keeps it strictly ascending |
| `Text.SortAscending` | assets/js/main.js:80 | sorting a duplicate-free list gives a strictly ascending list |
| `Text.AscendingUnique` | assets/js/main.js:80 | two strictly ascending lists with the same elements are equal |
| `Catalog.SearchTest` | assets/js/main.js:84-86 | throws exactly when the record has no name; matches exactly when the lower-cased term occurs at some index of the lower-cased name, or of the lower-cased notes when they are truthy |
| `Catalog.SomeToken` | assets/js/main.js:89 | `formats.some(...)` is true exactly when some token, lower-cased, equals the lower-cased selection |
| `Catalog.SomeTokenIff` | assets/js/main.js:89 | `formats.some(...)` holds exactly when some token equals the selection ignoring case |
| `Catalog.FormatTest` | assets/js/main.js:88-89 | throws exactly for a truthy non-array `formats` with a selection; matches exactly when nothing is selected, or `formats` is an array holding a token equal to the selection ignoring case |
| `Catalog.DeletionTest` | assets/js/main.js:91 | with the checkbox off every record passes; with it on a record passes exactly when it requires deletion |
| `Catalog.Matches` | assets/js/main.js:83-94 | throws exactly for a missing name, or a truthy non-array `formats` with a selection; with the flag on a record is kept exactly when it requires deletion and passes search and format; with the flag off only search and format decide |
| `Catalog.Filter` | assets/js/main.js:83-94 | succeeds exactly when the callback returns on every record; the result is an order-preserving subsequence of the input |
| `Catalog.FilterKeeps` | assets/js/main.js:83-94 | each record passing the callback is kept as often as it occurs in the input; every other record is dropped |
| `Catalog.FilterMembership` | assets/js/main.js:83-94 | a record is in the result exactly when it is in the input and passes the search, format and deletion tests |
| `Catalog.FilterAllPass` | assets/js/main.js:83-94 | when every record passes, the result is the input in order |
| `Catalog.InitialCriteriaPass` | assets/js/main.js:84-91 | with search `''`, format `''` and the flag off, every named record passes |
| `Catalog.FilterInitialIsIdentity` | assets/js/main.js:83-94 | with the initial criteria the filter returns all records in order; if any record lacks a name it throws |
| `Catalog.FilterIdempotent` | assets/js/main.js:82-97 | filtering the filtered list again with the same criteria gives the same list |
| `Catalog.FilterDeletionFlag` | assets/js/main.js:91 | with the deletion flag on, every kept record has `deletionRequired` |
| `Catalog.FilterDeletionFlagOn` | assets/js/main.js:83-94 | with the flag on the filter throws exactly when it throws with the flag off, and keeps exactly the records the flag-off filter keeps that require deletion |
| `Catalog.DeletionFlagOffIgnoresProperty` | assets/js/main.js:91 | with the flag off, flipping a record's `deletionRequired` does not change the verdict |
| `Catalog.FormatIgnoresCase` | assets/js/main.js:89 | selections equal ignoring case select the same records |
| `Catalog.MissingFormatsNeverMatch` | assets/js/main.js:88-89 | a record without `formats` never passes a non-empty selection |
| `Catalog.MatchesMonotone` | assets/js/main.js:83-94 | narrower criteria never keep a record that wider ones drop, and never avoid a throw that wider ones raise |
| `Catalog.FilterMonotone` | assets/js/main.js:83-94 | with narrower criteria the result is a subsequence of the result with wider ones |
| `Facets.Flatten` | assets/js/main.js:75-78 | every token the two `forEach` loops visit is already in upper case |
| `Facets.Dedup` | assets/js/main.js:74-77 | the `Set` holds exactly the values added to it |
| `Facets.DistinctFormats` | assets/js/main.js:73-80 | the value `populateAvailableFormats` stores: every facet option is in upper case |
| `Facets.FlattenStep` | assets/js/main.js:75-78 | visiting one more record appends its upper-cased array tokens |
| `Facets.UpperAllStep` | assets/js/main.js:77 | visiting one more token appends its upper-cased form |
| `Facets.DedupStep` | assets/js/main.js:77 | `Set.add` appends a value unless it is already present |
| `Facets.FlattenElements` | assets/js/main.js:75-78 | the visited tokens are exactly the upper-cased tokens of records whose `formats` is an array |
| `Facets.DedupSpec` | assets/js/main.js:74-77 | the set holds no duplicates and holds exactly the values added |
| `Facets.DistinctFormatsSpec` | assets/js/main.js:73-80 | the facet list is strictly ascending, hence duplicate-free, and holds exactly the upper-cased tokens of array-valued `formats` |
| `Facets.DistinctFormatsCanonical` | assets/js/main.js:80 | any strictly ascending list of exactly those tokens is the facet list, whatever order records were visited in |
| `Facets.FacetSelects` | assets/js/main.js:88-89 | a non-empty selection matches the format of some record exactly when its upper-case form is a facet option |
| `Facets.FacetOptionsSelectable` | assets/js/main.js:77 | every facet option, when selected, matches the format of at least one record |
| `App.ServiceApp.constructor` | assets/js/main.js:42-49 | the initial state: no records, nothing visible, no facets, empty search and format, flag off, loading on; the invariant holds |
| `App.ServiceApp.PopulateAvailableFormats` | assets/js/main.js:73-81 | the nested loops leave `availableFormats` equal to `DistinctFormats(services)`: strictly ascending, exactly the upper-cased array tokens; nothing else changes |
| `App.ServiceApp.ApplyFilters` | assets/js/main.js:82-97 | when the filter returns, `filteredServices` becomes `Filter(allServices, criteria)`: the records passing all three tests, in order; when it throws, nothing changes; only `filteredServices` is written, and the invariant is kept |
| `App.ServiceApp.FetchServices` | assets/js/main.js:54-72 | `loading` ends false; on failure `filteredServices` is `[]` and records and facets are kept; on success the records are replaced, the facets rebuilt, and the visible list is the filter result, or `[]` when the filter throws; criteria unchanged; the invariant is kept |
| `Examples.FilterAlphaBeta` | assets/js/main.js:83-96 | filtering a two-record catalog keeps each record whose callback returned true, in order |
| `Examples.SearchAlpha` | assets/js/main.js:84-86 | searching "alpha" finds "Alpha" by its lower-cased name and drops "Beta" |
| `Examples.DeletionOnly` | assets/js/main.js:91 | the deletion checkbox keeps only the record that requires deletion |
| `Examples.FormatJson` | assets/js/main.js:88-89 | selecting "json" keeps the record whose token is "JSON" |
| `Examples.FacetsOfMixedCase` | assets/js/main.js:73-80 | tokens "CSV", "JSON" and "csv" give the options "CSV" and "JSON", in that order |

## Left out

- The network fetch of `data/services.json`, the `response.ok` test, `response.json()` and `console.error`. A load is a `LoadOutcome` parameter to `FetchServices`: either the parsed array of records or a failure. A failure covers an HTTP error, a network error and a parse error alike.
- The `await` suspension, Vue reactivity, the `mounted` hook and `app.mount`. `FetchServices` runs as one step. The intermediate state with `loading` true is set and then overwritten in the same call.
- The `ServiceCard` template: display-only upper-casing, the "N/A", "Yes"/"No" and fallback texts, and the export link.
- `currentYear`. It reads the clock and is only displayed.
- How the search box, format selector and checkbox write `searchTerm`, `selectedFormat` and `deletionRequired`. Those bindings live in the page markup, which is not part of this model. Every method is proved for any values of these fields.
- Text.Lower: maps ASCII letters only; `toLowerCase` follows the full Unicode case tables.
- Text.Upper: maps ASCII letters only; `toUpperCase` follows the full Unicode case tables and can change a string's length.
- Text.Less: compares Unicode scalar values. JavaScript compares UTF-16 code units, which orders characters beyond U+FFFF differently from those in U+E000 to U+FFFF.
- Text.Sort: gives the result of the engine's sort, not its algorithm. The input never holds duplicates, so every correct sort gives this result.
- Input shapes outside the record model. These are a payload that is not an array, an array element that is not an object, a non-string token in `formats`, and a `notes` that is truthy but not a string. The first three throw a TypeError in the source. A record whose `notes` is truthy but not a string throws only when its name does not contain the term, because `||` at lines 85-86 skips the notes test otherwise. A missing or non-string `name` is modelled: it is `None`. Records have string tokens, and `notes` is either a string or absent.
- Text.SameCaseFold: holds for the ASCII case mapping only. With the full Unicode tables, lower-case and upper-case comparison differ: "ß" upper-cases to "SS" but lower-cases to itself, so "ß" and "ss" agree upper-cased and differ lower-cased.
- Facets.FacetSelects: holds for the ASCII case mapping only. A token "ß" yields the facet option "SS" at line 77, and selecting "SS" compares `"ß" === "ss"` at line 89, which is false. Tokens "ı" (option "I") and "ς" (option "Σ") fail the same way.
- Facets.FacetOptionsSelectable: holds for the ASCII case mapping only. With the full Unicode tables the option "SS" built from a token "ß" selects no record, as under `Facets.FacetSelects`.
