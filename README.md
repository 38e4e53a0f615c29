# Problem list with solved markers — Dafny model

The application is a single React component (`src/App.jsx`). It shows a
catalog of programming problems grouped by phase and subcategory and marks
the problems that one user of a remote judge has solved. This project models
the component's logic:

- **Slug extraction** (`extractSlug`). The component splits a problem URL on
  `'/'`, pops the last piece and, if that piece is empty, pops once more.
  `Slugs.Split` is JavaScript's `split` for a one-character separator. It is
  characterised by its two round trips with `Slugs.Join`. `Slugs.ExtractSlug`
  is the two-`pop` procedure. `Slugs.Slug` says what that procedure computes
  without using `Split`: the text after the last `'/'`, or, when that is
  empty, the last segment of the URL with its final `'/'` removed. The empty
  URL gives `undefined`, which is `None` here.
- **Selection state** (`selectedPhase`, `selectedSubCategory`). It is kept in
  the class `ProblemView.App` and changed by the two dropdown handlers. The
  predicates `ShowsSubCategorySelector` and `ShowsProblemList` are the
  conditions that decide whether the second dropdown and the problem list
  are rendered.
- **Solved set** (`solvedSlugs`). It starts empty and changes only when the
  solved-problems request settles. A response carrying `errors`, or an
  exception, leaves it unchanged. A list of submissions replaces it with the
  set of their title slugs. A problem is shown as solved exactly when its
  slug is in the set.

The network requests are not modelled. Only their results are, as the
datatypes `CatalogResponse` and `SolvedResponse`.

`App.Valid()` says that the chosen phase and subcategory are always entries
of the loaded catalog. It holds because the dropdowns only offer such
entries. Every state change preserves it, so looking up the problem list
(`data[selectedPhase][selectedSubCategory]`) never fails.

Two corner cases of `extractSlug`:

- The fallback pop runs only once, so a URL ending in two or more `'/'`
  gives the empty slug.
- The empty URL gives `undefined`. `Slug` returns `None` for it, and a
  problem with an empty URL is never marked solved.

Files: `slugs.dfy` (module `Slugs`) and `view.dfy` (module `ProblemView`).

## Model

| member | source | states |
|---|---|---|
| `Slugs.Split` | src/App.jsx:56 | `url.split('/')` always returns at least one piece, and no piece contains the separator |
| `Slugs.JoinSplit` | src/App.jsx:56 | joining the pieces of a split with the separator gives back the original string |
| `Slugs.SplitJoin` | src/App.jsx:56 | splitting a join of separator-free pieces gives back those pieces, so the split is the only such decomposition |
| `Slugs.LastSegment` | src/App.jsx:57 | the last segment is a separator-free suffix of the string that is either the whole string or preceded by a separator, i.e. the text after the last separator |
| `Slugs.Slug` | src/App.jsx:55-59 | the slug is undefined exactly for the empty URL and never contains `'/'` |
| `Slugs.ExtractSlug` | src/App.jsx:55-59 | splitting on `'/'` and applying `pop() \|\| pop()` yields exactly `Slug(url)` |
| `Slugs.SlugIsSplitPiece` | src/App.jsx:56-57 | for a non-empty URL the slug is one of the pieces of `url.split('/')` |
| `Slugs.SlugWithoutTrailingSlash` | src/App.jsx:56-57 | a URL not ending in `'/'` yields its last segment, the text after its last `'/'` (the whole URL if it has none), and that text is not empty |
| `Slugs.SlugIgnoresOneTrailingSlash` | src/App.jsx:57 | appending one `'/'` to a non-empty URL that does not end in `'/'` does not change its slug |
| `Slugs.SlugAfterTwoTrailingSlashes` | src/App.jsx:57 | a URL ending in two `'/'` yields the empty slug, because the fallback pop runs only once |
| `Slugs.SlugOfLastPathSegment` | src/App.jsx:55-59 | `prefix/name` and `prefix/name/` both yield `name` for any prefix and any non-empty, slash-free name |
| `Slugs.TwoSumSlug` | src/App.jsx:57 | `.../problems/two-sum` and `.../problems/two-sum/` both yield `two-sum` |
| `ProblemView.SlugSet` | src/App.jsx:44-45 | the set built from the submissions holds exactly their title slugs, with duplicates collapsed, so it is no larger than the list |
| `ProblemView.NextSolved` | src/App.jsx:40-48 | errors and exceptions leave the solved set unchanged; a list of submissions replaces it with exactly the set of their title slugs, whatever it held before |
| `ProblemView.SolvedAfterRefresh` | src/App.jsx:45-47 | after a successful refresh a problem is solved iff its URL is non-empty and its slug is some returned submission's title slug |
| `ProblemView.SolvedIgnoresTrailingSlash` | src/App.jsx:100-101 | a problem URL with one trailing `'/'` and the same URL without it are solved or unsolved together |
| `ProblemView.App.constructor` | src/App.jsx:4-7 | the component starts with no catalog, no phase, no subcategory and an empty solved set, so no problem is solved |
| `ProblemView.IsSolved` | src/App.jsx:100-101 | a problem is solved iff its URL is non-empty (so its slug is defined) and its slug is in the solved set |
| `ProblemView.App.ShowsSubCategorySelector` | src/App.jsx:84 | the subcategory dropdown is shown only once the catalog is loaded, and while the selection is valid the chosen phase then exists in the catalog, so `data[selectedPhase]` is defined |
| `ProblemView.App.ShowsProblemList` | src/App.jsx:96 | while the selection is valid, the problem list is only shown under the subcategory dropdown, and the phase and subcategory it shows exist in the catalog |
| `ProblemView.App.PhaseOffered` | src/App.jsx:76-80 | the phase dropdown offers the placeholder `""` and, once the catalog is loaded, exactly its phases; before loading only the placeholder; while the selection is valid its current value is among the options |
| `ProblemView.App.SubCategoryOffered` | src/App.jsx:87-91 | the subcategory dropdown offers the placeholder `""` and exactly the chosen phase's subcategories; while the selection is valid its current value is among the options |
| `ProblemView.App.ApplyCatalogResponse` | src/App.jsx:10-15 | a loaded catalog is stored, a failed load leaves the component unloaded, and the selection and solved set are untouched |
| `ProblemView.App.ApplySolvedResponse` | src/App.jsx:40-48 | the solved set becomes `NextSolved` of the old set and the response, and nothing else changes |
| `ProblemView.App.HandlePhaseChange` | src/App.jsx:61-64 | the phase becomes the chosen value and the subcategory is reset to `""`, so the problem list is hidden; the catalog and solved set are untouched |
| `ProblemView.App.HandleSubCategoryChange` | src/App.jsx:66-68 | only the subcategory changes, and the problem list is shown iff the chosen value is not `""` |
| `ProblemView.App.ProblemRows` | src/App.jsx:96-101 | the rendered list has the chosen subcategory's problems in catalog order, each marked solved iff its slug is in the solved set |

## Left out

- `api/leetcode.js`, the server-side proxy, is not part of this model. It only forwards one HTTP request and relays the answer.
- The two `fetch` calls, JSON parsing and the GraphQL query text (src/App.jsx:10-15, 19-39) are network I/O. Only their outcomes are modelled, as `CatalogResponse` and `SolvedResponse`.
- React hooks, effect scheduling and the order in which asynchronous responses arrive are not modelled. Each response is applied as one atomic state change.
- JSX markup, styles and `console.error` logging (src/App.jsx:70-127) are not modelled. The rendered content is reduced to the two visibility predicates and `ProblemRows`.
- `ProblemView.SolvedResponse`: JavaScript truthiness of `result.errors` is not modelled. Any truthy `errors` value, even an empty array, is the `GraphQLErrors` case. Reading a missing `data`, or calling `.map` on a missing list, throws, which is the `Thrown` case.
- `ProblemView.SlugSet`: a submission without a `titleSlug` would put `undefined` into the set. Submissions are modelled as always carrying a string slug.
- `ProblemView.App.HandlePhaseChange` and `ProblemView.App.HandleSubCategoryChange` require the value to be one the dropdown offers. The handlers only receive `e.target.value` from those `<option>`s (src/App.jsx:76-80, 87-91).
- `ProblemView.App.ApplyCatalogResponse` requires the catalog to be still unloaded. The effect that loads it runs once, on mount.
- Strings are sequences of `char`. UTF-16 code units, surrogate pairs and any URL decoding are not modelled. Query strings and fragments are not stripped, and neither does the source strip them.
