# github-cleaner: repository list view-model and API middlewares in Dafny

This project models the parts of github-cleaner that carry logic of their own:

- **The `RepositoryList` component.** It is the frontend view over a user's repositories. It has:
  - a search and language filter;
  - a language list;
  - a sort by name, stars or last update;
  - a per-repository selection toggle;
  - a confirmation dialog that sends the `full_name`s of the selected repositories to the `onUnstar` or `onDelete` callback.
- **The backend `authMiddleware`.** It extracts the bearer token from the `Authorization` header.
- **The backend `errorHandler`.** It turns any error into one `(status, {status: 'error', message})` response.

## Modules

| file | module | models |
|---|---|---|
| Wrappers.dfy | `Wrappers` | `Option` for `null`/`undefined`; `Result` for "value or thrown error" |
| Seqs.dfy | `Seqs` | subsequence, duplicate-freedom, first occurrence |
| Strings.dfy | `Strings` | `String.prototype.includes` and `split` on one character |
| Repositories.dfy | `Repositories` | the `Repository` record; the `languages` memo; the filter half of `filteredAndSortedRepos` |
| RepoSort.dfy | `RepoSort` | the comparator of `filteredAndSortedRepos`, and the stable sort that `Array.prototype.sort` performs with it |
| Selection.dfy | `Selection` | `handleSelect`'s toggle; the payload of `handleConfirmAction` |
| RepositoryList.dfy | `RepositoryList` | the component as a class whose fields are its six `useState` slots, and its handlers |
| AuthMiddleware.dfy | `AuthMiddleware` | `authMiddleware` and its own `AppError` class |
| ErrorMiddleware.dfy | `ErrorMiddleware` | `AppError` and `errorHandler` |

Host-library behaviour is passed in as parameters rather than defined:

- `toLowerCase` is a parameter `lower: string -> string`.
- `localeCompare` is a parameter `collate: (string, string) -> int`.
  - The theorems about the name sort assume it is `Consistent`: swapping the arguments flips the sign, and "not after" is transitive. That is what ECMA-402 asks of a collator. The star and date sorts compare numbers and assume nothing (`RepoSort.ConsistentFor`).
- `updated_at` is already parsed into an integer instant.

The `onUnstar`/`onDelete` callbacks are not called. Each handler returns the one call it would make, as a `BatchCall` value.

Two theorems justify modelling `Array.prototype.sort` as an insertion sort:

- `RepoSort.SortedStableIsUnique` shows there is exactly one sorted, stable permutation.
- The insertion sort `SortRepos` is proved to be that permutation.

So the host's sort algorithm cannot matter. (ECMA-262 has required a stable `sort` since the 2019 edition.)

### Behaviour of the code worth knowing

- The "All" language option is the empty string (frontend/src/components/RepositoryList.tsx:114).
- A batch action is one call to `onUnstar` or `onDelete` carrying the whole list of names.
- Selected ids are never pruned when the repository list changes. They are only skipped when the payload is built (`Selection.StaleSelectionSendsNothing`).
- The language list is an ordered array of the values, in the order they first occur. Empty-string languages are dropped along with null ones, because `filter(Boolean)` drops every falsy value.
- Toggling an id twice restores the same set of ids. It restores the same list only when the id was absent to begin with; otherwise the id moves to the end.
- An empty selection is guarded only by disabling the two buttons. `handleConfirmAction` itself does not check it.
- Only the sort field has a control. `sortOrder` starts as `'desc'` and nothing ever sets it, so the class has no method that changes it.

## Model

| member | source | states |
|---|---|---|
| `Strings.Includes` | frontend/src/components/RepositoryList.tsx:54-55 | `includes` is true exactly when the needle occurs at some offset of the haystack. The empty needle occurs in every string. |
| `Strings.Split` | backend/src/middleware/auth.middleware.ts:17 | `split(' ')` yields at least one field, and no field contains the separator. |
| `Strings.JoinSplit` | backend/src/middleware/auth.middleware.ts:17 | Joining the fields of a split with the separator gives back the original string. |
| `Strings.SplitAfterFirst` | backend/src/middleware/auth.middleware.ts:17 | A string whose first separator follows the word `w` splits into `w`, then the fields of the rest. |
| `Repositories.FilterRepos` | frontend/src/components/RepositoryList.tsx:52-58 | A repository is in the filter output iff it is in the input and matches the rule. The rule: its lower-cased name contains the lower-cased term, or it has a description whose lower-cased form does; and the language filter is `""` or equals its language exactly. |
| `Repositories.MatchesSearch` | frontend/src/components/RepositoryList.tsx:54-55 | The search half of the filter callback. It has no contract of its own; see `Repositories.FilterRepos` and `Repositories.NullFieldsNeverMatch`. |
| `Repositories.MatchesLanguage` | frontend/src/components/RepositoryList.tsx:56 | The language half of the filter callback. It has no contract of its own; see `Repositories.FilterRepos` and `Repositories.NullFieldsNeverMatch`. |
| `Repositories.Keep` | frontend/src/components/RepositoryList.tsx:53-58 | The whole filter callback. It has no contract of its own; see `Repositories.FilterRepos`, `Repositories.FilterCounts` and `Repositories.EmptyCriteriaKeepAll`. |
| `Repositories.FilterIsSubsequence` | frontend/src/components/RepositoryList.tsx:52-58 | The filter output is an order-preserving subsequence of `repositories`. |
| `Repositories.FilterCounts` | frontend/src/components/RepositoryList.tsx:52-58 | A matching repository appears in the output as many times as in the input; a non-matching one never appears. |
| `Repositories.NullFieldsNeverMatch` | frontend/src/components/RepositoryList.tsx:54-56 | A null description can match only on the name. A null language fails every non-empty language filter. |
| `Repositories.EmptyCriteriaKeepAll` | frontend/src/components/RepositoryList.tsx:52-58 | An empty search term with the "All" option returns the input unchanged. |
| `Repositories.TruthyLanguages` | frontend/src/components/RepositoryList.tsx:47 | Contains exactly the non-null, non-empty languages of the repositories. |
| `Repositories.FirstRepoWith` | frontend/src/components/RepositoryList.tsx:47 | The position of the first repository with language `x`: that repository has it, and none before it does. |
| `Repositories.TruthyLanguagesFollowRepos` | frontend/src/components/RepositoryList.tsx:47 | Two truthy languages first occur in the same order in the language list as in the repositories that carry them. |
| `Repositories.Distinct` | frontend/src/components/RepositoryList.tsx:47-48 | `Array.from(new Set(s))` holds the same values as `s`, each once. |
| `Repositories.DistinctFirstOccurrenceOrder` | frontend/src/components/RepositoryList.tsx:47-48 | The distinct values are listed in order of their first occurrence. |
| `Repositories.Languages` | frontend/src/components/RepositoryList.tsx:46-49 | The `languages` memo. It has no contract of its own; see `Repositories.LanguagesCorrect`. |
| `Repositories.LanguagesCorrect` | frontend/src/components/RepositoryList.tsx:46-49 | The language options are duplicate-free and are exactly the truthy languages of the unfiltered repositories. Of any two options, the earlier one's first repository comes before the later one's. |
| `RepoSort.KeyCompare` | frontend/src/components/RepositoryList.tsx:60-71 | The ascending comparison on each key. It has no contract of its own; see `RepoSort.CompareAntisymmetric`, `RepoSort.CompareTransitive` and `RepoSort.SortOrdersByKey`. |
| `RepoSort.Compare` | frontend/src/components/RepositoryList.tsx:59-73 | The comparator, negated for `'desc'`. It has no contract of its own; see `RepoSort.CompareAntisymmetric`, `RepoSort.CompareTransitive` and `RepoSort.SortOrdersByKey`. |
| `RepoSort.CompareAntisymmetric` | frontend/src/components/RepositoryList.tsx:59-73 | For the star and date keys, and for the name key given a consistent `localeCompare`, the comparator's sign flips when its arguments are swapped, for every field and direction. It returns 0 exactly on equal keys. |
| `RepoSort.CompareTransitive` | frontend/src/components/RepositoryList.tsx:59-73 | For the star and date keys, and for the name key given a consistent `localeCompare`, "not after" under the comparator is transitive. |
| `RepoSort.SameKeyTransitive` | frontend/src/components/RepositoryList.tsx:59-73 | Equal keys are transitive. Reflexivity and symmetry come from `RepoSort.CompareAntisymmetric`, so ties form an equivalence relation. |
| `RepoSort.Insert` | frontend/src/components/RepositoryList.tsx:59-73 | Inserting adds exactly the one element (multiset union). |
| `RepoSort.SortRepos` | frontend/src/components/RepositoryList.tsx:59-73 | The sort result is a permutation of its input. |
| `RepoSort.InsertSorted` | frontend/src/components/RepositoryList.tsx:59-73 | Inserting into a sorted list keeps it sorted. |
| `RepoSort.SortSorted` | frontend/src/components/RepositoryList.tsx:59-73 | The sort result is ordered by the comparator, ascending for `'asc'` and negated for `'desc'`. |
| `RepoSort.InsertTies` | frontend/src/components/RepositoryList.tsx:59-73 | An inserted element goes ahead of every element it ties with. |
| `RepoSort.SortStable` | frontend/src/components/RepositoryList.tsx:59-73 | For every key, the entries that tie with it keep their input order, in both directions. |
| `RepoSort.SortOrdersByKey` | frontend/src/components/RepositoryList.tsx:61-72 | For `i < j` in the result: `stars` gives non-decreasing `stargazers_count` for `'asc'` and non-increasing for `'desc'`; `updated` does the same on the `updated_at` instant; `name` gives `localeCompare(r[i].name, r[j].name)` ≤ 0 for `'asc'` and ≥ 0 for `'desc'`. |
| `RepoSort.TiesCount` | frontend/src/components/RepositoryList.tsx:59-73 | An element occurs as often in its own tie class as in the list. |
| `RepoSort.SortedHeadsTie` | frontend/src/components/RepositoryList.tsx:59-73 | Two sorted permutations of each other start with tied elements. |
| `RepoSort.SortedStableIsUnique` | frontend/src/components/RepositoryList.tsx:59-73 | Two sorted lists with the same tie classes for every key are equal. So any stable sort with this comparator yields `SortRepos`. |
| `RepositoryList.FilteredAndSorted` | frontend/src/components/RepositoryList.tsx:51-74 | The `filteredAndSortedRepos` memo. It has no contract of its own; see `RepositoryList.ViewCorrect`. |
| `RepositoryList.ViewCorrect` | frontend/src/components/RepositoryList.tsx:51-74 | The rendered list holds each matching repository as often as the source does, and nothing else. It is sorted by the chosen key, and ties keep their filtered order. |
| `Selection.Without` | frontend/src/components/RepositoryList.tsx:78 | Removing an id keeps the other ids in order and drops every copy of that id. Removing an absent id changes nothing. Counts are in `Selection.WithoutCounts`. |
| `Selection.WithoutCounts` | frontend/src/components/RepositoryList.tsx:78 | Every other id keeps its number of occurrences, and `id` has none. |
| `Selection.Toggle` | frontend/src/components/RepositoryList.tsx:77-78 | The `handleSelect` updater. It has no contract of its own; see `Selection.ToggleMembership`, `Selection.ToggleKeepsNoDup` and `Selection.ToggleTwice`. |
| `Selection.ToggleMembership` | frontend/src/components/RepositoryList.tsx:76-80 | A toggle flips the membership of `id` and of nothing else. |
| `Selection.SubsequenceNoDup` | frontend/src/components/RepositoryList.tsx:78 | Filtering a duplicate-free list keeps it duplicate-free. |
| `Selection.ToggleKeepsNoDup` | frontend/src/components/RepositoryList.tsx:76-80 | Toggling never introduces a duplicate id into `selected`. |
| `Selection.ToggleTwice` | frontend/src/components/RepositoryList.tsx:76-80 | Toggling the same id twice leaves the same set of ids, and the identical list when the id was absent. |
| `Selection.WithoutAppended` | frontend/src/components/RepositoryList.tsx:78 | Removing an id that was just appended to a list not holding it restores the list. |
| `Selection.SelectedRepos` | frontend/src/components/RepositoryList.tsx:83-84 | A repository is in the result iff it is in the unfiltered list and its id is selected. Counts are in `Selection.SelectedReposCounts`. |
| `Selection.SelectedReposCounts` | frontend/src/components/RepositoryList.tsx:83-84 | A selected repository is taken as many times as it occurs in the list; an unselected one never. |
| `Selection.FullNames` | frontend/src/components/RepositoryList.tsx:85 | Position by position, the `full_name` of each repository. |
| `Selection.SelectedFullNames` | frontend/src/components/RepositoryList.tsx:83-85 | The confirm payload. It has no contract of its own; see `Selection.SelectedReposInSourceOrder`, `Selection.PayloadNamesSelectedRepos`, `Selection.PayloadIgnoresSelectionOrder` and `Selection.StaleSelectionSendsNothing`. |
| `Selection.SelectedReposInSourceOrder` | frontend/src/components/RepositoryList.tsx:83-85 | The payload follows the order of the source list, not the selection order or the view order. |
| `Selection.PayloadNamesSelectedRepos` | frontend/src/components/RepositoryList.tsx:83-85 | Each payload name is the `full_name` of a repository that is in the current list and is selected. |
| `Selection.PayloadIgnoresSelectionOrder` | frontend/src/components/RepositoryList.tsx:83-85 | Two selections holding the same ids give the same payload. |
| `Selection.StaleSelectionSendsNothing` | frontend/src/components/RepositoryList.tsx:83-85 | Selected ids that match no repository are skipped, so a wholly stale selection sends an empty list. |
| `RepositoryList.RepositoryListState.constructor` | frontend/src/components/RepositoryList.tsx:36-44 | Initial state: nothing selected, empty search, "All" languages, sort by `updated`, `'desc'`, dialog closed with action `unstar`. |
| `RepositoryList.RepositoryListState.HandleSelect` | frontend/src/components/RepositoryList.tsx:76-80 | `selected` becomes the toggle of the old list and stays duplicate-free. Only the membership of `id` changes. Nothing else changes. |
| `RepositoryList.RepositoryListState.SetSearchTerm` | frontend/src/components/RepositoryList.tsx:103 | Only the search term changes. |
| `RepositoryList.RepositoryListState.SetLanguageFilter` | frontend/src/components/RepositoryList.tsx:112 | Only the language filter changes. |
| `RepositoryList.RepositoryListState.SetSortField` | frontend/src/components/RepositoryList.tsx:128 | Only the sort field changes. |
| `RepositoryList.RepositoryListState.OpenConfirmDialog` | frontend/src/components/RepositoryList.tsx:135-150 | With a non-empty selection, the dialog opens with the chosen action. With an empty one (button disabled) nothing changes. The selection is untouched either way. |
| `RepositoryList.RepositoryListState.CloseConfirmDialog` | frontend/src/components/RepositoryList.tsx:168-181 | Cancel or close shuts the dialog and resets its action to `unstar`. `selected` and the other state are unchanged. |
| `RepositoryList.RepositoryListState.HandleConfirmAction` | frontend/src/components/RepositoryList.tsx:82-95 | Exactly one callback is made, chosen by the dialog's action. Its payload is the names of the selected repositories of the unfiltered list (independent of search, filter and sort). Afterwards the dialog is closed with action `unstar` and `selected` is empty. |
| `RepositoryList.RepositoryListState.CardAction` | frontend/src/components/RepositoryList.tsx:162-163 | A card button makes one call with the one-element list `[full_name]`. It has no frame, so it cannot touch the selection or the dialog. |
| `AuthMiddleware.ParseAuthorization` | backend/src/middleware/auth.middleware.ts:10-21 | `No token provided`/401 is returned iff the header is missing or empty. Every failure is 401 with one of the two messages. A token is never empty and never contains a space. |
| `AuthMiddleware.SecondField` | backend/src/middleware/auth.middleware.ts:17 | The destructured second field of `split(' ')`. It has no contract of its own; see `AuthMiddleware.SecondFieldOf`, `AuthMiddleware.SecondFieldAfterFirstSpace` and `AuthMiddleware.SecondFieldBetweenFirstSpaces`. |
| `AuthMiddleware.FirstFieldThen` | backend/src/middleware/auth.middleware.ts:17 | A space-free word followed by nothing or by a space is the first field. |
| `AuthMiddleware.SecondFieldOf` | backend/src/middleware/auth.middleware.ts:17 | The second field of `w + " " + t + rest` is `t`. |
| `AuthMiddleware.SchemeNotChecked` | backend/src/middleware/auth.middleware.ts:17-21 | Any first word is accepted as the scheme: `w + " " + t (+ " " ...)` yields token `t`. |
| `AuthMiddleware.EmptySecondFieldRejected` | backend/src/middleware/auth.middleware.ts:17-21 | An empty second field, as in `"Bearer "` or `"Bearer  x"`, gives `Invalid token format`/401. |
| `AuthMiddleware.NoSpaceRejected` | backend/src/middleware/auth.middleware.ts:17-21 | A non-empty header without a space, such as `"InvalidFormat"`, gives `Invalid token format`/401. |
| `AuthMiddleware.FirstFieldIsPrefix` | backend/src/middleware/auth.middleware.ts:17 | The first field of a split runs up to the first space or the end. |
| `AuthMiddleware.SecondFieldAfterFirstSpace` | backend/src/middleware/auth.middleware.ts:17 | Without a space there is no second field. With one, the second field is the first field of what follows the first space. |
| `AuthMiddleware.SecondFieldAt` | backend/src/middleware/auth.middleware.ts:17 | When the header's first space is at position `i`, the token field is the first field of the text after it. |
| `AuthMiddleware.SecondFieldBetweenFirstSpaces` | backend/src/middleware/auth.middleware.ts:17 | The second field is exactly the text between the first and the second space (or the end). |
| `AuthMiddleware.TokenBetweenFirstSpaces` | backend/src/middleware/auth.middleware.ts:17-24 | An accepted token is exactly the text between the header's first and second space (or its end). |
| `AuthMiddleware.Authenticate` | backend/src/middleware/auth.middleware.ts:10-24 | `next` is called iff a token was extracted, and then `req.token` holds it. Otherwise the parsed error is thrown and `req.token` is unchanged. Never both. |
| `ErrorMiddleware.NewAppError` | backend/src/middleware/error.middleware.ts:3-8 | An `AppError` keeps `statusCode` and `message` exactly as passed, and its name is `'AppError'`. |
| `ErrorMiddleware.ErrorHandler` | backend/src/middleware/error.middleware.ts:10-36 | Every body has status `'error'`. An `AppError` keeps its own code and message. Any other error gets 429 iff its message contains `"API rate limit exceeded"`, and 500 otherwise, each with its fixed message. So no other error's own message is ever sent. |
| `ErrorMiddleware.AppErrorTakesPrecedence` | backend/src/middleware/error.middleware.ts:16-29 | An `AppError` whose message mentions the rate limit still gets its own status code and message. |
| `ErrorMiddleware.RateLimitAnywhere` | backend/src/middleware/error.middleware.ts:24-29 | A non-`AppError` with the marker anywhere in its message gets 429 with the fixed GitHub rate-limit message. |
| `ErrorMiddleware.AuthRejectionAsWritten` | backend/src/middleware/error.middleware.ts:16-35 | As written, every rejection by the auth middleware reaches the handler as a foreign class and is answered 500 `Internal server error`. |
| `ErrorMiddleware.RaiseAuthRejection` | backend/src/middleware/auth.middleware.ts:3-8 | Raised as this file's `AppError`, an auth rejection is answered with its own status code and message. |
| `ErrorMiddleware.RejectionResponse` | backend/src/middleware/auth.middleware.ts:13-21 | A request the auth middleware rejects receives 401 with the middleware's own message. |

## Findings

| source | as written | input that shows it | evidently intended | confidence | as-written member | corrected member |
|---|---|---|---|---|---|---|
| backend/src/middleware/auth.middleware.ts:3-8 | The auth middleware throws its own `AppError` class (arguments `message, statusCode`). `errorHandler` tests `instanceof` against the other `AppError` class, in error.middleware.ts:16. | An `authMiddleware` rejection that reaches `errorHandler`, e.g. a request with no `Authorization` header once the routes' router name is fixed (backend/src/routes/github.routes.ts:18, 28 and 38 register the guarded routes on `githubRoutes`, which is never declared): the handler answers 500 `Internal server error`. | 401 with `No token provided` (or `Invalid token format`) | medium; not executed | `ErrorMiddleware.AuthRejectionAsWritten` | `ErrorMiddleware.RejectionResponse` |

## Left out

- `toLowerCase`, `localeCompare` and `new Date(...)` are host-library behaviour. They are parameters or pre-parsed values. Invalid dates (NaN comparisons) and locale tables are not modelled.
- When sorting by name, `RepoSort.SortSorted`, `RepoSort.SortStable` and `RepositoryList.ViewCorrect` assume `localeCompare` is a consistent comparator. With an inconsistent one, JavaScript's sort order is implementation-defined, and the model says nothing about the name sort then. The star and date sorts carry no such assumption.
- JavaScript numbers are doubles. `id`, `stargazers_count` and the instant are unbounded integers, so no rounding of `a.stargazers_count - b.stargazers_count` is modelled.
- The `loading` flag, the rendered markup and the dialog's title and text are presentation only. A click on a card, including its checkbox, forwards `repository.id` to `HandleSelect` (frontend/src/components/RepositoryCard.tsx:47). A click on the card's unstar or delete icon does not, because those handlers stop propagation (frontend/src/components/RepositoryCard.tsx:30, 35).
- What `onUnstar`/`onDelete` do with the payload is left out: the async mutations, refetch and snackbar in frontend/src/App.tsx, and the single POST in frontend/src/services/github.ts.
- `RepositoryList.RepositoryListState.View` and `LanguageOptions` only assemble the proved functions. They carry no contract of their own.
- `errorHandler`'s `console.error` call is logging and is not modelled. Express's `req`, `res` and `next` are reduced to the request's header and token, an outcome value and a response value.
- `ErrorMiddleware.Error` always carries a string message. A thrown value that is not an `Error` is not modelled: its `message` is `undefined`, and `err.message.includes` would itself throw a `TypeError`.
- The backend services, controllers, routes, app bootstrapping and rate limiter are Octokit/axios/Express plumbing and are not part of this model.
