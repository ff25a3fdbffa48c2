# Anime browser: verified model of the screen state, detail formatting and theme

This project models, in Dafny, the parts of the anime browsing front-end that
are sequential logic rather than rendering:

- **The browsing screen** (`App.tsx`). Its React state becomes the fields of
  the class `App.AppState`. These are the result list, the loading flag, the
  page cursor, `hasNextPage`, the three filters, watchlist mode, the watchlist
  and the current intersection observer. Each handler or effect body becomes a
  method. The updaters passed to `setAnimeList` and `setWatchlist` are pure
  functions with lemmas:
  - `AnimeList.Dedup` is the `filter`/`findIndex` de-duplication by id.
  - `Watchlist.Toggle` is the `includes`/`filter`/spread toggle.
- **The detail panel** (`components/AnimeDetail.tsx`). `cleanDescription` is
  modelled as a left-to-right scanner that removes each match of
  `/<[^>]*>?/g`, with the `||` fallback. The module also holds the status
  label, the title and banner fallbacks, the score and episode labels with
  their decimal rendering, and the three-genre cut.
- **The theme context** (`contexts/ThemeContext.tsx`). This covers the two
  themes, the initial choice from the stored value, `toggleTheme`, and the
  effect that swaps the root classes and stores the theme. The provider
  (`ThemeContext.ThemeProvider`) holds the root element's class set and the
  key-value storage as fields.

Calls to the catalogue (`fetchAnime`, `fetchAnimeByIds`) are function
parameters. A `None` result stands for a rejected request. Because
`loadAnime` and `loadWatchlist` have no `catch`, the handler then stops with
`isLoading` still true and nothing else changed. `window.matchMedia` becomes
the parameter `prefersDark`. The watchlist read from storage at start-up is
passed to the constructor already parsed.

Files: `wrappers.dfy` (Option, Result), `sequences.dfy` (order-preserving
subsequence), `anime_model.dfy` (the records of `types.ts`), `anime_list.dfy`,
`watchlist.dfy`, `app.dfy`, `decimal.dfy`, `anime_detail.dfy`,
`theme_context.dfy`.

## Model

| member | source | states |
|---|---|---|
| `AnimeList.FindIndex` | App.tsx:90 | the result is -1 exactly when no element has the id; otherwise that index has the id and no earlier one does |
| `AnimeList.DedupSpec` | App.tsx:87-91 | `Dedup` (the filter, as `KeepFirsts` from position 0) leaves a list with unique ids that is an order-preserving subsequence of the merged list and has the same set of ids. Each survivor is the first element of the merged list with its id, and survivors appear in the order of those first positions |
| `AnimeList.DedupIdempotent` | App.tsx:90 | a list whose ids are already unique is left unchanged, so de-duplicating twice equals de-duplicating once |
| `AnimeList.AppendPageKeepsShown` | App.tsx:87-91 | appending a page to a list with unique ids never reorders or drops what is shown: the old list is a prefix of the result, and every later entry has an id not shown before |
| `AnimeList.ResetShowsPage` | App.tsx:88-90 | with `Merge` on a reset, the list holds exactly the page's ids, each by its first record in the page, in the order of those first positions; it is the page itself when the page's ids are unique |
| `Watchlist.RemoveAllSpec` | App.tsx:142 | `RemoveAll` keeps the other ids in order; the count of the removed id becomes 0 and every other count is unchanged |
| `Watchlist.ToggleSpec` | App.tsx:139-145 | `Toggle` (removal by `RemoveAll` when present, append otherwise) flips the id's membership: afterwards it occurs once if it was absent and not at all if it was present. Other ids keep their counts and their order |
| `Watchlist.ToggleAbsentTwice` | App.tsx:140-144 | toggling an absent id twice gives back exactly the original watchlist |
| `Watchlist.TogglePresentTwice` | App.tsx:140-144 | toggling a present id twice moves a single copy of it to the end |
| `Watchlist.TogglePreservesNoDup` | App.tsx:140-144 | toggling never introduces a duplicate into a duplicate-free watchlist |
| `App.ApplyFilter` | App.tsx:149-151 | an absent field leaves the value unchanged; a provided one becomes the new value, so the "differs" test does not change the outcome |
| `App.AppState.constructor` | App.tsx:15-29 | the initial state: empty list, loading, page 1, more pages expected, empty search and genre, popularity sort, not in watchlist mode, watchlist from storage or empty |
| `App.AppState.AttachObserver` | App.tsx:32-41 | while loading or in watchlist mode the observer is left as it was; otherwise a new one replaces it, capturing the current `hasNextPage` |
| `App.AppState.OnIntersection` | App.tsx:35-39 | the page advances by exactly one when the observed sentinel intersects and the captured `hasNextPage` holds, and stays put otherwise |
| `App.AppState.LoadAnime` | App.tsx:81-98 | in watchlist mode nothing changes and no request is sent. A reset request asks for page 1; otherwise it asks for the current page. A rejected request leaves loading on and the rest unchanged. On success the list is the de-duplicated merge, with unique ids and the expected id set; `hasNextPage` comes from the response, loading stops, and a reset puts the cursor back on page 1. When the old list's ids were unique, a non-reset load keeps it as a prefix |
| `App.AppState.LoadWatchlist` | App.tsx:100-111 | an empty watchlist clears the list and stops loading without a request; otherwise the result is shown as returned and `hasNextPage` becomes false |
| `App.AppState.RefreshAfterFilters` | App.tsx:114-123 | in watchlist mode the outcome is the watchlist load's (cleared list for an empty watchlist, otherwise the fetched entries and no next page) and the page is untouched; otherwise it is a reset load: the de-duplicated first page, its `hasNextPage`, page 1 and loading stopped, or loading left on when the request is rejected |
| `App.AppState.OnPageChange` | App.tsx:126-130 | a request is sent exactly when the page is past 1 and watchlist mode is off, and otherwise nothing changes. The request asks for the current page with the current filters; on success the page is appended to the shown list and de-duplicated, `hasNextPage` comes from the response and loading stops; the cursor does not move |
| `App.AppState.ToggleWatchlist` | App.tsx:139-145 | the watchlist becomes the toggle of the old one. The id's membership flips, the other ids keep their order, and a duplicate-free watchlist stays duplicate-free |
| `App.AppState.FilterChanged` | App.tsx:147-152 | watchlist mode is always left; each provided field is set and each absent one is kept |
| `App.AppState.ToggleWatchlistFilter` | App.tsx:154-157 | the shown list is cleared and watchlist mode flips |
| `AnimeDetail.OrElse` | components/AnimeDetail.tsx:70 | JavaScript `||` on a nullable string: the value when present and non-empty, otherwise the fallback |
| `AnimeDetail.SkipTagClosed` | components/AnimeDetail.tsx:22 | a tag closed by `>` is consumed together with its closing bracket, and scanning resumes just after it |
| `AnimeDetail.StripTagsNoOpen` | components/AnimeDetail.tsx:22 | `StripTags` (the global replace, with `SkipTag` consuming `[^>]*>?`) leaves no `<` in its output |
| `AnimeDetail.StripTagsSubseq` | components/AnimeDetail.tsx:22 | stripping only deletes characters: the output is an order-preserving subsequence of the input |
| `AnimeDetail.StripTagsPlain` | components/AnimeDetail.tsx:22 | text without `<` passes through unchanged |
| `AnimeDetail.StripTagsIdempotent` | components/AnimeDetail.tsx:22 | stripping twice is the same as stripping once |
| `AnimeDetail.StripTagsUnclosed` | components/AnimeDetail.tsx:22 | a `<` with no later `>` removes the rest of the string, whatever precedes it |
| `AnimeDetail.CleanDescriptionSpec` | components/AnimeDetail.tsx:21-23 | `CleanDescription` gives the default sentence exactly when the description is null or nothing survives stripping; otherwise the result is the stripped text. It never contains `<`, and a non-empty description without `<` is returned unchanged |
| `AnimeDetail.OnlyMarkupFallsBack` | components/AnimeDetail.tsx:21-23 | a description made only of one tag shows the default sentence |
| `AnimeDetail.LowerCase` | components/AnimeDetail.tsx:107 | same length; each ASCII capital becomes the same letter in lower case, every other character is kept, and no capital remains |
| `AnimeDetail.ReplaceFirstSpec` | components/AnimeDetail.tsx:107 | `ReplaceFirst` (replace with a one-character string pattern) changes only the first occurrence, or nothing when there is none |
| `AnimeDetail.StatusLabelText` | components/AnimeDetail.tsx:107 | `StatusLabel` gives finished, releasing, not yet_released, cancelled and hiatus for the five statuses |
| `AnimeDetail.StatusLabelKeepsUnderscore` | components/AnimeDetail.tsx:107 | as written, the label of NOT_YET_RELEASED still contains an underscore |
| `AnimeDetail.IntendedStatusLabel` | components/AnimeDetail.tsx:107 | the corrected label has no underscore and keeps the length of the enum name |
| `AnimeDetail.IntendedNotYetReleased` | components/AnimeDetail.tsx:107 | the corrected label of NOT_YET_RELEASED is "not yet released" |
| `AnimeDetail.IntendedAgreesElsewhere` | components/AnimeDetail.tsx:107 | on every other status the corrected label equals the shipped one |
| `AnimeDetail.DisplayTitle` | components/AnimeDetail.tsx:70 | the English title when present and non-empty, otherwise the romaji one; the heading is empty only when both are |
| `AnimeDetail.BannerSource` | components/AnimeDetail.tsx:45 | `bannerImage` when present and non-empty, otherwise the extra-large cover; empty only when both are |
| `AnimeDetail.ScoreLabelSpec` | components/AnimeDetail.tsx:99 | `ScoreLabel` is "N/A" exactly when the score is absent or 0; otherwise the label ends in "/100" and the score can be read back from what precedes it |
| `AnimeDetail.EpisodesLabelSpec` | components/AnimeDetail.tsx:103 | `EpisodesLabel` is "N/A" exactly when the episode count is absent or 0; otherwise the count can be read back from the label |
| `AnimeDetail.ShownGenresSpec` | components/AnimeDetail.tsx:78 | `ShownGenres` gives the first min(3, n) genres of the list, in their original order |
| `Decimal.NatToString` | components/AnimeDetail.tsx:99 | at least one character, all decimal digits, and no leading zero except for 0 itself |
| `Decimal.ParseNatToString` | components/AnimeDetail.tsx:99 | reading back the decimal rendering of a natural number gives the number |
| `Decimal.IntToStringRoundTrip` | components/AnimeDetail.tsx:103 | reading back the rendering of any integer gives the integer, so distinct values render differently |
| `ThemeContext.Toggle` | contexts/ThemeContext.tsx:30-32 | toggling always changes the theme |
| `ThemeContext.ToggleInvolution` | contexts/ThemeContext.tsx:30-32 | toggling twice is the identity; the toggle gives light exactly from dark |
| `ThemeContext.Parse` | contexts/ThemeContext.tsx:16 | a stored string is accepted only when it is the exact name of the theme it yields |
| `ThemeContext.ParseName` | contexts/ThemeContext.tsx:16-17 | the name of a theme parses back to it, and only "light" and "dark" parse at all |
| `ThemeContext.InitialThemeSpec` | contexts/ThemeContext.tsx:14-20 | `InitialTheme` uses a saved "light" or "dark" as is; any other saved value, or none, gives the system preference |
| `ThemeContext.UseTheme` | contexts/ThemeContext.tsx:43-49 | without a provider value the result is the error; otherwise it is the context unchanged |
| `ThemeContext.ThemeProvider.constructor` | contexts/ThemeContext.tsx:13-20 | the provider starts with the initial theme chosen from the stored value and the preference; classes and storage are untouched |
| `ThemeContext.ThemeProvider.ToggleTheme` | contexts/ThemeContext.tsx:30-32 | the theme becomes the other one |
| `ThemeContext.ThemeProvider.ApplyEffect` | contexts/ThemeContext.tsx:22-28 | the root classes become the old set minus the opposite theme plus the current one, with all other classes untouched. The stored theme becomes the current one and other keys are unchanged, so the page shows and stores the theme |
| `ThemeContext.ThemeProvider.ToggleAndApply` | contexts/ThemeContext.tsx:22-32 | after a toggle and its effect, the page shows and stores the new theme, and the initial-theme choice on a reload gives it back |

## Left out

- `services/anilist.ts` is not part of this model. The HTTP requests, the GraphQL queries and JSON decoding are replaced by function parameters that return a page, or `None` for a rejected request.
- Sign-in: `handleCredentialResponse`, `handleLogout`, the user state and the session effect (App.tsx:43-79). They depend on a third-party token decoder and the identity provider's script.
- Watchlist persistence. `JSON.parse` of the saved watchlist (App.tsx:26-29) is replaced by passing the parsed list to the constructor. The effect that writes the watchlist back (App.tsx:132-134) is not modelled.
- `handleSelectAnime` / `handleCloseDetail` (App.tsx:136-137) only set or clear the selected entry. They have nothing to verify.
- Timing is not modelled: the 300 ms debounce, effect scheduling and the `IntersectionObserver` event loop. Each request and its response are one step. Overlapping requests, and the `isLoading = true` visible while a request is in flight, are not modelled.
- `App.AppState.AttachObserver`: the React ref-callback protocol is not modelled. That protocol calls the old callback with `null` and the new one when the dependencies change. The model captures only what one call does.
- Rendering: JSX, the skeleton placeholders, the end-of-list and empty-list messages, CSS classes and the CSS `capitalize` applied to the status label.
- `AnimeDetail.LowerCase`: covers ASCII letters only. JavaScript's `toLowerCase` covers all of Unicode, but the status names are ASCII.
- Numbers are integers. JavaScript numbers are floating point, and the catalogue sends integer scores and episode counts. `NaN` and the `averageScore / 10` of `components/AnimeCard.tsx` are not modelled.
- `averageScore` is `Option<int>` although `types.ts` declares a plain number. This covers the `null` the catalogue sends for unscored titles.
- The `toggleTheme` function carried in the context value is not modelled: `ThemeContextValue` holds only the theme. `useMemo` identity is not modelled either.
- The presentational components (`Header`, `FilterControls`, `AnimeCard`, `AnimeCardSkeleton`) and `index.tsx`.

## Findings

| source | as written | input that shows it | evidently intended | confidence | as-written member | corrected member |
|---|---|---|---|---|---|---|
| components/AnimeDetail.tsx:107 | `replace('_', ' ')` with a string pattern replaces only the first underscore | status `NOT_YET_RELEASED` is shown as "not yet_released" | every underscore becomes a space: "not yet released" | high (not executed) | `AnimeDetail.StatusLabelKeepsUnderscore` | `AnimeDetail.IntendedNotYetReleased` |
