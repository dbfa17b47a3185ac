# UP Uday News client — a Dafny model of its page and store logic

This project models the deterministic core of a React news client for a small
newsroom. Readers browse approved articles, employees write and edit articles,
and administrators review articles and manage employees. Each piece of logic is
written as pure functions over immutable datatypes:

- **Pagination:** the `usePagination` hook and the paginated list that uses it.
- **Store slices:** the three Redux slices (`news`, `admin`, `theme`) as
  `State -> State` functions.
- **Route guard:** the protected-route decision.
- **Hero carousel:** the slide index and autoplay flag.
- **Admin and public pages:** the list, filter, selection and edit logic of the
  admin pages and the home page.
- **Article page:** its text helpers (tag stripping, read time, speech text,
  voice choice, related articles).
- **Employee forms:** the form validators of the employee pages, and the
  password generator of the add-employee page.
- **Editor guide:** the accordion.

There is one module per source file. `Common` holds the JavaScript built-ins the
pages lean on: `filter`, `slice`, `trim`, `includes`, `split`, `join`, ASCII
`toLowerCase`, and `indexOf`. `Types` holds the record shapes of
`src/types/index.ts`. `ApiNews` holds the mapping from a back-end news record
to an `Article`, which two pages share.

Everything the browser supplies becomes an input:

- **Time:** `new Date().toISOString()` becomes a `now` string.
- **Randomness:** `Math.random()` becomes a sequence of draws in `[0, 1)`.
- **Network:** the outcome of a request becomes a small datatype (failed, or
  responded with a status or a body).
- **DOM:** the text the DOM extracts from HTML becomes a string parameter.
- **Timers:** a timer tick becomes an operation.

## Model

| member | source | states |
|---|---|---|
| Types.Ids | src/pages/admin/PendingApprovals.tsx:141 | the ids of a list, position by position |
| Types.IndexOfId | src/store/slices/newsSlice.ts:52-54 | `findIndex` by id: the first position with the id, every earlier one differs, -1 when none has it |
| Types.IndexOfIdAt | src/store/slices/newsSlice.ts:41-44 | a position is the `findIndex` answer exactly when no earlier article shares its id |
| Types.WithoutArticle | src/store/slices/newsSlice.ts:59-63 | filtering an id out removes every article with it and keeps every other article |
| Types.WithoutAbsentArticle | src/store/slices/newsSlice.ts:59-63 | filtering out an id that is not present returns the list unchanged |
| Types.WithoutArticles | src/pages/admin/PendingApprovals.tsx:170-185 | removing several ids one after another keeps exactly the articles whose id is not among them |
| Types.WithoutUser | src/store/slices/adminSlice.ts:30-34 | filtering an employee id out removes every user with it and keeps the others |
| Common.Filter | src/pages/public/ArticleDetail.tsx:137 | `filter` keeps exactly the elements that pass, taken from the input |
| Common.FilterConcat | src/pages/public/ArticleDetail.tsx:137 | filtering a concatenation is concatenating the filtered parts, which fixes the order of the result |
| Common.Slice | src/pages/public/ArticleDetail.tsx:194 | `slice` with clamped bounds: the length and the elements of the piece cut out |
| Common.Lower | src/pages/admin/PendingApprovals.tsx:203-207 | `toLowerCase` on ASCII: same length, each capital moved to its small letter, nothing else changed |
| Common.Trim | src/pages/employee/EmployeeProfile.tsx:58-60 | `trim` returns the stretch of the string between its leading and its trailing white space: everything before and after it is white space, and it neither begins nor ends with white space |
| Common.BlankIffAllSpace | src/pages/employee/EditArticle.tsx:71-74 | `!s.trim()` holds exactly when every character is white space, which is how `IsBlank` reads it |
| Common.TrimKeepsText | src/pages/public/ArticleDetail.tsx:134 | `trim` removes white space only: the characters other than white space are the same, in the same order |
| Common.IndexOfChar | src/pages/employee/EmployeeProfile.tsx:66 | the first occurrence of a character at or after a position, or -1 |
| Common.Split | src/pages/public/ArticleDetail.tsx:339 | `split` on one character gives one more piece than there are separators, none containing it |
| Common.JoinSplit | src/pages/public/ArticleDetail.tsx:339 | joining the pieces of a split with the separator gives the string back |
| Pagination.NewPager | src/hooks/use-pagination.tsx:9-14 | a fresh hook starts on page 1 |
| Pagination.TotalPages | src/hooks/use-pagination.tsx:16 | the page count is the ceiling of items over page size: the fewest pages that hold every item |
| Pagination.TotalPagesExamples | src/hooks/use-pagination.tsx:16 | 0 items give 0 pages, 20 give 2, 25 give 3 and 47 give 5 at ten per page |
| Pagination.NoPagesIffNoItems | src/hooks/use-pagination.tsx:16 | there are no pages exactly when there are no items |
| Pagination.PageWindow | src/hooks/use-pagination.tsx:18-22 | the window of a page always spans a full page size and is never clamped to the item count |
| Pagination.ItemOnExactlyOnePage | src/hooks/use-pagination.tsx:18-22 | every item lies in the window of exactly one page, and that page is within the page count |
| Pagination.AdjacentWindows | src/hooks/use-pagination.tsx:18-22 | consecutive pages have adjacent windows |
| Pagination.GoToPage | src/hooks/use-pagination.tsx:24-28 | the page becomes the request exactly when it is within `1..totalPages` (or already current); otherwise nothing changes |
| Pagination.GoToNextPage | src/hooks/use-pagination.tsx:30-34 | moves one page on exactly when there is a next page, and otherwise changes nothing |
| Pagination.GoToPreviousPage | src/hooks/use-pagination.tsx:36-40 | moves one page back exactly when the page is above 1, and otherwise changes nothing |
| Pagination.SetTotalItems | src/hooks/use-pagination.tsx:9-16 | a new item count from the caller leaves the current page untouched |
| Pagination.NavigationPreservesRange | src/hooks/use-pagination.tsx:24-40 | the three navigation operations keep a valid page valid |
| Pagination.StalePageAfterShrink | src/hooks/use-pagination.tsx:14-16 | page 3 of 25 items stays page 3 when the count drops to 5, so the page leaves the valid range and shows nothing |
| Pagination.NavigationStopsAtEnds | src/hooks/use-pagination.tsx:30-40 | at the last page Next is a no-op, and at page 1 Previous is a no-op |
| Pagination.GoToCurrentPageIsNoOp | src/hooks/use-pagination.tsx:24-28 | requesting the current page changes nothing, in range or not |
| Pagination.OutOfRangeRequestsIgnored | src/hooks/use-pagination.tsx:24-28 | from page 3 of 5, requests for page 99 and then page 0 leave page 3 |
| Pagination.StepsAreInverse | src/hooks/use-pagination.tsx:30-40 | a step forward is undone by a step back, and the reverse from a valid page |
| Pagination.NextStepsClamp | src/hooks/use-pagination.tsx:30-34 | k presses of Next from a valid page end on the smaller of page + k and the page count |
| Pagination.FortySevenItemsScenario | src/hooks/use-pagination.tsx:16-22 | 47 items at ten per page: five windows of ten, and slices of 10, 10, 10, 10 and 7 items |
| Pagination.PageNumbersWhenFew | src/hooks/use-pagination.tsx:46-49 | with at most five pages every page is listed in order, and none when there are no pages |
| Pagination.PageNumbersWhenMany | src/hooks/use-pagination.tsx:50-62 | with more than five pages: five consecutive pages within `1..totalPages` that contain a valid current page |
| Pagination.PageNumbersCentred | src/hooks/use-pagination.tsx:50-62 | away from both ends the current page is the middle of the five |
| Pagination.PageNumbersExamples | src/hooks/use-pagination.tsx:42-65 | twelve pages: page 7 lists 5..9, page 11 lists 8..12, page 1 lists 1..5; three pages list 1..3 |
| Pagination.PageLinksAreReachable | src/components/news/PaginatedNewsList.tsx:93-103 | every listed page link is a request the hook accepts, so clicking it moves to that page |
| Pagination.CurrentItems | src/components/news/PaginatedNewsList.tsx:38-41 | the rows shown are the items of the current window, cut at the end of the list, at most a page size of them |
| Pagination.EllipsisMatchesLinks | src/components/news/PaginatedNewsList.tsx:106 | the hand-written ellipsis test holds exactly when the listed pages stop short of the last page |
| Pagination.ShowingRange | src/components/news/PaginatedNewsList.tsx:73-76 | "Showing X to Y": X is the window start plus one, and Y is the smaller of the window end and the list length |
| Pagination.ShowingRangeOrdered | src/components/news/PaginatedNewsList.tsx:73-76 | on a valid page of a non-empty list, 1 ≤ X ≤ Y |
| Pagination.ShowingRangeCountsRows | src/components/news/PaginatedNewsList.tsx:38-76 | on a valid page "Showing X to Y" names the rows on screen: Y − X + 1 of them, the first at position X |
| Pagination.ListPageSize | src/components/news/PaginatedNewsList.tsx:19-22 | the page size is the `itemsPerPage` prop when given and six when it is absent |
| Pagination.RenderList | src/components/news/PaginatedNewsList.tsx:19-123 | the page size is the prop, six without it; the empty state exactly for an empty list; otherwise the current rows, and controls exactly when there is more than one page, showing the window start plus one, the smaller of window end and length, the total, the hook's links, the current page as active, the ellipsis by its rule, and Previous / Next enabled exactly when the hook has such a page |
| Pagination.DefaultListShowsSix | src/components/news/PaginatedNewsList.tsx:19-76 | without the prop, page 1 of a list of six or more shows its first six articles, under "Showing 1 to 6" when there are more; a list of at most six shows whole, without controls |
| Pagination.RenderedCountsMatchRows | src/components/news/PaginatedNewsList.tsx:38-76 | on a valid page the counts printed under a rendered list describe exactly the rows above them |
| NewsSlice.SetLoading | src/store/slices/newsSlice.ts:31-33 | sets the loading flag and nothing else |
| NewsSlice.SetArticles | src/store/slices/newsSlice.ts:34-37 | replaces the list and ends loading; nothing else changes |
| NewsSlice.KeptAreFirstOccurrences | src/store/slices/newsSlice.ts:41-44 | the de-duplicating filter keeps only the first article of each id, so no id is kept twice |
| NewsSlice.FirstOccurrenceKept | src/store/slices/newsSlice.ts:41-44 | every first occurrence of an id survives the filter |
| NewsSlice.OldPrefixKept | src/store/slices/newsSlice.ts:39-44 | when the old list has distinct ids, the filter keeps all of it at the front |
| NewsSlice.AppendArticles | src/store/slices/newsSlice.ts:38-47 | after an append the ids are distinct, every article came from the old or new list, no id is lost, and loading ends |
| NewsSlice.AppendKeepsExistingInPlace | src/store/slices/newsSlice.ts:39-45 | existing articles stay in place at the front; only incoming articles with new ids follow, so an incoming duplicate never replaces the old one |
| NewsSlice.KeptTailIsNew | src/store/slices/newsSlice.ts:39-44 | what the filter keeps past the old list is incoming articles with ids the old list lacks |
| NewsSlice.AddArticle | src/store/slices/newsSlice.ts:48-50 | the new article goes to the front and the old list follows unchanged |
| NewsSlice.UpdateArticle | src/store/slices/newsSlice.ts:51-58 | only the first article with the id is replaced, the length is kept, and an absent id changes nothing |
| NewsSlice.UpdateIdempotent | src/store/slices/newsSlice.ts:51-58 | applying the same update twice is applying it once |
| NewsSlice.DeleteArticle | src/store/slices/newsSlice.ts:59-63 | every article with the id goes and every other article stays |
| NewsSlice.DeleteIdempotent | src/store/slices/newsSlice.ts:59-63 | deleting the same id again changes nothing |
| NewsSlice.SetFilters | src/store/slices/newsSlice.ts:64-69 | a shallow merge: each key in the patch is taken, and each missing key keeps its value |
| NewsSlice.SetFiltersLaws | src/store/slices/newsSlice.ts:64-69 | an empty patch is a no-op, and a patch applied twice is applied once |
| NewsSlice.SetError | src/store/slices/newsSlice.ts:70-73 | records the error and ends loading; nothing else changes |
| NewsSlice.Reduce | src/store/slices/newsSlice.ts:30-74 | no action touches the categories; the loading actions end loading; the list edits leave the flag alone |
| AdminSlice.IndexOfUser | src/store/slices/adminSlice.ts:36 | `find` by id as a position: the first employee with the id, or -1 |
| AdminSlice.SetLoading | src/store/slices/adminSlice.ts:21-23 | sets the loading flag and nothing else |
| AdminSlice.SetEmployees | src/store/slices/adminSlice.ts:24-26 | replaces the employee list and nothing else |
| AdminSlice.AddEmployee | src/store/slices/adminSlice.ts:27-29 | the new employee goes at the end, with the existing ones unchanged before it |
| AdminSlice.RemoveEmployee | src/store/slices/adminSlice.ts:30-34 | every employee with the id goes and every other one stays |
| AdminSlice.BlockEmployee | src/store/slices/adminSlice.ts:35-40 | only the first employee with the id is marked blocked; an absent id changes nothing |
| AdminSlice.BlockIdempotent | src/store/slices/adminSlice.ts:35-40 | blocking twice is blocking once |
| AdminSlice.BlockNeverUnblocks | src/store/slices/adminSlice.ts:35-40 | a blocked employee stays blocked whatever is blocked next |
| AdminSlice.SetPendingArticles | src/store/slices/adminSlice.ts:41-43 | replaces the review queue and nothing else |
| AdminSlice.ApproveArticle | src/store/slices/adminSlice.ts:44-48 | the id leaves the queue, the other articles stay, and nothing else changes |
| AdminSlice.RejectArticle | src/store/slices/adminSlice.ts:49-56 | the same removal as approval, and nothing else changes |
| AdminSlice.RejectIgnoresReason | src/store/slices/adminSlice.ts:44-56 | the reason is stored nowhere: rejecting with any reason equals approving |
| AdminSlice.ApproveAbsentIsNoOp | src/store/slices/adminSlice.ts:44-48 | reviewing an id that is not queued changes nothing |
| AdminSlice.SetStatistics | src/store/slices/adminSlice.ts:57-62 | the whole statistics record is replaced and nothing else changes |
| AdminSlice.SetError | src/store/slices/adminSlice.ts:63-66 | records the error and ends loading; nothing else changes |
| ThemeSlice.GetSystemTheme | src/store/slices/themeSlice.ts:12-19 | dark exactly when a window exists and reports a dark preference |
| ThemeSlice.ParseTheme | src/store/slices/themeSlice.ts:24-25 | a stored string is a theme exactly when it is one of the three names |
| ThemeSlice.GetStoredTheme | src/store/slices/themeSlice.ts:22-30 | the stored theme when it is a valid name, and `system` in every other case |
| ThemeSlice.StoredThemeRoundTrip | src/store/slices/themeSlice.ts:22-30 | whatever theme was stored is read back as the same theme |
| ThemeSlice.UnknownStoredThemeIsSystem | src/store/slices/themeSlice.ts:25-29 | any other stored string falls back to `system` |
| ThemeSlice.ResolveTheme | src/store/slices/themeSlice.ts:33-38 | `system` follows the operating system; light and dark are themselves |
| ThemeSlice.InitialState | src/store/slices/themeSlice.ts:40-47 | the store starts from the stored and system themes with the resolved theme consistent |
| ThemeSlice.SetTheme | src/store/slices/themeSlice.ts:53-55 | the theme changes, the system preference does not, and the resolved theme stays consistent |
| ThemeSlice.SetSystemTheme | src/store/slices/themeSlice.ts:70-72 | the system preference changes, the theme does not, and the resolved theme stays consistent |
| ThemeSlice.InitializeTheme | src/store/slices/themeSlice.ts:84-95 | only the document is touched, so the state is unchanged |
| ThemeSlice.ReduceAllKeepsValid | src/store/slices/themeSlice.ts:53-95 | every sequence of actions keeps the resolved theme consistent |
| ThemeSlice.ExplicitThemeIgnoresSystem | src/store/slices/themeSlice.ts:70-72 | with light or dark chosen, a change of system preference does not change what is shown |
| ProtectedRoute.Decide | src/routes/ProtectedRoute.tsx:12-33 | loading shows the check; unauthenticated goes to login; it renders exactly when authenticated and admitted by the role list; an authenticated user the role list refuses goes to unauthorized |
| ProtectedRoute.MissingUserUnauthorized | src/routes/ProtectedRoute.tsx:28-30 | an authenticated session without a user record is refused by any role list |
| ProtectedRoute.EmptyRoleListDeniesAll | src/routes/ProtectedRoute.tsx:28-30 | an empty role list (present, since arrays are truthy) refuses everyone |
| ProtectedRoute.MoreRolesNeverDeny | src/routes/ProtectedRoute.tsx:28-32 | adding roles to the list never takes access away |
| ProtectedRoute.AdminRouteExamples | src/routes/ProtectedRoute.tsx:28-32 | an admin route admits an admin and sends an employee to unauthorized |
| HeroSlider.Next | src/components/news/HeroSlider.tsx:36-38 | one slide on, always in range, wrapping from the last slide to the first |
| HeroSlider.Previous | src/components/news/HeroSlider.tsx:32-34 | one slide back, always in range, wrapping from the first slide to the last |
| HeroSlider.NextPreviousInverse | src/components/news/HeroSlider.tsx:32-38 | back after forward, and forward after back, return to the same slide |
| HeroSlider.AdvanceWithoutWrap | src/components/news/HeroSlider.tsx:36-38 | before the wrap, k steps forward add k |
| HeroSlider.AdvanceCompose | src/components/news/HeroSlider.tsx:36-38 | a steps then b steps are a + b steps |
| HeroSlider.FullRoundReturns | src/components/news/HeroSlider.tsx:36-38 | n steps with n slides return to the starting slide |
| HeroSlider.GoToSlide | src/components/news/HeroSlider.tsx:28-30 | a dot click selects exactly that slide and leaves autoplay alone |
| HeroSlider.GoToNext | src/components/news/HeroSlider.tsx:36-38 | the Next arrow moves one slide on, from the last slide to the first, and leaves autoplay alone |
| HeroSlider.GoToPrevious | src/components/news/HeroSlider.tsx:32-34 | the Previous arrow moves one slide back, from the first slide to the last, and leaves autoplay alone |
| HeroSlider.Tick | src/components/news/HeroSlider.tsx:18-26 | a timer tick advances only when autoplay is on and there is more than one slide, and otherwise changes nothing |
| HeroSlider.MouseEnter | src/components/news/HeroSlider.tsx:84 | hovering pauses autoplay and keeps the slide |
| HeroSlider.MouseLeave | src/components/news/HeroSlider.tsx:85 | leaving resumes autoplay and keeps the slide |
| HeroSlider.HoverFreezes | src/components/news/HeroSlider.tsx:18-26 | while hovered, ticks never move the slider |
| HeroSlider.Render | src/components/news/HeroSlider.tsx:61-200 | the placeholder exactly with no articles; arrows and dots exactly with more than one; a slide is visible exactly when the index is in range |
| HeroSlider.StaleIndexRecovers | src/components/news/HeroSlider.tsx:90-95 | after the list shrinks, a stale index shows no slide until the next step brings it back |
| PendingApprovals.Loaded | src/pages/admin/PendingApprovals.tsx:126-129 | the page opens on the whole queue with nothing selected |
| PendingApprovals.FilteredArticles | src/pages/admin/PendingApprovals.tsx:200-209 | the list holds exactly the queued articles whose title or author matches the search and whose lower-cased category is the chosen one (or "all") |
| PendingApprovals.NoFilterShowsAll | src/pages/admin/PendingApprovals.tsx:200-209 | an empty search with "all" shows the whole queue |
| PendingApprovals.WithoutId | src/pages/admin/PendingApprovals.tsx:135 | unchecking removes every copy of the id and keeps the other ids |
| PendingApprovals.SelectArticle | src/pages/admin/PendingApprovals.tsx:131-137 | checking appends the id even if present; unchecking removes every copy; nothing else changes |
| PendingApprovals.CheckThenUncheck | src/pages/admin/PendingApprovals.tsx:131-137 | check then uncheck leaves the article unselected, whatever was selected before |
| PendingApprovals.SelectAll | src/pages/admin/PendingApprovals.tsx:139-145 | select-all takes the ids of the listed articles in order; deselect-all empties the selection |
| PendingApprovals.SelectAllChecksHeader | src/pages/admin/PendingApprovals.tsx:432-434 | select-all ticks the header box exactly when something is listed, and deselect-all clears it |
| PendingApprovals.ViewArticle | src/pages/admin/PendingApprovals.tsx:481-484 | opening the view dialog remembers the article as the selected one |
| PendingApprovals.CloseView | src/pages/admin/PendingApprovals.tsx:561 | closing the view dialog keeps the remembered article |
| PendingApprovals.SingleAction | src/pages/admin/PendingApprovals.tsx:147-154 | an article's own button remembers it and opens the dialog with that action |
| PendingApprovals.BulkAction | src/pages/admin/PendingApprovals.tsx:156-160 | as written: refused with nothing checked; otherwise opens the dialog and keeps any remembered article |
| PendingApprovals.BulkActionCorrected | src/pages/admin/PendingApprovals.tsx:156-160 | corrected: like the above, but forgets any remembered article |
| PendingApprovals.CancelAction | src/pages/admin/PendingApprovals.tsx:658-660 | Cancel closes the dialog and changes nothing else |
| PendingApprovals.ToProcess | src/pages/admin/PendingApprovals.tsx:163-165 | the remembered article alone when there is one, and the checked ids otherwise |
| PendingApprovals.DispatchAllRemovesIds | src/pages/admin/PendingApprovals.tsx:170-185 | the store dispatches, one per id, leave the queue filtered exactly as the page's list is |
| PendingApprovals.ExecuteAction | src/pages/admin/PendingApprovals.tsx:162-198 | the processed ids leave both the page and the store queue, the other articles stay, and the selection, remembered article, dialog and feedback are cleared |
| PendingApprovals.StaleViewHijacksBulkAction | src/pages/admin/PendingApprovals.tsx:163-165 | as written: view A, close, check B and approve the selection; A is approved and B stays |
| PendingApprovals.CorrectedBulkProcessesSelection | src/pages/admin/PendingApprovals.tsx:156-165 | corrected: a confirmed bulk action processes exactly the checked ids |
| PendingApprovals.CorrectedScenario | src/pages/admin/PendingApprovals.tsx:156-165 | corrected: the same clicks approve B and leave A queued |
| ManageEmployees.AsUsers | src/pages/admin/ManageEmployees.tsx:160 | the records the store receives carry the employees' ids and blocked flags |
| ManageEmployees.Toggle | src/pages/admin/ManageEmployees.tsx:169 | the blocked reading flips and no other field changes |
| ManageEmployees.ToggleBlocked | src/pages/admin/ManageEmployees.tsx:167-171 | every employee with the id is toggled, and every other employee is left alone |
| ManageEmployees.ToggleTwiceRestoresStatus | src/pages/admin/ManageEmployees.tsx:169 | two clicks give every employee back its blocked or active status |
| ManageEmployees.HandleBlockEmployee | src/pages/admin/ManageEmployees.tsx:163-179 | as written: the page toggles its copy while the store is only ever told to block |
| ManageEmployees.UnblockLeavesStoreBlocked | src/pages/admin/ManageEmployees.tsx:163-172 | as written: unblocking a blocked employee shows them as active while the store still says blocked |
| ManageEmployees.MirrorBlocked | src/pages/admin/ManageEmployees.tsx:172 | the corrected store update sets each employee with the id to the page's new status |
| ManageEmployees.HandleBlockEmployeeCorrected | src/pages/admin/ManageEmployees.tsx:163-179 | corrected: the page toggles as before, and the store sets every employee with the id to the new status of the first such employee on the page (blocked when the page has none); nothing else changes |
| ManageEmployees.IndexOfEmployee | src/pages/admin/ManageEmployees.tsx:164 | `find` by id as a position: the first employee with the id, every earlier one has another, -1 when none has it |
| ManageEmployees.CorrectedKeepsStoreInSync | src/pages/admin/ManageEmployees.tsx:163-172 | corrected: a page and store that agreed on an employee's status still agree after a click |
| ManageEmployees.HandleDeleteEmployee | src/pages/admin/ManageEmployees.tsx:181-198 | unconfirmed changes nothing; confirmed drops the id from the page and the store and keeps everyone else |
| ManageEmployees.FilteredEmployees | src/pages/admin/ManageEmployees.tsx:200-212 | exactly the employees whose name or email matches, whose department fits, and whose status fits |
| ManageEmployees.StatusFiltersPartition | src/pages/admin/ManageEmployees.tsx:206-209 | every employee passes exactly one of "active" and "blocked", and always passes "all" |
| ManageEmployees.CurrentEmployees | src/pages/admin/ManageEmployees.tsx:225-233 | the rows are the filtered employees of the current eight-row window: as many as the window holds before the end of the list, in order from its start |
| ManageEmployees.PerformanceScore | src/pages/admin/ManageEmployees.tsx:262-266 | 0 with no articles; otherwise the approved share as a whole percentage, rounded half up |
| ManageEmployees.PerformanceScoreIsPercentage | src/pages/admin/ManageEmployees.tsx:262-266 | for a record whose approved count is part of its total, the score is between 0 and 100 |
| ManageEmployees.PerformanceScoreExamples | src/pages/admin/ManageEmployees.tsx:262-266 | 18 of 22 gives 82, 5 of 8 gives 63, and none gives 0 |
| ManageEmployees.Words | src/pages/admin/ManageEmployees.tsx:236-238 | the words of a split name are non-empty pieces of it |
| ManageEmployees.WordsAreFiltered | src/pages/admin/ManageEmployees.tsx:236-238 | the words are exactly the pieces `filter` keeps for being non-empty |
| ManageEmployees.FirstLetters | src/pages/admin/ManageEmployees.tsx:236-239 | one initial per word, in order, each the first character of its word; empty pieces give nothing |
| ManageEmployees.SplitWithoutSeparator | src/pages/admin/ManageEmployees.tsx:237 | a name without a space splits into itself alone |
| ManageEmployees.GetInitials | src/pages/admin/ManageEmployees.tsx:235-241 | one initial per word of the space-split name, in order, each the upper-cased first letter of its word; at most one per space-separated piece, none lower-case and none a space |
| ManageEmployees.OneWordOneInitial | src/pages/admin/ManageEmployees.tsx:235-241 | a non-empty name without a space gives exactly one initial, its first letter upper-cased; the empty name gives none |
| AllArticles.FilteredArticles | src/pages/admin/AllArticles.tsx:218-230 | exactly the articles whose title, author or content matches the search and whose category and status fit their filters |
| AllArticles.CategoryOptionsIgnoreCase | src/pages/admin/AllArticles.tsx:224-226 | for every value the category select sends ("all" and six lower-case names), the test keeps an article exactly when its category equals the choice ignoring case |
| AllArticles.EditArticle | src/pages/admin/AllArticles.tsx:182-191 | opening the editor remembers the article and copies its four editable fields |
| AllArticles.Edited | src/pages/admin/AllArticles.tsx:196-200 | the edited copy takes the four form fields and the new time, and keeps every other field |
| AllArticles.SaveEdit | src/pages/admin/AllArticles.tsx:193-216 | nothing without a remembered article; otherwise only articles with its id are replaced, the length is kept, and the dialog closes |
| AllArticles.SaveUnchangedOnlyTouchesTimestamp | src/pages/admin/AllArticles.tsx:193-206 | opening and saving without edits changes only `updatedAt` |
| AllArticles.SaveEditSecondTimeIsNoOp | src/pages/admin/AllArticles.tsx:193-216 | saving twice is saving once |
| AllArticles.DeleteArticle | src/pages/admin/AllArticles.tsx:161-180 | unconfirmed changes nothing; confirmed sets the page to its list filtered by the id, so no article with the id is left and every other stays, and the store takes the slice's `deleteArticle` |
| AllArticles.CurrentArticles | src/pages/admin/AllArticles.tsx:265-273 | the rows are the filtered articles of the current ten-row window: as many as the window holds before the end of the list, in order from its start |
| AllArticles.ShowingLabel | src/pages/admin/AllArticles.tsx:608-610 | "Showing X to Y of N": Y is capped at the filtered count and N is that count |
| ApiNews.OrElse | src/pages/public/ArticleDetail.tsx:65-68 | `value \|\| fallback`: an absent or empty string falls back |
| ApiNews.ToArticle | src/pages/public/HomePage.tsx:54-72 | a record maps to an approved article with its id, heading and content, and defaults for excerpt, image, author and dates |
| ApiNews.ToArticles | src/pages/public/HomePage.tsx:54-72 | the list mapping maps each record in place |
| ApiNews.ToArticleWithViews | src/pages/public/ArticleDetail.tsx:61-80 | the article page's mapping adds a view count, 0 unless a number came back |
| ApiNews.BareRecordDefaults | src/pages/public/ArticleDetail.tsx:61-80 | a record with every optional field missing gets excerpt "", author "Unknown", 0 views and the current time |
| HomePage.FilteredArticles | src/pages/public/HomePage.tsx:95-115 | exactly the approved articles that fit the category (ignoring case) and the search over title, excerpt or content |
| HomePage.NoFiltersShowApproved | src/pages/public/HomePage.tsx:96-107 | with no category and no search, an article is shown exactly when it is approved |
| HomePage.Featured | src/pages/public/HomePage.tsx:135 | the slider takes the first four filtered articles, or all when there are fewer |
| HomePage.Regular | src/pages/public/HomePage.tsx:137 | the list takes the filtered articles after the first four |
| HomePage.FeaturedThenRegular | src/pages/public/HomePage.tsx:135-137 | slider then list is the filtered list: nothing lost and nothing shown twice |
| HomePage.Controls | src/pages/public/HomePage.tsx:202-233 | controls exactly with more than one page; Back exactly past page 1; Next exactly before the last page |
| HomePage.Back | src/pages/public/HomePage.tsx:211 | Back never goes below page 1 and otherwise steps back one |
| HomePage.Next | src/pages/public/HomePage.tsx:227 | Next steps forward one page and nothing else changes |
| HomePage.ButtonsKeepPageInRange | src/pages/public/HomePage.tsx:207-227 | pressing only the buttons shown keeps the page within `1..totalPages` |
| HomePage.TotalPagesOrOne | src/pages/public/HomePage.tsx:73 | a missing or zero page count is read as one page |
| HomePage.Accept | src/pages/public/HomePage.tsx:73-77 | a success stores the page count, sets "more" exactly when this page is before the last and not empty, and replaces the list |
| HomePage.FirstSuccess | src/pages/public/HomePage.tsx:49-78 | the loop stops at the first successful attempt, every earlier one having failed |
| HomePage.LoadPage | src/pages/public/HomePage.tsx:46-90 | between one and three attempts, loading ends, the page is kept, and the error changes only after three failures |
| HomePage.FirstAttemptSucceeds | src/pages/public/HomePage.tsx:49-78 | a first success makes one request, and an empty page clears the "more" flag |
| HomePage.ThreeFailures | src/pages/public/HomePage.tsx:79-86 | three failures record the error and keep the articles already shown |
| HomePage.SuccessKeepsOldError | src/pages/public/HomePage.tsx:73-78 | a success does not clear an error left by an earlier load |
| ArticleDetail.ReplaceTagsFromSource | src/pages/public/ArticleDetail.tsx:134 | the tag replacement only ever writes spaces or characters of the input |
| ArticleDetail.ReplaceTagsNoTag | src/pages/public/ArticleDetail.tsx:134 | after the tag replacement no `<` has a `>` after it |
| ArticleDetail.CollapseSpaces | src/pages/public/ArticleDetail.tsx:134 | collapsing white space leaves no two in a row, invents nothing, and leaves text without white space alone |
| ArticleDetail.CollapseKeepsText | src/pages/public/ArticleDetail.tsx:134 | collapsing white space keeps every other character, in order |
| ArticleDetail.CollapseKeepsNoTag | src/pages/public/ArticleDetail.tsx:134 | collapsing white space cannot create a tag |
| ArticleDetail.StripTags | src/pages/public/ArticleDetail.tsx:134 | the stripped text has no white space at either end, never two in a row, and no tag |
| ArticleDetail.StripTagsShape | src/pages/public/ArticleDetail.tsx:134 | the three steps in order give the single-spaced, tag-free shape |
| ArticleDetail.StripTagsKeepsText | src/pages/public/ArticleDetail.tsx:134 | after the tags are replaced, `stripTags` changes only spacing: every other character survives, in order |
| ArticleDetail.PlainWordUnchanged | src/pages/public/ArticleDetail.tsx:134 | one plain word without `<` comes through unchanged |
| ArticleDetail.BodyText | src/pages/public/ArticleDetail.tsx:130-136 | the page's visible text, trimmed, when there is some, and otherwise the stripped content; never padded |
| ArticleDetail.TextToSpeak | src/pages/public/ArticleDetail.tsx:137 | "title. body" when both are present, and just the one present otherwise |
| ArticleDetail.TextToSpeakIsFilterJoin | src/pages/public/ArticleDetail.tsx:137 | the case analysis equals dropping the empty parts and joining with ". " |
| ArticleDetail.EstimatedReadTime | src/pages/public/ArticleDetail.tsx:339 | the ceiling of the single-space pieces over 200, and at least one minute |
| ArticleDetail.ReadTimeExamples | src/pages/public/ArticleDetail.tsx:339 | even empty content reads in one minute |
| ArticleDetail.ReadTimeGrowsWithSpaces | src/pages/public/ArticleDetail.tsx:339 | more spaces never give a shorter read time |
| ArticleDetail.FindVoice | src/pages/public/ArticleDetail.tsx:108-119 | `find`: the first voice that passes, or none when no voice passes |
| ArticleDetail.DefaultVoice | src/pages/public/ArticleDetail.tsx:104-122 | a voice is picked only when voices exist and none is chosen: the first Hindi voice if any, otherwise a voice that is not Hindi |
| ArticleDetail.EnglishBeforeFirst | src/pages/public/ArticleDetail.tsx:114-121 | without a Hindi voice, the first Google or Microsoft English voice wins, otherwise the first voice |
| ArticleDetail.CacheMatches | src/pages/public/ArticleDetail.tsx:182-188 | the cached articles related to the current one: other, approved, same category ignoring case, and all of them |
| ArticleDetail.CacheFallback | src/pages/public/ArticleDetail.tsx:182-194 | as many cached articles as are related, capped at three, each approved, another article, and of the same category ignoring case |
| ArticleDetail.OtherRecords | src/pages/public/ArticleDetail.tsx:160-162 | the reply's records without the current id, all of the others kept; a reply without a list counts as empty |
| ArticleDetail.Related | src/pages/public/ArticleDetail.tsx:150-195 | nothing without a category; on success the reply minus the current article, each record mapped as the page maps one, in reply order; the cache fallback when the request fails; never the current article and only approved ones |
| EmployeeProfile.IsValidEmail | src/pages/employee/EmployeeProfile.tsx:66 | a scan that accepts no white space anywhere |
| EmployeeProfile.EmailScanMatchesPattern | src/pages/employee/EmployeeProfile.tsx:66 | the scan accepts exactly the strings the email expression matches |
| EmployeeProfile.ScanFindsPattern | src/pages/employee/EmployeeProfile.tsx:66 | the positions the scan finds witness a match of the email expression |
| EmployeeProfile.PatternPassesScan | src/pages/employee/EmployeeProfile.tsx:66 | a match of the email expression passes the scan |
| EmployeeProfile.AcceptedEmailShape | src/pages/employee/EmployeeProfile.tsx:64-68 | an accepted email has exactly one `@`, no white space, and a `.` after it with text on both sides |
| EmployeeProfile.ValidateProfile | src/pages/employee/EmployeeProfile.tsx:55-72 | a name error exactly when the trimmed name is under two characters; an email error exactly when it is blank or does not match; the right message for each; valid exactly when neither |
| EmployeeProfile.AcceptedProfile | src/pages/employee/EmployeeProfile.tsx:55-72 | an accepted profile has a trimmed name of two or more and an email with one `@` and no white space |
| EmployeeProfile.ValidatePassword | src/pages/employee/EmployeeProfile.tsx:75-106 | an error for each field exactly when its rule fails; "must be different" overrides when current equals new; valid exactly when every rule holds |
| EmployeeProfile.EmptyPasswordsSayDifferent | src/pages/employee/EmployeeProfile.tsx:99-102 | with both passwords empty, the new-password message is "must be different", not "required" |
| EmployeeProfile.CountTrue | src/pages/employee/EmployeeProfile.tsx:181-185 | the count of criteria met is all of them exactly when every one holds and 0 exactly when none does |
| EmployeeProfile.StrengthScore | src/pages/employee/EmployeeProfile.tsx:180-185 | 25 times the number of criteria met (eight characters, a lower-case letter, a capital, a digit); 100 exactly when all four hold, 0 exactly when none does |
| EmployeeProfile.StrengthOf | src/pages/employee/EmployeeProfile.tsx:180-191 | Weak up to 25, Fair above 25 up to 50, Good above 50 up to 75, Strong otherwise; so Weak for at most one criterion, Fair for two, Good for three, Strong for a long mixed password |
| EmployeeProfile.AcceptedPasswordIsStrong | src/pages/employee/EmployeeProfile.tsx:180-191 | every new password the form accepts shows as Strong |
| EmployeeProfile.StrengthExamples | src/pages/employee/EmployeeProfile.tsx:180-191 | "" is Weak, "abcdefgh" is Fair, "Abcdefg1" is Strong |
| WriteArticle.LengthRule | src/pages/employee/WriteArticle.tsx:63-79 | one field's rule: a message exactly when the text is blank or shorter than its minimum, "required" for blank text and "too short" otherwise |
| WriteArticle.ValidateForm | src/pages/employee/WriteArticle.tsx:59-87 | an error for each field exactly when its rule fails, with that rule's message; valid exactly when no rule fails |
| WriteArticle.PaddedTitlePasses | src/pages/employee/WriteArticle.tsx:63-67 | the minimum counts the untrimmed title, so three letters padded to ten characters pass |
| WriteArticle.SaveDraft | src/pages/employee/WriteArticle.tsx:89-101 | a blank title is refused with the draft message as the only error; otherwise the status becomes draft |
| WriteArticle.SubmittableSavesAsDraft | src/pages/employee/WriteArticle.tsx:89-101 | a form that passes validation can always be saved as a draft |
| WriteArticle.Submit | src/pages/employee/WriteArticle.tsx:113-150 | the validation errors are stored; the article becomes submitted exactly when the form is valid and the server answers 200 |
| WriteArticle.InvalidFormNotSubmitted | src/pages/employee/WriteArticle.tsx:116-123 | an invalid form is never submitted, whatever the server would say |
| WriteArticle.WordCount | src/pages/employee/WriteArticle.tsx:187 | the one-pass count equals the number of word starts |
| WriteArticle.NoWordsIffBlank | src/pages/employee/WriteArticle.tsx:187 | no words exactly when every character is white space |
| WriteArticle.WordCountExtremes | src/pages/employee/WriteArticle.tsx:187 | blank text has no words, and non-empty text without white space has one |
| WriteArticle.OneRunOneWord | src/pages/employee/WriteArticle.tsx:187 | a run without white space is one word |
| EditArticle.InitialForm | src/pages/employee/EditArticle.tsx:29-37 | the form copies the handed-over article's fields, each "" when there is none |
| EditArticle.LoadedForm | src/pages/employee/EditArticle.tsx:48-54 | the fetched record fills the form, with "" for each missing field |
| EditArticle.LoadedMatchesHanded | src/pages/employee/EditArticle.tsx:48-54 | a fetched article fills the same form as when it is handed over |
| EditArticle.Validate | src/pages/employee/EditArticle.tsx:69-77 | each of the four fields errors exactly when blank; valid exactly when none is |
| EditArticle.EmptyFormFailsEverywhere | src/pages/employee/EditArticle.tsx:69-77 | a form opened with nothing handed over fails on all four fields |
| EditArticle.Submit | src/pages/employee/EditArticle.tsx:79-108 | nothing without an id; an invalid form only shows its errors; a valid one returns to idle and moves to the list exactly after a successful save |
| EditArticle.FailedSaveCanRetry | src/pages/employee/EditArticle.tsx:98-107 | a failed save only clears errors and returns to idle, and resubmitting then equals a first successful submit |
| AddEmployee.PickInRange | src/pages/admin/AddEmployee.tsx:41 | `floor(r * 66)` for a draw in `[0, 1)` is a position of the alphabet |
| AddEmployee.AlphabetLayout | src/pages/admin/AddEmployee.tsx:37-38 | 66 characters: 26 capitals, 26 small letters, 10 digits, then `@#$%` |
| AddEmployee.PasswordFrom | src/pages/admin/AddEmployee.tsx:36-44 | one alphabet character per draw, the one the draw picks |
| AddEmployee.GeneratePassword | src/pages/admin/AddEmployee.tsx:36-44 | the loop builds twelve characters, each the alphabet character its draw picks |
| AddEmployee.DrawsDecideThePassword | src/pages/admin/AddEmployee.tsx:36-44 | all-zero draws give twelve `A`s and all-one-half draws twelve `h`s |
| AddEmployee.NewEmployee | src/pages/admin/AddEmployee.tsx:83-91 | the store record carries the form's name and email and the employee role |
| AddEmployee.HandleSubmit | src/pages/admin/AddEmployee.tsx:46-117 | as written: the request carries one password; on a response the card shows a second one, the store is the slice's `addEmployee` of the new employee and the form resets; on an error only loading ends; no store field but the employee list ever changes |
| AddEmployee.ShownPasswordIsNotRegistered | src/pages/admin/AddEmployee.tsx:52-98 | as written: the card's password can differ from the registered one |
| AddEmployee.HandleSubmitCorrected | src/pages/admin/AddEmployee.tsx:46-117 | corrected: the card shows the registered password; an error only ends loading |
| AddEmployee.CorrectedShowsRegisteredPassword | src/pages/admin/AddEmployee.tsx:95-115 | corrected: after a response the card shows the registered password and all four fields are reset |
| EditorGuide.Toggle | src/components/ui/editor-guide.tsx:17-19 | clicking the open section closes it, clicking another opens it, and no other section is shown |
| EditorGuide.AtMostOneShown | src/components/ui/editor-guide.tsx:118-125 | at most one section is shown at any time |
| EditorGuide.ToggleTwiceFromCollapsed | src/components/ui/editor-guide.tsx:17-19 | two clicks on a section from collapsed close it again |
| EditorGuide.ClicksEndOnLast | src/components/ui/editor-guide.tsx:17-19 | after any clicks the guide is closed or shows the last section clicked |
| EditorGuide.RepeatedClicks | src/components/ui/editor-guide.tsx:17-19 | n clicks on one section leave it open exactly when n is odd |

## Left out

- Rendering, styling, icons, dialogs' markup and toasts: presentation only. Toast wording is not modelled.
- Network requests: each becomes an outcome parameter. This covers the home page loader, the article and related-article fetches, the edit and submit requests, and the registration request.
- The 600 ms pause between home page retries, the slider's five-second interval and the one-second `setTimeout` on the add-employee page are not modelled. A tick is the `HeroSlider.Tick` operation. The delayed block runs at once in `AddEmployee.HandleSubmit`.
- Date parsing and formatting, and every date-keyed or `localeCompare` sort, are left out:
  - the sort selector of the all-articles and review pages;
  - the newest-first sort of the home page;
  - the date sort of the related-articles fallback.

  Each filtered list is the list before sorting. Timestamps are opaque strings, and "now" is an input.
- `toLowerCase` and `toUpperCase` are modelled on ASCII letters only. White space is JavaScript's `\s` set.
- The password regular expression of the profile page is read on single-line input. `.` in a lookahead does not cross line breaks, and the model ignores that.
- `ManageEmployees.PerformanceScore`: rounds the exact fraction half up. The floating-point path of `Math.round(approved / total * 100)` is not modelled.
- `ArticleDetail.CacheFallback` states membership, the filter and the count (three, or fewer when fewer are related). It does not state which three, because the source picks them after a date sort that is left out.
- `ApiNews.ToArticle` copies `publishedDate` as a string. In the source, `new Date(publishedDate).toISOString()` throws a `RangeError` when the date does not parse. On the home page that makes the attempt count as a failure (`HomePage.LoadPage`); on the article page it sends the related list to the cache fallback (`ArticleDetail.Related`). The model never fails there.
- `EmployeeProfile.ValidateProfile` measures the trimmed name in characters (Unicode scalar values). JavaScript's `length` counts UTF-16 code units, so a name character outside the Basic Multilingual Plane counts twice in the source.
- `EmployeeProfile.ValidatePassword` measures the new password in characters, not in the UTF-16 code units JavaScript's `length` counts.
- `WriteArticle.LengthRule` measures the trimmed text in characters, not in the UTF-16 code units JavaScript's `length` counts.
- `ManageEmployees.GetInitials` takes the first character of each word. JavaScript's `n[0]` takes the first UTF-16 code unit, which for a word starting outside the Basic Multilingual Plane is half a surrogate pair.
- `ArticleDetail.DefaultVoice`: the contract states the Hindi preference. The English-then-first order is stated separately in `ArticleDetail.EnglishBeforeFirst`.
- The article page's view counter is not modelled. It is a `POST` whose reply overwrites `views`.
- The related articles' loading and error flags are not modelled.
- The page's `innerText` is an input to `ArticleDetail.BodyText`.
- Speech synthesis, sharing and clipboard use in the article page are browser APIs and are not modelled.
- `EditArticle.LoadedForm` models the fetch effect only by its result. Its loading status and failure notice are left out.
- The add-employee page's `department` and `phoneNumber` are not fields of `User`. They travel in the form and the request only.
- `isLoading` becoming true at the start of a submission is not modelled; only its final value is.
- The write-article page never sets `submitting`; the line is commented out. `WriteArticle.Status` keeps the value, but no operation produces it.
- `HomePage.LoadPage`: the filters come from the header component, which only dispatches `setFilters`, so they are inputs.
- The theme slice's `localStorage`, `matchMedia` and `document` class changes are left out. The browser state read at start-up is the `Env` input.
- ThemeSlice.InitializeTheme: only changes the document's classes, which are not modelled, so on the state it is the identity.
- JWT decoding and expiry, the login pages and the logout handlers are outside this model.
- The dashboards, the analytics page, "My articles", the article preview and card, and the static pages are also outside it.

## Findings

| source | as written | input that shows it | evidently intended | confidence | as-written member | corrected member |
|---|---|---|---|---|---|---|
| src/pages/admin/PendingApprovals.tsx:156-165 | a bulk action keeps `selectedArticle`, which viewing an article sets (lines 481-484) and closing the view does not clear; `executeAction` then processes that one article instead of the checked ones | queue [A, B]: view A, close the view, check B, bulk-approve, confirm | a bulk action processes the checked articles | not executed | PendingApprovals.StaleViewHijacksBulkAction (on PendingApprovals.BulkAction) | PendingApprovals.BulkActionCorrected, PendingApprovals.CorrectedBulkProcessesSelection |
| src/pages/admin/AddEmployee.tsx:58-98 | the password sent to `/register_user` (line 58) and the password shown in the credentials card (line 79) come from two separate `generatePassword()` calls | any two different draw sequences, e.g. all 0.0 for the request and all 0.5 for the card | the card shows the password the account was registered with | not executed | AddEmployee.ShownPasswordIsNotRegistered (on AddEmployee.HandleSubmit) | AddEmployee.HandleSubmitCorrected, AddEmployee.CorrectedShowsRegisteredPassword |
| src/pages/admin/ManageEmployees.tsx:163-179 | the page toggles `isBlocked`, but the store is sent `blockEmployee`, which only ever sets it to true (src/store/slices/adminSlice.ts:35-40) | one blocked employee; click Unblock | the store takes the toggled status, as the "can now access the system" notice says | not executed | ManageEmployees.UnblockLeavesStoreBlocked (on ManageEmployees.HandleBlockEmployee) | ManageEmployees.HandleBlockEmployeeCorrected, ManageEmployees.CorrectedKeepsStoreInSync |

