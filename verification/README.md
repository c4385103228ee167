# navigation-buttons, modelled in Dafny

The `nav-buttons` custom element is a pagination control. It reads a current
page and a page count from its `current-page` and `total-pages` attributes. It
shows previous/next arrows and a strip of page-number buttons, collapsing long
lists with ellipsis markers. When the user picks another page it emits a
`page-change` request. It never changes its own page: the page it shows
always comes back in through the attribute.

This project models the two parts of `src/components/navigation-buttons.ts`
that carry logic, with the DOM taken away:

- `options.dfy` (module `Options`): an `Option` type for absent attributes and
  for clicks that may or may not request a page.
- `pagination.dfy` (module `Pagination`): `generatePagination` and its
  `ELLIPSIS` sentinel. The output is a `seq<Token>`, where
  `Token = Page(n) | Ellipsis`. The source's integer list, with `-1` standing
  for an ellipsis, is kept as an encoding (`Encode`/`Decode`). The model shows
  that no page of the strip can collide with the sentinel.
- `controller.dfy` (module `Controller`): the `NavigationButtons` class.
  - Its state and attributes, and `updateInputAttributes`.
  - `render`, reduced to a `View`: two disabled flags and a list of ellipsis
    spans and page buttons, one of which may be active.
  - `handlePageClick`, as the pure function `ResolveClick` from a state and the
    clicked button to an optional requested page.
  - The element as a state machine (`Step`, `Run`) over the events connect,
    attribute change and click. This includes the `oldValue === newValue`
    guard.

The current page may lie outside `1..totalPages`, and the page count may be
zero or negative: the source clamps neither. Every statement about
`GeneratePagination`, `Render`, `ResolveClick` and `Step` holds for every
integer input. `ArrowsLiveIffEnabled` and `ClickOnPageButton` are stated for
pages in `1..totalPages`. The pages `Run` emits are characterised for a
starting element whose state and view agree with its attributes, and the
constructed element is one.

The model follows the code as written, also where a reader might expect otherwise:

- The next arrow is disabled when `currentPage >= totalPages`, not only when
  the two are equal.
- The previous arrow is disabled only when `currentPage === 1`. So for a
  current page of 0 it is enabled, yet clicking it requests nothing
  (`Controller.PreviousEnabledButInertBelowRange`).
- Non-numeric attribute values become `NaN` in the code, not 1. Only an
  absent attribute becomes 1.
- The final `return []` of `generatePagination` is kept as written. The model
  proves that no integer input reaches it: the branch holds `assert false`, and
  the contract promises seven tokens whenever there are more than six pages.

## Model

| member | source | states |
|---|---|---|
| `Pagination.PageRun` | src/components/navigation-buttons.ts:7 | A run of `count` pages starting at `first` has `max(count, 0)` tokens, and token `i` is page `first + i`. This is the `Array.from` range of the short list and of the five-page tail. |
| `Pagination.GeneratePagination` | src/components/navigation-buttons.ts:3-37 | With at most six pages, the strip is exactly pages `1..totalPages` in order, with no ellipsis; it is empty when the count is zero or less. With more than six pages, the thresholds `left > 2` and `right < totalPages - 2` pick the strip for every integer current page. A current page of at most 3 gets `1 2 3 4 5 … total`. A current page of `totalPages - 3` or more gets `1 … total-4 total-3 total-2 total-1 total`. A current page in between gets `1 … c-1 c c+1 … total`. So the strip always has seven tokens, and the empty fallback is never returned. For all integers, every page token lies in `1..totalPages`, so it is at least 1 and never the sentinel. Pages strictly increase left to right, and page tokens side by side differ by exactly 1. Every ellipsis sits between two pages that differ by at least 2, so it hides at least one page. The current page is shown if and only if `1 <= currentPage <= totalPages`. When it is shown, so are its neighbours. |
| `Pagination.PagesIncreasingFromNeighbours` | src/components/navigation-buttons.ts:13-14 | If page tokens side by side are consecutive and every ellipsis hides at least one page, then any page to the left of another page is smaller. |
| `Pagination.WellFormedFromNeighbours` | src/components/navigation-buttons.ts:13-14 | A strip with in-range pages, consecutive neighbouring pages and page-hiding ellipses has all its pages strictly increasing. |
| `Pagination.ShortStrip` | src/components/navigation-buttons.ts:6-8 | The full list of at most six pages is well formed. It shows the current page exactly when that page is real, and shows its neighbours too. |
| `Pagination.HeadStrip` | src/components/navigation-buttons.ts:19-21 | The right-ellipsis-only branch, taken for a current page of at most 3, is exactly `1 2 3 4 5 … total`. It is well formed and shows the current page and its neighbours when that page is real. |
| `Pagination.TailStrip` | src/components/navigation-buttons.ts:23-28 | The left-ellipsis-only branch, built from a five-page run, is exactly page 1, an ellipsis, and pages `total-4 .. total`. It is well formed and shows the current page and its neighbours when the current page is real. |
| `Pagination.MiddleStrip` | src/components/navigation-buttons.ts:30-34 | The two-ellipsis branch, where the window is `current-1, current, current+1`, is exactly `1 … current-1 current current+1 … total`. It is well formed and shows the current page and both its neighbours. |
| `Pagination.PageRunMembers` | src/components/navigation-buttons.ts:7 | A run shows page `n` exactly when `first <= n < first + count`. |
| `Pagination.OccurrencesOnce` | src/components/navigation-buttons.ts:19-34 | In any strip whose pages strictly increase, a page that is shown appears exactly once. |
| `Pagination.CurrentPageShownOnce` | src/components/navigation-buttons.ts:19-34 | The current page appears exactly once in the strip when `1 <= currentPage <= totalPages`, and not at all otherwise. |
| `Pagination.DecodeEncode` | src/components/navigation-buttons.ts:1 | Reading the integer list back undoes writing it if and only if no page token is the sentinel `-1`. |
| `Pagination.EncodeDecode` | src/components/navigation-buttons.ts:1 | Every integer list reads back to tokens that write out to the same list. |
| `Pagination.StripSurvivesEncoding` | src/components/navigation-buttons.ts:1-37 | The strip never contains the sentinel as a page, so the integer list the component builds reads back to exactly the strip. |
| `Pagination.FirstOfTen` | src/components/navigation-buttons.ts:19-21 | Page 1 of 10 gives `1 2 3 4 5 … 10`. |
| `Pagination.SecondOfTen` | src/components/navigation-buttons.ts:19-21 | Page 2 of 10 also gives `1 2 3 4 5 … 10`: its left neighbour is page 1, so no left ellipsis is shown. |
| `Pagination.FifthOfTen` | src/components/navigation-buttons.ts:30-34 | Page 5 of 10 gives `1 … 4 5 6 … 10`. |
| `Pagination.LastOfTen` | src/components/navigation-buttons.ts:23-28 | Page 10 of 10 gives `1 … 6 7 8 9 10`. |
| `Pagination.SixOfSix` | src/components/navigation-buttons.ts:6-8 | Six pages are listed in full. |
| `Pagination.OneAndNoPages` | src/components/navigation-buttons.ts:6-8 | One page gives `[1]`, and a count of 0 gives nothing. |
| `Controller.UpdateInputAttributes` | src/components/navigation-buttons.ts:150-153 | An absent `current-page` or `total-pages` attribute reads as 1; a present one reads as its value. |
| `Controller.SetAttribute` | src/components/navigation-buttons.ts:144 | Setting an observed attribute changes that attribute to the new value and leaves the other one alone. |
| `Controller.Render` | src/components/navigation-buttons.ts:184-213 | Previous is disabled if and only if `currentPage == 1`; next is disabled if and only if `currentPage >= totalPages`. Rendering the sentinel-encoded list yields, at each place, the item its token stands for. Exactly one page button is active when `1 <= currentPage <= totalPages`, and none otherwise. |
| `Controller.RenderedItemsFollowTokens` | src/components/navigation-buttons.ts:194-212 | For any strip free of the sentinel, the per-entry rendering turns each ellipsis into a span and each page into a button, active exactly when it equals the current page. The number of active buttons equals the number of times the current page occurs. |
| `Controller.ActiveCountMatches` | src/components/navigation-buttons.ts:207-209 | Items that follow their tokens one for one carry as many active marks as the current page has occurrences. |
| `Controller.ResolveClick` | src/components/navigation-buttons.ts:155-182 | A click requests a page if and only if it landed in an enabled button with a `data-page` value, and that value's page (current − 1 for previous, current + 1 for next, the number itself otherwise) is in `1..totalPages` and differs from the current page. Any requested page therefore satisfies those bounds. |
| `Controller.ClickOnItem` | src/components/navigation-buttons.ts:155-212 | On a rendered page list, clicking an ellipsis or the active page requests nothing. Clicking any other page button requests exactly that page. |
| `Controller.ClickOnPageButton` | src/components/navigation-buttons.ts:171-176 | A button for a page in `1..totalPages` requests that page unless it is the current page. |
| `Controller.ArrowsLiveIffEnabled` | src/components/navigation-buttons.ts:167-186 | For a current page in `1..totalPages`, the previous arrow requests `currentPage - 1` exactly when it is enabled, and the next arrow requests `currentPage + 1` exactly when it is enabled. The arrows carry the flags `Render` puts in the view. A disabled arrow requests nothing. |
| `Controller.PreviousEnabledButInertBelowRange` | src/components/navigation-buttons.ts:167-185 | With current page 0 of 10, previous is enabled yet a click on it requests nothing, because only page 1 disables it. |
| `Controller.Refresh` | src/components/navigation-buttons.ts:146-147 | Re-reading the attributes and rendering leaves an element whose state matches its attributes and whose view is the rendering of that state. |
| `Controller.Step` | src/components/navigation-buttons.ts:134-182 | A click never changes the element and emits exactly the page `ResolveClick` gives. That is a real page other than the current one, and only clicks emit. An attribute change is always recorded, and no other event writes the attributes. Setting an attribute to the value it already has changes nothing else. Connecting, or changing a value, leaves the state read from the attributes and re-renders it, even if the element was out of step before. Every event keeps a consistent element consistent. |
| `Controller.UnchangedValueGuardIsSound` | src/components/navigation-buttons.ts:144-148 | Once the element has rendered, a refresh for an unchanged value would rebuild the identical element, so the early return loses nothing. |
| `Controller.Run` | src/components/navigation-buttons.ts:134-182 | After any sequence of events, the attributes are exactly those the host set (`HostAttributes`, which folds each attribute change in order). A consistent element stays consistent. It emits exactly the pages its clicks ask for, each resolved against the attributes set by that time (`ClickRequests`), and every emitted page is at least 1. An element that has rendered, or that receives a connect event, ends with a view. |
| `Controller.RunFromConstructed` | src/components/navigation-buttons.ts:112-113 | Starting from a constructed element (page 1 of 1, no attributes), after any sequence of events, the attributes are those the host set and the state matches them. Once rendered, the view matches the state, and the pages emitted are exactly those the clicks ask for. If a connect event occurs, the element ends showing the rendering of the host's attributes. |
| `Controller.ClicksOnlyRequest` | src/components/navigation-buttons.ts:155-182 | Any run of clicks leaves the element unchanged. Every page it requests lies in `1..totalPages` and differs from the current page. |

## Left out

- The template markup and CSS (src/components/navigation-buttons.ts:39-109), the shadow root, `querySelector`, clearing the container and building the document fragment: presentation only. The view is the list of items in display order.
- `customElements.define`, and adding and removing the click listener in `connectedCallback`/`disconnectedCallback`: host plumbing. Clicks are modelled whenever they arrive, and disconnection is not an event.
- `CustomEvent` dispatch with `bubbles`/`composed`: the request is the `Option<int>` a click returns.
- `parseInt` on attribute strings: attributes are modelled already read as integers (`Option<int>`, absent = 1). A non-numeric value, which the code turns into `NaN`, is not modelled, because `NaN` is not an integer.
- Step: the `oldValue === newValue` guard compares strings in the code, but compares the parsed integers in the model. Two spellings of one number, such as `"05"` and `"5"`, cause one redundant refresh in the code and none in the model; that refresh would rebuild the same element (`Controller.UnchangedValueGuardIsSound`).
- `closest('button')`: a click is given as the nearest enclosing button, or none. A page button's `data-page` text is `String(n)`, which `parseInt` reads back as `n`. That text is modelled directly as `NumberLabel(n)`.
- JavaScript numbers are doubles. The model uses unbounded integers, so page numbers beyond 2^53 are not modelled.
- src/components/navigation-buttons-old.ts, the superseded variant: it only wires the DOM and emits direction strings instead of pages.
- webpack.config.cjs: bundling and dev-server configuration with no behaviour.
