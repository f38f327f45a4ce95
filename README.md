# MainPage post board, modelled in Dafny

This project models the page component `MainPage` of a small client-side blog
manager. The component keeps a list of posts in memory and a copy of that list
in local storage under the key `"posts"`. It creates, edits and deletes posts,
searches them by title without regard to case, and shows ten posts per page.

Modules, from the bottom up:

- `Wrappers` (`wrappers.dfy`): `Option`. It stands for `IPost | null` and for a storage key that is absent.
- `ArrayOps` (`array_ops.dfy`): the JavaScript builtins `Array.prototype.filter` and `Array.prototype.slice`.
  - `filter` is proved to select exactly the kept positions, in increasing order.
  - `slice` clamps negative and too-large indices the way the language does.
- `Text` (`text.dfy`): `toLowerCase` (ASCII letters only) and `String.prototype.includes`.
  - `includes` is proved equal to "occurs at some position".
- `Posts` (`posts.dfy`): the `Post` record and the list operations the handlers use.
  - Delete by id is a `filter`, replace by id a `map`, and the title search a `filter`.
  - Lemmas about order, membership, no-op cases and id uniqueness sit beside them.
- `Pagination` (`pagination.dfy`): the page window, the page count (a ceiling division) and the button labels.
  - The pages, read in button order, are proved to give back the whole search result.
- `MainPage` (`main_page.dfy`): class `PostBoard`.
  - Its fields are the component's state, plus the stored list.
  - Its methods are the event handlers and the two effects.
  - Client methods at the end run the scenarios of a reload, a cold start, an edit, a cancelled edit and deleting the last post.

Three behaviours of the code are easy to miss:

- `addPost` and `deletePost` write the list to storage unconditionally (`MainPage.tsx:43`, `:54`).
  - So deleting the last post stores `[]`.
  - On a reload, the present key (the text `"[]"` is truthy) is used, and nothing is fetched.
  - Only the change effect (`:86-90`) skips empty lists. `DeleteLastScenario` shows the whole sequence.
- `handleEditing` (`:62-64`) clears only `isEditing`. It keeps `currentPost`.
  - An edit session with no target still cannot arise. `PostBoard.Valid` states this, and every handler keeps it.
- The code does not enforce unique ids.
  - The `Posts` lemmas say when each operation keeps them unique: prepending a fresh id, deleting, or an edit that keeps the id.

The remote fetch (`PostService.fetchData`) is the `fetched` parameter of `Initialize`.

`Initialize` runs as one step: the mount effect and, when storage is empty, the completion of `getTodos`. Local storage and `JSON.stringify`/`JSON.parse` are the field `stored : Option<seq<Post>>`, which holds the parsed list. Every handler runs to completion on the current state.

## Model

| member | source | states |
|---|---|---|
| ArrayOps.Filter | src/screens/MainPage/MainPage.tsx:66-68 | the result is no longer than the input; every element of the result is in the input and passes the test; every input element that passes is in the result |
| ArrayOps.KeptIndicesExact | src/screens/MainPage/MainPage.tsx:52 | the kept positions lie inside the list, and a position is kept exactly when its element passes the test |
| ArrayOps.FilterSelectsKept | src/screens/MainPage/MainPage.tsx:66-68 | the filter result lists the input at the kept positions, in strictly increasing order: an order-preserving subsequence that drops no kept element |
| ArrayOps.FilterKeepsAll | src/screens/MainPage/MainPage.tsx:66-68 | a test that every element passes leaves the list unchanged |
| ArrayOps.FilterIdempotent | src/screens/MainPage/MainPage.tsx:66-68 | filtering twice with one test equals filtering once |
| ArrayOps.FilterAgrees | src/screens/MainPage/MainPage.tsx:66-68 | two tests that agree on the list's elements give the same result |
| ArrayOps.RelativeIndex | src/screens/MainPage/MainPage.tsx:72 | defined as the language's clamp of a slice bound (a negative bound counts back from the end); the position always lies in 0..length |
| ArrayOps.Slice | src/screens/MainPage/MainPage.tsx:72 | `slice` returns no more elements than the list has, no more than end-start when start <= end, and only elements of the list; its value for non-negative bounds is SliceNonNegative |
| ArrayOps.RelativeIndexSpread | src/screens/MainPage/MainPage.tsx:72 | raising a slice bound by d moves its position right by at most d |
| ArrayOps.SliceNonNegative | src/screens/MainPage/MainPage.tsx:70-72 | with 0 <= start <= end, the slice is the subsequence between the bounds capped at the length; it has at most end-start elements and is empty exactly when start reaches the length or the end |
| Text.LowerChar | src/screens/MainPage/MainPage.tsx:67 | ASCII lower-casing of one character: the result is never an upper-case ASCII letter |
| Text.Lower | src/screens/MainPage/MainPage.tsx:67 | lower-casing keeps the length and lower-cases each character in place |
| Text.LowerIdempotent | src/screens/MainPage/MainPage.tsx:67 | lower-casing twice equals lower-casing once |
| Text.LowerConcat | src/screens/MainPage/MainPage.tsx:67 | lower-casing distributes over concatenation |
| Text.Includes | src/screens/MainPage/MainPage.tsx:67 | a string includes only substrings no longer than itself |
| Text.IncludesIffOccurs | src/screens/MainPage/MainPage.tsx:67 | `includes` holds if and only if the substring occurs at some position |
| Text.IncludesEmpty | src/screens/MainPage/MainPage.tsx:67 | every string includes the empty string |
| Posts.OtherThan | src/screens/MainPage/MainPage.tsx:52 | the delete test: it holds of a post exactly when the post's id differs from the given one |
| Posts.WithoutId | src/screens/MainPage/MainPage.tsx:52 | defined as Filter(posts, OtherThan(id)): no longer than the list, every remaining post comes from it and has another id; full meaning in DeleteKeepsOthersInOrder |
| Posts.DeleteKeepsOthersInOrder | src/screens/MainPage/MainPage.tsx:52 | after a delete, the list is exactly the posts with another id, in their original relative order; a post is in it if and only if it was in the list and has another id |
| Posts.DeleteMissingIsNoOp | src/screens/MainPage/MainPage.tsx:52 | deleting an id that no post carries leaves the list unchanged |
| Posts.DeletePresentRemoves | src/screens/MainPage/MainPage.tsx:52 | deleting a present id strictly shortens the list, and no remaining post carries the id |
| Posts.DeletePreservesUniqueIds | src/screens/MainPage/MainPage.tsx:52 | deleting keeps ids unique |
| Posts.DeleteMiddleExample | src/screens/MainPage/MainPage.tsx:51-53 | deleting B from [A, B, C] with distinct ids gives [A, C] |
| Posts.ReplaceById | src/screens/MainPage/MainPage.tsx:36 | the map keeps length and positions: every post with the edited id becomes the new post, and every other post stays as it was |
| Posts.ReplaceMissingIsNoOp | src/screens/MainPage/MainPage.tsx:36 | replacing an id that no post carries leaves the list unchanged |
| Posts.ReplaceKeepsIds | src/screens/MainPage/MainPage.tsx:36 | an edit that keeps the id keeps every position's id, and so keeps ids unique |
| Posts.PrependPreservesUniqueIds | src/screens/MainPage/MainPage.tsx:40 | prepending a post whose id is not yet present keeps ids unique |
| Posts.IncludesDecidesTitleContains | src/screens/MainPage/MainPage.tsx:67 | for every post, the `includes` test on the lower-cased title holds if and only if the lower-cased query occurs in it at some position |
| Posts.TitleMatches | src/screens/MainPage/MainPage.tsx:67 | the search test: it holds of a post exactly when its lower-cased title contains the lower-cased query at some position |
| Posts.FilterByTitle | src/screens/MainPage/MainPage.tsx:66-68 | `filteredPosts`, defined as Filter(posts, TitleMatches(query)): no longer than the list, and every result comes from it and matches; full meaning in SearchKeepsMatchesInOrder |
| Posts.SearchKeepsMatchesInOrder | src/screens/MainPage/MainPage.tsx:66-68 | the search result is exactly the posts whose lower-cased title contains the lower-cased query at some position, in their original order |
| Posts.EmptyQueryKeepsAll | src/screens/MainPage/MainPage.tsx:66-68 | the empty query keeps every post |
| Posts.SearchIgnoresQueryCase | src/screens/MainPage/MainPage.tsx:67 | two queries with the same lower-case form give the same result |
| Posts.SearchIdempotent | src/screens/MainPage/MainPage.tsx:66-68 | searching the search result again with the same query changes nothing |
| Posts.SearchExample | src/screens/MainPage/MainPage.tsx:66-68 | with titles "Hello World" and "goodbye", the query "HELLO" finds only the first |
| Pagination.PageOf | src/screens/MainPage/MainPage.tsx:70-72 | `currentPosts`, defined as the slice from page*10-10 to page*10: for every page number, negative ones included, at most ten posts, all from the search result; window in PageWindow |
| Pagination.PageCount | src/screens/MainPage/MainPage.tsx:123 | `Math.ceil(length / 10)`: the least count with length <= 10*count, so zero for an empty result |
| Pagination.PageButtons | src/screens/MainPage/MainPage.tsx:122-124 | one label per page, the labels 1 to the page count in order; that each opens a non-empty page is ButtonsShowPosts |
| Pagination.PageWindow | src/screens/MainPage/MainPage.tsx:70-72 | for a page from 1 up, the shown posts are result[(page-1)*10 .. min(page*10, length)]; at most ten of them, exactly ten before the last page, and none once (page-1)*10 reaches the length |
| Pagination.PageNonEmptyIffButton | src/screens/MainPage/MainPage.tsx:122-127 | a page from 1 up shows posts if and only if it is at most the button count |
| Pagination.ButtonsShowPosts | src/screens/MainPage/MainPage.tsx:122-127 | every button label is at least 1 and leads to a non-empty page |
| Pagination.PageZeroEmpty | src/screens/MainPage/MainPage.tsx:70-72 | page 0 shows nothing |
| Pagination.PagesUpToPrefix | src/screens/MainPage/MainPage.tsx:70-72 | pages 1 to k, one after the other, are the first min(10k, length) results |
| Pagination.PagesCoverAll | src/screens/MainPage/MainPage.tsx:122-127 | reading every page in button order gives back the whole search result, each post once and in order |
| Pagination.TwentyFiveExample | src/screens/MainPage/MainPage.tsx:70-72 | 25 results make 3 buttons; page 3 shows 5 posts and page 4 none |
| MainPage.PostBoard.FilteredPosts | src/screens/MainPage/MainPage.tsx:66-68 | defined as FilterByTitle(posts, searchQuery): no longer than `posts`, every result from `posts` and matching the query |
| MainPage.PostBoard.CurrentPosts | src/screens/MainPage/MainPage.tsx:70-72 | defined as PageOf(FilteredPosts(), currentPage): at most ten posts, all from the search result |
| MainPage.PostBoard.Buttons | src/screens/MainPage/MainPage.tsx:122-127 | the page-button labels: as many as the page count, and each opens a non-empty page |
| MainPage.PostBoard.constructor | src/screens/MainPage/MainPage.tsx:13-19 | the initial state: no posts, loading, no edit session, empty query, page 1, and storage as it was found |
| MainPage.PostBoard.SavePostsToLocalStorage | src/screens/MainPage/MainPage.tsx:22-24 | the stored entry becomes the given list, even an empty one; nothing else changes |
| MainPage.PostBoard.AddPost | src/screens/MainPage/MainPage.tsx:33-44 | callable once loading has ended (no form is rendered before); while editing with a target, the target's id is replaced in place and the session is cleared (target included); otherwise the post is prepended and the session is untouched; either way storage then equals the list, and loading and view state are unchanged |
| MainPage.PostBoard.EditPost | src/screens/MainPage/MainPage.tsx:46-49 | opens the session on the post; only the two session fields change |
| MainPage.PostBoard.HandleEditing | src/screens/MainPage/MainPage.tsx:62-64 | callable once loading has ended; only `isEditing` changes, to false; the target is kept |
| MainPage.PostBoard.DeletePost | src/screens/MainPage/MainPage.tsx:51-55 | the list becomes the posts with another id, and storage then equals the list (empty included); the session, loading and view state are unchanged |
| MainPage.PostBoard.Paginate | src/screens/MainPage/MainPage.tsx:74 | only the current page changes |
| MainPage.PostBoard.SetSearchQuery | src/screens/MainPage/MainPage.tsx:114 | only the query changes; the page is not reset to 1 |
| MainPage.PostBoard.Initialize | src/screens/MainPage/MainPage.tsx:76-84 | a present stored entry, even `[]`, becomes the list; otherwise the fetched list does; loading ends false; storage is not written |
| MainPage.PostBoard.PersistOnChange | src/screens/MainPage/MainPage.tsx:86-90 | a non-empty list is stored; an empty list leaves storage as it was |
| MainPage.Reload | src/screens/MainPage/MainPage.tsx:76-80 | a fresh board over a stored list shows that list after loading, whatever the fetch returns |
| MainPage.ColdStart | src/screens/MainPage/MainPage.tsx:26-31 | with nothing stored, the fetched list is shown, and it is stored afterwards only when non-empty |
| MainPage.EditScenario | src/screens/MainPage/MainPage.tsx:33-49 | editing B in [A, B, C] with B' (same id) gives [A, B', C] |
| MainPage.DeleteLastScenario | src/screens/MainPage/MainPage.tsx:51-55 | deleting the only post stores `[]`, and a reload shows no posts |
| MainPage.CancelThenAddScenario | src/screens/MainPage/MainPage.tsx:62-64 | after editing and then cancelling, a save prepends |

The UI handlers (`AddPost`, `EditPost`, `HandleEditing`, `DeletePost`, `Paginate`, `SetSearchQuery`) require `!loading`: while loading, the page renders only an icon (`MainPage.tsx:92-99`), so none of the controls that call them exist yet. No handler except `Initialize` lists `loading` in its frame, and `Initialize` sets it to false. So no operation ever sets `loading` back to true.

## Left out

- JSX rendering, CSS classes and the loading icon (`MainPage.tsx:92-139`): this is presentation. The class functions `FilteredPosts`, `CurrentPosts` and `Buttons` give what is rendered.
- `onComments` (`:57-60`), which calls `router.push` with `URLSearchParams`: navigation and foreign library behaviour, with no state change.
- The internals of `PostForm`, `PostList`, `Search` and `PostService.fetchData`: these are external components, not part of this model. The fetch result is a parameter.
- Local storage and JSON serialisation as real I/O: the stored entry is modelled already parsed, and parsing is taken to invert serialisation. Malformed stored data is not modelled.
- A failing or never-returning fetch: `Initialize` always receives a list.
- React's asynchronous state batching, effect scheduling and `async`/`await`: each handler runs to completion on the current state.
  - The run-once guarantee of the mount effect comes from React's empty dependency list. Nothing in the model prevents calling `Initialize` twice.
  - `PersistOnChange` stands for the effect after a change of `posts`. Only `ColdStart` calls it. Elsewhere the stored list already equals `posts` (`Synced`), so the effect would write the same value or, for `[]`, nothing.
- Text.Lower: lower-cases ASCII letters only, not the full Unicode mapping of `toLowerCase`.
- Post ids and page numbers are unbounded integers. JavaScript numbers (floating point, `NaN`, fractional pages) are not modelled.
