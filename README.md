# Headless MultiSelect, modelled in Dafny

This project models the selection controller of a small React page: the
generic, render-agnostic `MultiSelect<T>` component and the paging of the
page that embeds it (`src/components/MultiSelect.tsx`).

- **Selection store** (`selection_store.dfy`). `isSelected` asks whether some
  selected element has the item's identifier. `toggle` either removes every
  element carrying that identifier or appends the item at the end. The result
  is always a new sequence. The selection belongs to the owner, which stores
  whatever `onChange` hands it.
- **Filter engine** (`filter_engine.dfy`, on top of `text.dfy` and
  `seqs.dfy`). `filteredItems` is a pure function of the items, the query
  text and the searched fields. With an empty query or no fields it returns
  the items unchanged. Otherwise it keeps, in their original order, the
  items for which some field holds a non-empty value whose lower-cased text
  contains the lower-cased query. Each item test is stated twice: once as the
  scan the component performs (`some` over the fields, `includes` on the
  text), and once as a plain existential (`Matches`). The two are proved
  equal.
- **Controller** (`controller.dfy`). A class `MultiSelect` has the
  identifier accessor, the items it was given, the owner's selection, and its
  own query text and searched fields. `Toggle` and `Clear` replace the
  selection, `Search` replaces the query text and the field list together,
  and `Receive` stands for the owner rendering again with new items. Each
  method states its whole new state. `Toggle` also keeps the invariant that
  no identifier occurs twice.
- **Page** (`users.dfy`). The user record, the `id` identifier, the searched
  fields (name, username, email), `PAGE_SIZE = 5`, and which prefix of the
  loaded users the controller receives. It also holds worked scenarios: "an"
  over name and username keeps Anna and drops Bob; toggling an id that is
  already selected removes it; a search, a pick and a clear run through the
  class.

A field accessor has type `T -> Option<string>`. `None` stands for an
undefined or null field. The identifier is an accessor `T -> K`, where `K`
supports equality.

On toggling twice: two toggles restore every selection that lacked the
item's identifier (`ToggleTwiceFromUnselected`). When the identifier was
selected, the first toggle removes every element carrying it and the second
appends the item at the end (`ToggleTwiceFromSelected`). The selection then
comes back exactly when the item was the only element with that identifier
and stood last, as in the common case `[u]` toggled on `u` twice
(`ToggleTwiceRestoresSelected`). Otherwise the item moves to the last
position. In every case `isSelected` flips with each toggle (the contract of
`SelectionStore.Toggle`).

## Model

| member | source | states |
|---|---|---|
| `Seqs.Any` | src/components/MultiSelect.tsx:46 | `some` is true exactly when some element satisfies the test |
| `Seqs.Filter` | src/components/MultiSelect.tsx:73 | `filter` returns an order-preserving subsequence whose elements all pass the test |
| `Seqs.FilterCounts` | src/components/MultiSelect.tsx:73 | every element that passes the test is kept as often as it occurs, and no failing element is kept |
| `Text.Contains` | src/components/MultiSelect.tsx:77 | `includes` is true exactly when the needle occurs at some index of the text |
| `Text.LowerChar` | src/components/MultiSelect.tsx:71 | the result is never an ASCII capital. A capital maps to the small letter at the same place in the alphabet, and every other character is unchanged |
| `Text.Lower` | src/components/MultiSelect.tsx:71 | no capital remains in the result, a string without capitals is returned unchanged, and each character is folded in its own place |
| `Text.LowerIdempotent` | src/components/MultiSelect.tsx:71-77 | lower-casing an already lower-cased string changes nothing |
| `SelectionStore.IsSelected` | src/components/MultiSelect.tsx:45-47 | true exactly when some element of the selection has the item's identifier |
| `SelectionStore.Toggle` | src/components/MultiSelect.tsx:49-55 | membership of the item's identifier flips. If it was selected, the result is an order-preserving subsequence of the selection with every element of that identifier removed and all other elements kept. Otherwise the result is the old selection followed by the item |
| `SelectionStore.ToggleTwiceFromUnselected` | src/components/MultiSelect.tsx:49-55 | toggling an unselected item twice gives back the original selection |
| `SelectionStore.ToggleTwiceFromSelected` | src/components/MultiSelect.tsx:49-55 | toggling a selected item twice gives the selection without that identifier, with the item at the end |
| `SelectionStore.ToggleTwiceRestoresSelected` | src/components/MultiSelect.tsx:49-55 | toggling a selected item twice gives the selection back if and only if the item is its last element and no other element has the item's identifier |
| `SelectionStore.ToggleLeavesOtherKeys` | src/components/MultiSelect.tsx:49-55 | toggling one item leaves the membership of every other identifier unchanged |
| `SelectionStore.TogglePreservesUniqueKeys` | src/components/MultiSelect.tsx:49-55 | a selection with no repeated identifier keeps that property after a toggle |
| `SelectionStore.FilterPreservesUniqueKeys` | src/components/MultiSelect.tsx:51 | removing elements from a selection with no repeated identifier cannot introduce one |
| `FilterEngine.FieldMatches` | src/components/MultiSelect.tsx:75-77 | one field matches exactly when its value is present and non-empty and the lower-cased query occurs in its lower-cased text |
| `FilterEngine.MatchesSomeField` | src/components/MultiSelect.tsx:74-78 | the `some` scan over the searched fields is true exactly when some field of the item matches the lower-cased query |
| `FilterEngine.FilterItems` | src/components/MultiSelect.tsx:66-80 | with an empty query or no fields the items come back unchanged. In every case the view is an order-preserving subsequence of the items |
| `FilterEngine.MatchesSomeFieldIsMatches` | src/components/MultiSelect.tsx:73-78 | the scan over the fields (skip a missing or empty value, then lower-case it and test `includes`) decides exactly whether some field's non-empty lower-cased value contains the lower-cased query |
| `FilterEngine.FilterKeepsExactlyMatches` | src/components/MultiSelect.tsx:71-79 | with a query and at least one field, an item is in the view if and only if it is in the items and matches. A matching item appears as often as in the items |
| `FilterEngine.MatchesUnion` | src/components/MultiSelect.tsx:74-78 | an item matches a concatenated field list exactly when it matches either part |
| `FilterEngine.FilterUnion` | src/components/MultiSelect.tsx:73-79 | for two non-empty field lists, the view over their concatenation holds exactly the items of either view |
| `FilterEngine.FilterIgnoresQueryCase` | src/components/MultiSelect.tsx:71 | lower-casing the query first leaves the view unchanged |
| `FilterEngine.FieldMatchesIgnoresValueCase` | src/components/MultiSelect.tsx:75-77 | lower-casing a field value first does not change whether it matches |
| `FilterEngine.FilterItemsIdempotent` | src/components/MultiSelect.tsx:66-80 | filtering the view again with the same search gives the same view |
| `Controller.MultiSelect.constructor` | src/components/MultiSelect.tsx:35-43 | mounts with the owner's items and selection, an empty query and no fields, so the view equals the items. A seed selection without repeated identifiers starts valid |
| `Controller.MultiSelect.FilteredItems` | src/components/MultiSelect.tsx:85 | the view handed to the render callback equals the items while no search is active, and is always an order-preserving subsequence of them |
| `Controller.MultiSelect.IsSelected` | src/components/MultiSelect.tsx:87 | the predicate handed to the render callback is true exactly when some element of the owner's selection has the item's identifier |
| `Controller.MultiSelect.Toggle` | src/components/MultiSelect.tsx:49-55 | the selection becomes the toggled selection and nothing else changes. `IsSelected` of the item flips, and a valid selection stays valid |
| `Controller.MultiSelect.Clear` | src/components/MultiSelect.tsx:57-59 | the selection becomes empty whatever it held, and only the selection changes |
| `Controller.MultiSelect.Search` | src/components/MultiSelect.tsx:61-64 | the query text and the searched fields are both replaced and nothing else changes. With an empty query or no fields the view is the items. A valid selection stays valid |
| `Controller.MultiSelect.Receive` | src/components/MultiSelect.tsx:180 | the owner's new items replace the old ones, and the selection and search state are kept, so a valid selection stays valid |
| `Users.SearchedFields` | src/components/MultiSelect.tsx:201 | the page searches three fields, in order name, username and email, each read as a present string |
| `Users.VisibleCount` | src/components/MultiSelect.tsx:148 | the count is the number of loaded users when expanded and `PAGE_SIZE` when collapsed |
| `Users.Prefix` | src/components/MultiSelect.tsx:180 | `slice(0, end)` gives the first `end` elements, or the whole sequence when `end` exceeds its length |
| `Users.VisibleUsers` | src/components/MultiSelect.tsx:148-180 | the controller receives a prefix of the loaded users (`visibleCount` at line 148, `slice` at line 180). It is the first `min(PAGE_SIZE, n)` users when collapsed and all of them when expanded |
| `Users.ExpandingShortListChangesNothing` | src/components/MultiSelect.tsx:271-277 | with at most `PAGE_SIZE` users, expanding does not change what is shown. This is when the toggle button is hidden |
| `Users.QueryFindsOtherCase` | src/components/MultiSelect.tsx:71-77 | the query "ann" matches the field value "Anna" |
| `Users.SearchKeepsOnlyAnna` | src/components/MultiSelect.tsx:66-80 | searching "an" over name and username turns [Anna, Bob] into [Anna] |
| `Users.PageSearchKeepsOnlyAnna` | src/components/MultiSelect.tsx:200-202 | the page's own search over name, username and email turns [Anna, Bob] into [Anna] for the query "an" |
| `Users.Walkthrough` | src/components/MultiSelect.tsx:178-203 | end to end through the class: the page's search "an" over [Anna, Bob] shows [Anna], picking her makes the selection [Anna], and clearing (twice) leaves it empty |
| `Users.ToggleSameIdRemoves` | src/components/MultiSelect.tsx:49-51 | toggling a user with the same id as the one selected empties the selection instead of adding a duplicate |

## Left out

- The fetch of the users, its `AbortController` cancellation, and the mapping from JSON to `User` (src/components/MultiSelect.tsx:109-146). These are network I/O and asynchronous effects. The `loading` and `error` flags that gate the controller are left out for the same reason.
- All JSX rendering, CSS classes and the children render callback (src/components/MultiSelect.tsx:82-93, 150-290). They are presentation only. The show-more button's `setExpanded` appears only as the `expanded` parameter of `Users.VisibleUsers`.
- React's `useState`/`useMemo` scheduling and caching. The view is modelled as a function of the current state (`FilteredItems`). A cached value equal to that function is not observable, so the dependency-gated recomputation is not modelled. State updates are taken to be visible immediately.
- The `onChange` callback is not a separate entity. The owner's `setSelected` (line 182) is modelled as the assignment to `selection` in `Toggle` and `Clear`.
- `Text.LowerChar`, `Text.Lower`: `toLowerCase` folds only the ASCII capitals A-Z in this model, one character to one character, so `Text.Lower` keeps the length of its input. JavaScript folds all of Unicode, and its mappings that change a string's length (for example "İ", which lowers to two code units) are not modelled.
- `FilterEngine.FieldMatches`: a field accessor returns an optional string. JavaScript truthiness of other values (a numeric 0, `false`), and `String(...)` of numbers and objects such as `company`, are not modelled.
- `Users.User`: the nested `company.name` and `address.city` are flattened to strings. They are not searched by the page.
- src/components/Counter.tsx is not part of this model. Its `heavyCalc` is a floating-point loop of 50,000,000 steps, and the rest is React memoisation, logging, and items made from the clock and a random number.
- src/App.tsx is not part of this model. It only composes the two components for rendering.
