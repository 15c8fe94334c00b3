# Avatar collection gallery — a Dafny model of its core

The gallery is a single browser script (`script.js`). It fetches a list of avatars, sorts it by rarity and then attribute, and shows it as rarity groups holding attribute groups of tiles. A search box and three selectors (rarity, attribute, ownership) filter what is shown. A click on a tile toggles whether the user owns that avatar. The owned set is kept in the browser's local storage. Two counters are shown. The owned counter counts the owned avatars that pass the text, rarity and attribute tests, whatever the ownership selector says, so with 'not-owned' selected it counts avatars that are not shown. The total counter shows how many avatars a redraw displayed; after a toggle it shows the length of the whole list.

This project models that core and proves properties of it:

- `Avatars`: the avatar record, the fixed rarity and attribute ranks, the sort comparator and the attribute label table.
- `Catalog`: the sort, as a stable insertion sort in place on an array. It is proved equal to the specification function `SortAvatars`. That function is proved to be a sorted permutation that keeps the input order within each (rarity, attribute) class. It is also the only ordering with those properties, so any stable sort with this comparator yields the same list.
- `Filtering`: the four filter tests, the selected list and the owned-and-matching count.
- `Render`: the grouping walk of `renderAvatars`, a loop that builds a declarative view (groups, sections, tiles). Also the re-marking of a tile when ownership toggles.
- `Ownership`: the owned set, modelled as a duplicate-free sequence because a JavaScript `Set` iterates in insertion order. Also toggling, and the stored entry with its save and load.
- `Gallery`: the page as a class. Its fields are the avatar list, the owned set, the container contents, the two counters and the storage object. Its handlers are the initialisation, the display refresh, the counter update, the toggle, and save/load.
- `Seqs` and `Wrappers`: a generic order-preserving filter with its lemmas, and an `Option` type.

Three behaviours of the code that a reader might not expect, all modelled as the code has them:

- Toggling an owned id twice restores the set but not, in general, the stored array. The id goes back in at the end of the insertion order (`Ownership.ToggleTwiceOrder`, `Ownership.ToggleTwiceReorders`). Unless it was already last (`Ownership.ToggleTwiceLastRestores`), the two stored arrays are equal only as sets.
- Text in storage that is not valid JSON makes `JSON.parse` throw. The exception reaches the `catch` of the initialisation, which shows the load-failure message. It is not treated as an empty set.
- After a toggle the container is not redrawn. The tile only gets or loses its owned marker, and the total counter shows the size of the whole list, not the number of shown tiles (script.js:179, 198).

## Model

| member | source | states |
|---|---|---|
| Avatars.RarityRank | script.js:13 | the rarity rank is one of 0..3 |
| Avatars.AttributeRank | script.js:14-16 | the attribute rank is one of 0..5 |
| Avatars.RanksAndCodesInjective | script.js:13-16 | distinct rarities and attributes have distinct ranks and distinct codes, so the tables order every code |
| Avatars.Compare | script.js:26-30 | the comparator is negative exactly when a is first by rarity rank, or by attribute rank at equal rarity; it is zero exactly when rarity and attribute are equal |
| Avatars.CompareTotalPreorder | script.js:26-30 | the comparator is antisymmetric and `<= 0` is transitive, so it is a consistent sort order |
| Avatars.AttributeName | script.js:215-225 | a key in the label table maps to its label; any other key is returned unchanged, and only such keys are |
| Avatars.AttributeLabelsOfCodes | script.js:215-225 | the table keys are exactly the six attribute codes; each label is one character; distinct attributes get distinct labels |
| Catalog.SortInPlace | script.js:26-30 | the array, sorted in place, equals the specification sort of its old contents |
| Catalog.InsertInPlace | script.js:26-30 | one insertion step: the prefix gains element i at its sorted place and the suffix is untouched |
| Catalog.SortAvatarsPermutes | script.js:26 | sorting returns a permutation of the fetched list |
| Catalog.SortAvatarsSorted | script.js:26-30 | the sorted list is ordered by the comparator |
| Catalog.SortedMeansRarityThenAttribute | script.js:26-30 | in a sorted list the rarity rank never decreases, and within equal rarity the attribute rank never decreases |
| Catalog.SortAvatarsStable | script.js:26 | avatars with equal rarity and attribute keep their fetch order |
| Catalog.SortedByClassUnique | script.js:26-30 | two sorted lists with the same subsequence per (rarity, attribute) class are equal |
| Catalog.StableSortIsSortAvatars | script.js:26-30 | every sorted list that keeps each class in fetch order is the model's sort, so any stable sort gives the same list |
| Catalog.InsertPermutes | script.js:26 | inserting adds exactly the inserted avatar to the multiset |
| Catalog.InsertSorted | script.js:26-30 | inserting into a sorted list keeps it sorted |
| Catalog.InsertStable | script.js:26 | inserting places the new avatar after every earlier avatar of its class |
| Filtering.SelectMembers | script.js:47-65 | an avatar is selected iff it is in the list and passes the text test (empty query, or the lower-cased name contains the lower-cased query), the rarity test ('all' or equal), the attribute test ('all' or equal) and the ownership test ('owned' needs owned, 'not-owned' needs not owned, any other value admits all) |
| Filtering.SelectIsSubsequence | script.js:47 | the selection keeps the list order: it is a subsequence of the list |
| Filtering.SelectUnconstrained | script.js:48-63 | with an empty query, both key selectors at 'all' and no ownership constraint, the selection is the whole list |
| Filtering.SelectKeepsSorted | script.js:47 | selecting from a sorted list gives a sorted list |
| Filtering.ContainsIff | script.js:48 | the substring test holds iff the query occurs at some position of the name |
| Filtering.LowerFacts | script.js:42-48 | lower-casing keeps the length, maps only the empty string to empty, and is idempotent |
| Filtering.OwnedMatchingIgnoresSelector | script.js:199-209 | the owned count's list is the selection with the ownership selector at 'owned', whatever the selector's actual value |
| Filtering.SelectKeepsUniqueIds | script.js:47-65 | selecting from a list with distinct ids gives a list with distinct ids |
| Filtering.OwnershipSplit | script.js:199-209 | with no ownership constraint, the shown count is the owned count plus the not-owned count |
| Render.RenderAvatars | script.js:71-143 | the view renders the list (`Renders`): it is the empty-result message iff the list is empty; otherwise it is well formed (non-empty groups, every tile of a group has its rarity and its section's attribute, neighbours differ) and its tiles, in order, are the items, each marked owned iff its id is in the set |
| Render.RendersUnique | script.js:71-143 | at most one view renders a given list |
| Render.HeadingsInjective | script.js:98-112 | two rarity headings are equal iff the rarities are, and two attribute headings iff the attributes are |
| Render.HeadingsOfView | script.js:87-112 | in a well-formed view each rarity heading differs from the previous group's, and each attribute heading from the previous section's in its group |
| Render.RenderBreaks | script.js:86-118 | a rarity group starts at index j iff j is 0 or the rarity differs from item j-1's; an attribute group starts iff j is 0 or the rarity or the attribute differs |
| Render.RarityBreaks | script.js:87-100 | in a well-formed view the rarity groups start exactly at the rarity breaks of its tiles |
| Render.AttributeBreaks | script.js:89-118 | the attribute groups start exactly where the rarity or the attribute changes |
| Render.ViewsUnique | script.js:71-143 | two well-formed views with the same tiles are equal, so the walk's output is the only grouping of its input |
| Render.GroupsUnique | script.js:86-118 | two well-formed group lists with the same tiles are equal |
| Render.SectionsUnique | script.js:102-118 | two well-formed attribute-group lists of one rarity with the same tiles are equal |
| Render.PlaceInCurrent | script.js:120-141 | a tile of the current rarity and attribute joins the last section; the view stays well formed and gains exactly that tile |
| Render.PlaceInNewSection | script.js:102-118 | a tile of a new attribute opens a section in the current group; the view stays well formed and gains exactly that tile |
| Render.PlaceInNewGroup | script.js:87-100 | a tile of a new rarity opens a group and a section; the view stays well formed and gains exactly that tile |
| Render.MarkTileAtFacts | script.js:173-176 | re-marking tile k sets its owned marker to the flag and changes no other tile and no other field |
| Render.MarkGroupTiles | script.js:173-176 | re-marking the k-th tile of a group list, counted in document order, re-marks exactly the k-th of its tiles |
| Render.MarkWellFormed | script.js:173-176 | re-marking the k-th tile keeps the view well formed, keeps the empty-result message as it is, and re-marks exactly the k-th tile of its document-order tiles |
| Render.MarkAfterToggle | script.js:170-177 | after a toggle of the clicked tile's id, re-marking only the clicked tile k turns the rendering under the old set into the rendering under the new set exactly when no other shown tile carries that id |
| Render.UniqueIdsOnlyTile | script.js:170-177 | when the shown avatars have distinct ids, the clicked tile is the only one carrying its id |
| Ownership.Without | script.js:172 | deleting an id gives the set filtered by `x != id`, so the other ids keep their insertion order; exactly that id goes, the set stays duplicate-free, and nothing changes when it is absent |
| Ownership.ToggleFlips | script.js:171-177 | toggling makes the id owned iff it was not, leaves every other id as it was, and keeps the set duplicate-free |
| Ownership.ToggleTwiceSameSet | script.js:171-177 | toggling the same id twice restores the owned set |
| Ownership.ToggleTwiceOrder | script.js:171-188 | toggling twice restores the exact order when the id was absent, and moves it to the end when it was present |
| Ownership.ToggleTwiceLastRestores | script.js:171-188 | when the toggled id is the last one inserted, two toggles give back the exact stored array |
| Ownership.ToggleTwiceReorders | script.js:171-188 | for ["a", "b"], toggling "a" twice stores ["b", "a"]: the same set in a different order |
| Ownership.Dedup | script.js:194 | `new Set(array)` is duplicate-free, has exactly the array's ids, and is a subsequence of the array |
| Ownership.FirstIndex | script.js:194 | the first position of an id in the array: it holds the id and no earlier position does |
| Ownership.DedupFirstOrder | script.js:194 | the ids of `new Set(array)` come in the order of their first occurrences in the array |
| Ownership.DedupOfDistinct | script.js:194 | a duplicate-free array comes back unchanged, in its order |
| Ownership.Load | script.js:191-196 | a stored array loads (deduplicated, same ids); a missing or empty entry keeps the set; unparsable text throws |
| Ownership.LoadAfterSave | script.js:187-196 | loading what was saved restores the set in its order |
| Gallery.CountOwnedMatching | script.js:199-209 | the counting loop gives the number of listed avatars that pass the text, rarity and attribute tests and are owned, which is also the size of the selection under 'owned' |
| Gallery.Page.UpdateCounts | script.js:198-213 | the owned counter shows the owned-and-matching count; the total shows the given count, or the list length when none is given; nothing else changes |
| Gallery.Page.UpdateAvatarDisplay | script.js:41-69 | the container renders the selection under the current set; the total is the selection's size; the owned counter is the owned-and-matching count; distinct list ids give distinct shown ids |
| Gallery.Page.SaveOwned | script.js:187-189 | the storage entry is the owned ids in insertion order |
| Gallery.Page.LoadOwned | script.js:191-196 | a stored array replaces the set with its first occurrences; a missing or empty entry keeps it; unparsable text fails and keeps it |
| Gallery.Page.Initialize | script.js:18-39 | on a fetched list: the list becomes its sorted form, the set is loaded, and the page renders the selection; a fetch failure or unparsable storage shows the error instead and leaves the counters alone; distinct list ids give distinct shown ids |
| Gallery.ToggleOutcome | script.js:170-177 | a click on tile k flips its id's membership and no other, keeps the set duplicate-free and the view well formed; a view that rendered the shown list under the old set renders it under the new set iff no other shown tile carries the id, and always when the shown ids are distinct |
| Gallery.Page.Toggle | script.js:170-185 | the clicked tile k gives the id; the set becomes the toggled set, whose membership flips for that id only; only tile k's marker changes, to the new membership; storage holds the new set; the counters show the owned-and-matching count and the whole list's length; the container still renders the shown list iff no other shown tile carries the id, so always when shown ids are distinct |
| Gallery.Page.constructor | script.js:10-11 | the page starts with an empty list, an empty owned set and an empty container |
| Gallery.Reload | script.js:187-196 | saving then loading a fresh page on the same storage brings back the saved set, in its order |

## Left out

- Fetching `avatars.json` and decoding its JSON are not modelled. The decoded list is a parameter, and `None` stands for a failed fetch, a bad status or a decoding error.
- The error message's markup and `console.error` are not modelled; the failed state is `LoadFailed`.
- DOM details are not modelled: element creation, class names, the `innerHTML` templates, image paths and click listeners. The view keeps only groups, sections and tiles. Each tile keeps its fields, its attribute label and its owned marker. The clicked element is identified by its position among the tiles in document order.
- Gallery.Page.SaveOwned: storage reads and writes are modelled as never throwing. In the source `localStorage.setItem` (script.js:188) can throw, for instance on a full quota or disabled storage. In `toggleOwnership` the set and the clicked tile's class have then already changed, `updateCounts` and the gray effect are skipped, and the old entry stays stored; `Gallery.Page.Toggle` does not model that outcome. A throwing `localStorage.getItem` (script.js:192) reaches the `catch` at script.js:34-37 and ends like an `Unparsable` entry; `Entry` has no separate value for it.
- Gallery.Page.Toggle: the source changes the class of the clicked element only. When the list repeats an id and both tiles are shown, the other tile keeps its old marker, as in the source. So the container is promised to show the list under the new set only when no other shown tile carries the clicked id, for instance when the list's ids are distinct. Distinct ids are not required of the fetched list.
- The heading texts are the functions `Render.RarityHeading` and `Render.AttributeHeading` of a group's rarity and a section's attribute. They are not fields of the view.
- The `if (avatarGrid)` guard at script.js:121 always holds, because a section's grid is created with the section. The model has no separate grid element.
- Image-load counting and the `postMessage` height notice (script.js:145-167, 235-242) are left out: they are browser events and cross-frame messaging.
- The 150 ms `gray-effect` timer (script.js:181-184) is left out: it is a cosmetic, timer-driven effect.
- Filtering.LowerFacts: `toLowerCase` is modelled for ASCII letters only, and `includes` as a plain substring test on characters. No Unicode case mapping is modelled.
- Avatars.Compare: rarity or attribute codes outside the two tables are not modelled; the comparator would yield `NaN` for them. Avatars carry enum values.
- Ownership.Load: `JSON.parse` is not modelled. The storage entry is an abstract value: an id array, the empty string, a missing entry, or unparsable text. Valid JSON that is not an array of strings is not modelled.
- Avatars.AttributeName: lookups of inherited object keys such as `constructor` are not modelled. The table is a plain map.
- Catalog.SortInPlace: this is the model's insertion sort, not the engine's sort algorithm. `Catalog.StableSortIsSortAvatars` shows that every stable sort by this comparator gives the same list. The list is sorted on a fresh array and then stored back as a sequence in `Gallery.Page.Initialize`.
- Event wiring (script.js:228-233) is not modelled as code. The handlers are methods, and the control values are the `Criteria` passed to them.
