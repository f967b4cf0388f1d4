# Bookmark tree transformation engine, in Dafny

A model of the four recursive walks at the heart of the Boomarks browser
extension, and the properties they keep. The walks run over a forest of browser
bookmark nodes:

- **Export** (`processForExport` and its envelope). It projects every node onto
  `{title, url, dateAdded, children}`, and wraps the whole `getTree()` array in
  `{version: 1, timestamp, bookmarks}`.
- **Import** (`importBookmarks`). It walks a parsed document in pre-order and
  issues one `browser.bookmarks.create` per node it reaches. A node with a
  truthy `url` becomes a bookmark. Any other node becomes a folder, and its
  non-empty `children` follow under the id the store returned.
- **Delete** (`deleteFolderRecursively` and the delete button's handler). It
  walks a subtree in post-order and issues one `browser.bookmarks.remove` per
  node. The store root `'root________'` is skipped.
- **Flatten** (`flattenBookmarks`) and the popup's **search filter**. Flatten
  gives a pre-order list of `{title: title || url, url}` records, one per node
  with a truthy `url`. The filter keeps the records whose lower-cased title or
  url includes the lower-cased query.

The files:

| file | module | contents |
|---|---|---|
| `tree.dfy` | `BookmarkTree` | the node datatype, JavaScript truthiness of `url`, pre- and post-order |
| `calls.dfy` | `StoreCalls` | store calls, walks that stop at the first rejected call, `Executes` and `Run` |
| `export.dfy` | `Serializer` | `processForExport` and the export document |
| `import.dfy` | `Importer` | `importBookmarks`, its plan of creates, and the round trip with export |
| `remove.dfy` | `Remover` | `deleteFolderRecursively`, its manage.js copy, and the delete handler |
| `flatten.dfy` | `Flattener` | `flattenBookmarks`, as a function and as the accumulating method |
| `search.dfy` | `SearchFilter` | lower-casing, `includes`, and the filter |

How the store is modelled. Every store call is awaited before the next one, and
a rejected call throws out of the whole chain. Nothing already done is rolled
back. A walk therefore ends in one of two ways:
- `Completed(calls)`: every call took effect;
- `Aborted(applied, failed)`: the applied prefix took effect, and `failed` was
  the call the store rejected.

The store itself is not modelled. It is given by its answers, indexed by call
number: the set of call numbers it accepts and, for creates, the id each
accepted create returns. Both store walks are proved equal to `Run` of an
explicit plan of calls, which issues the plan call by call and stops at the
first rejection.
- Delete: the plan is the post-order removals, root skipped. It depends only
  on the tree.
- Import: the plan is a list of steps, one per create. Each step names the
  node and where it goes: under the caller's `parentId`, or under the folder
  made by an earlier step. The steps depend only on the tree. The calls
  themselves take each folder's children's `parentId` from the id the store
  returned for that folder's create.

Each plan is then related to an independent description of what it builds:
the creates placed under each parent for import, and the removals of the
subtree's nodes for delete. Flatten issues no store calls. It is related
directly to the records of the url-bearing nodes of the pre-order.

Five points of the code's behaviour are easy to misread. The model follows
the code in each:
- **The root is exported.** The export document holds `processForExport` of
  the whole `getTree()` array, so the store's root is its single top-level
  entry. It is not the root's children.
- **Import does not validate.** It reads only `importData.bookmarks`: the
  `version` is never checked, and there is no validation before the first
  store call. A failure part-way leaves the creates already made.
- **Classification is truthiness.** A node is a bookmark when its `url` is
  truthy, so an empty-string `url` makes a folder.
- **A bookmark's own children are exported.** Export recurses into any
  `children` array, bookmark or folder. Import ignores the children of
  bookmarks; flatten visits them.
- **Import defaults to a null parent.** The top-level `parentId` is `null`,
  not the store root's id.

The repository carries the same walks in several copies. Each member below
models all of them; each row cites one copy.
- `processForExport`: js/manage/utils.js:21-28 and manage.js:79-86.
- `importBookmarks`: js/manage/utils.js:30-48 and manage.js:89-111. The
  latter tests `node.children && node.children.length > 0`, the same test.
- `deleteFolderRecursively`: js/manage/utils.js:50-59. The copy at
  manage.js:149-169 is modelled on its own and proved equal.
- The export envelope: manage.js:13-18. The delete handler:
  src/manage/manage.js:73-97.
- `flattenBookmarks`: js/popup/utils.js:1-12 and popup.js:26-37. The search
  filter: src/popup/popup.js:25-30.

## Model

| member | source | states |
|---|---|---|
| Serializer.ExportForest | src/manage/utils.js:25-31 | one exported node per input node, in the same order; each has no `id`, the input's `title`, `url` and `dateAdded`, and a `children` array as long as the input's children (empty when the input had none) |
| Serializer.ExportTree | src/manage/utils.js:26-31 | the object literal the `map` callback builds for one node; no contract of its own, its meaning is stated by ExportForest, ExportPreOrder and ExportFixedPoints |
| Serializer.ExportForestAppend | src/manage/utils.js:26 | `map` is taken node by node: exporting a joined forest is joining the exports |
| Serializer.ExportKeepsShape | src/manage/utils.js:25-32 | export keeps the tree's shape at every depth, and so its node count |
| Serializer.ExportPreOrder | src/manage/utils.js:25-32 | the pre-order of the export is the node-by-node export of the pre-order: no node is lost, added or moved at any depth |
| Serializer.ExportIsDocument | src/manage/utils.js:30 | every exported node, at every depth, has no `id` and has a `children` array |
| Serializer.ExportFixedPoints | src/manage/utils.js:25-32 | export leaves a forest unchanged exactly when it is already document-shaped (no ids, `children` everywhere) |
| Serializer.ExportIdempotent | src/manage/utils.js:25-32 | exporting an export changes nothing |
| Serializer.ExportDocument | src/manage/manage.js:31-36 | the document has version 1 and the clock's timestamp; its `bookmarks` are `processForExport` of the whole `getTree()` array, root included: document-shaped, of the same shape, and read node by node in pre-order they are the tree's nodes, each projected by export, so every title, url and dateAdded at every depth is the tree's |
| StoreCalls.Run | src/manage/utils.js:36-52 | issuing a plan one awaited call at a time applies the longest accepted prefix and stops at the first rejected call |
| StoreCalls.ExecutesIssued | src/manage/utils.js:56-64 | what a walk issued is a prefix of its plan, and is the whole plan exactly when every call but the last was accepted |
| Importer.CreateFor | src/manage/utils.js:37-47 | the arguments of one `create`: `parentId`, `title` and `url` for a node with a truthy url, `parentId` and `title` otherwise; no contract of its own, see ImportRunsPlan and PlanRebuildsForest |
| Importer.ImportEach | src/manage/utils.js:35-53 | the awaited `for` loop of `importBookmarks`; no contract of its own, its meaning is stated by ImportRunsPlan |
| Importer.ImportTree | src/manage/utils.js:37-50 | one loop iteration: the node's create, then its children under the new folder; no contract of its own, see ImportTreeRunsPlan |
| Importer.ImportKids | src/manage/utils.js:48-50 | the recursive call, made only for a folder with children, under the id the store returned; no contract of its own, see PlanRebuildsForest |
| Importer.ImportDocument | src/manage/manage.js:56-57 | the import handler reads only `importData.bookmarks` and imports it with a null parent; no contract of its own, see ImportRebuildsDocument and ImportOfExportedDocument |
| Importer.ImportRunsPlan | src/manage/utils.js:35-53 | from any parent and call number, import issues exactly the planned creates in order, up to and including the first one rejected; nothing after it is issued |
| Importer.ImportFollowsPlan | src/manage/utils.js:35-53 | top-level import (`parentId` null) is running the planned creates against the store's replies |
| Importer.PlanParentsEarlier | src/manage/utils.js:44-49 | every create goes under the import's own parent or under a folder made by an earlier create: a folder exists before any of its children |
| Importer.PlanRebuildsForest | src/manage/utils.js:36-50 | under the import's own parent the plan creates exactly the given nodes in order; under the folder made by each call exactly that node's children in order, and nothing under a bookmark |
| Importer.PlanCreatesPreOrder | src/manage/utils.js:36-50 | when no bookmark carries children (the shape the store and the export give), import plans exactly one create per node of the forest, in pre-order: nothing is skipped and nothing created twice |
| Importer.ImportRebuildsDocument | src/manage/utils.js:43-50 | with `parentId` null: the top-level creates are the document's top-level nodes in order, every created folder receives exactly its document children in order, and every parent is created first |
| Importer.ImportOfExport | src/manage/utils.js:25-53 | importing the export of a forest gives exactly the walk that importing the forest gives, for any store replies: export keeps everything import reads |
| Importer.ImportOfExportedDocument | src/manage/manage.js:55-57 | importing the exported document (its version unread) re-creates the whole `getTree()` array, root included, at top level |
| Remover.Removals | src/manage/utils.js:62-64 | a remove list holds only removes, never names the root's id, and is no longer than the list of nodes; that it holds exactly one remove per non-root node is RemovalsCount |
| Remover.RemovalsCount | src/manage/utils.js:62-64 | an id other than `'root________'` is removed exactly as often as listed nodes carry it; the root's id never |
| Remover.RemovedIds | src/manage/utils.js:62-64 | an id is removed exactly when some listed node carries it and it is not `'root________'` |
| Remover.RemoveTree | src/manage/utils.js:56-65 | `deleteFolderRecursively` on one node; no contract of its own, see RemoveTreeRunsPlan and DescendantsFirst |
| Remover.RemoveKids | src/manage/utils.js:57-61 | the children's walk, taken only when `children` is present; no contract of its own, see RemoveTreeRunsPlan |
| Remover.RemoveEach | src/manage/utils.js:58-60 | the awaited `for` loop over the children; no contract of its own, see RemoveRunsPlan |
| Remover.RemoveSelf | src/manage/utils.js:62-64 | the node's own `remove`, skipped for `'root________'`; no contract of its own, see RootNeverRemoved and RemovedIds |
| Remover.RemoveRunsPlan | src/manage/utils.js:56-65 | delete issues the post-order removals, root skipped, one awaited call at a time, up to and including the first one rejected |
| Remover.RemoveTreeRunsPlan | src/manage/utils.js:56-65 | deleting one subtree issues, up to the first rejection, its children's post-order removals in order and then its own remove, unless it is the root |
| Remover.RemoveFollowsPlan | src/manage/utils.js:56-65 | deleting a forest is running its post-order removal plan against the store's replies |
| Remover.RootNeverRemoved | src/manage/utils.js:62-64 | `remove` is never issued for `'root________'`, however far the walk gets |
| Remover.RootChildrenStillRemoved | src/manage/utils.js:57-64 | when the walk starts at the root, it still removes everything below it, and nothing else |
| Remover.RemovesEachNodeOnce | src/manage/utils.js:56-65 | as a multiset, the removal plan is one remove per non-root node of the subtree, as often as the node occurs |
| Remover.RemovesEachIdOnce | src/manage/utils.js:56-65 | deleting a forest removes every id other than the root's exactly as often as nodes of the forest carry it, and the root's never |
| Remover.RemovesExactlyTheSubtree | src/manage/utils.js:56-65 | an id is removed exactly when it belongs to a node of the subtree and is not the root's |
| Remover.DescendantsFirst | src/manage/utils.js:57-64 | a folder's own remove is issued exactly when every removal below it succeeded, and is then the last call; otherwise the walk has issued only a post-order prefix of the removals below |
| Remover.RemoveTreeInline | manage.js:149-169 | the manage.js copy of the walk on one node; no contract of its own, see InlineRemovesAlike |
| Remover.RemoveKidsInline | manage.js:152-162 | its `'children' in folder` test; no contract of its own, see InlineRemovesAlike |
| Remover.RemoveEachInline | manage.js:153-161 | its loop, which re-tests `'children' in folder` on the folder for every child; no contract of its own, see InlineRemovesAlike |
| Remover.InlineRemovesAlike | manage.js:149-169 | the copy that tests `'children' in folder`, and repeats that test inside the loop, walks exactly like the shared function |
| Remover.DeleteClicked | manage.js:114-146 | a rejected `get` only reports failure. Without confirmation nothing is removed and no status is shown. A url-bearing node gets one awaited remove of the clicked id, which took effect exactly when the store accepted it. A folder gets the recursive delete of its `getSubTree` result. Success is reported exactly when every remove succeeded |
| Flattener.Flatten | src/popup/utils.js:1-12 | `flattenBookmarks` with a fresh accumulator; no contract of its own, its meaning is stated by FlattenIsPreOrderBookmarks |
| Flattener.FlattenTree | src/popup/utils.js:2-10 | the `forEach` callback's records for one node and everything below it; no contract of its own, see FlattenIsPreOrderBookmarks |
| Flattener.EntryOf | src/popup/utils.js:4-7 | the record's url is the node's, non-empty; its title is non-empty: the node's title when that is truthy, the url otherwise |
| Flattener.Bookmarks | src/popup/utils.js:3 | the url-bearing nodes of a list: all of them url-bearing, none of them new; that they keep the list's order is BookmarksInOrder, and that none is dropped is BookmarksCount |
| Flattener.BookmarksCount | src/popup/utils.js:3-9 | no url-bearing node is dropped: each is kept as often as it occurs in the list, and every other node not at all |
| Flattener.BookmarksInOrder | src/popup/utils.js:2-3 | the url-bearing nodes keep the order they have in the list (the walk visits `nodes` in `forEach` order) |
| Flattener.FlattenIsPreOrderBookmarks | src/popup/utils.js:1-12 | the list is one record per url-bearing node of the forest, in pre-order; folders add nothing themselves, and nodes under folders and under bookmarks are all visited |
| Flattener.FlattenAppend | src/popup/utils.js:1-11 | flattening a joined forest is joining the flattened parts |
| Flattener.FlattenCount | js/popup/utils.js:2-9 | as many records as url-bearing nodes, each with a non-empty title and url |
| Flattener.FlattenInto | src/popup/utils.js:1-12 | the walk appends the forest's records to whatever the accumulator already held |
| Flattener.FlattenNodeInto | src/popup/utils.js:2-10 | the `forEach` callback appends the node's own record, if any, then its subtree's |
| Flattener.FlattenBookmarks | src/popup/utils.js:1-12 | with a fresh accumulator the result is one record per url-bearing node, in pre-order |
| SearchFilter.Lower | popup.js:12-15 | lower-casing, applied to the query and to each record's title and url, keeps the length and maps every character on its own (ASCII letters only) |
| SearchFilter.Includes | popup.js:14-15 | `String.prototype.includes`; no contract of its own, its meaning is stated by IncludesIffOccurs |
| SearchFilter.IncludesIffOccurs | popup.js:14-15 | `includes` is true exactly when the query occurs at some position of the string |
| SearchFilter.MatchesIffOccurs | popup.js:12-15 | a record is kept exactly when the lower-cased query occurs in its lower-cased title or its lower-cased url |
| SearchFilter.Matches | popup.js:13-15 | the `filter` callback's test, on the lower-cased query; no contract of its own, its meaning is stated by MatchesIffOccurs |
| SearchFilter.Filter | popup.js:13-16 | every kept record matches, and no more records come out than went in |
| SearchFilter.FilterIsSubsequence | popup.js:13-16 | the filtered list is an order-preserving subsequence of the flattened list |
| SearchFilter.FilterCount | popup.js:12-15 | each record is kept as often as it occurs when it matches, and dropped altogether when it does not |
| SearchFilter.EmptyQueryKeepsAll | popup.js:12-15 | an empty query keeps every record |
| SearchFilter.Search | popup.js:12-16 | the listed records are the flattened forest's, in order, exactly the matching ones, each as often as it occurs |

## Left out

- The browser store's internals. `getTree`, `getSubTree`, `get`, `create` and
  `remove` are replaced by their answers. The tree is a parameter. A create's
  outcome is membership in a set of accepted call numbers plus a returned id.
  A `get` or `getSubTree` answer is an `Option`, where `None` means the call
  was rejected.
- Asynchrony. The walks await every call, so they are modelled as strictly
  sequential.
- DOM, rendering and feedback: `renderTree`, `renderBookmarks`,
  `createDeleteButton`, the removal of cards from the page, `showStatus`, and
  the `console.log` and `console.error` calls (for example manage.js:21 and
  manage.js:151-166).
  The delete handler's status message is an enumeration, and the answer to
  `confirm` is a parameter.
- File and time I/O: `downloadFile` and `readFile`. The timestamp from
  `Date.now()` is a parameter.
- JSON text: `JSON.stringify` and `JSON.parse`. The model works on the parsed
  object tree.
- Values the node datatype cannot hold: `children: null`, an explicit
  `children: undefined` property, a missing or non-array `bookmarks` field,
  and non-string titles or urls.
  - `children: null` and `children: undefined` behave like a missing field
    in export (src/manage/utils.js:30), import (:48), the shared delete
    walk (:57) and flatten (src/popup/utils.js:9). That is the `Absent`
    case of the model.
  - Only the manage.js delete copy differs: `'children' in folder` holds,
    and its `for ... of` over `null` or `undefined` throws a `TypeError`
    (manage.js:152-153). The model's `Absent` is a missing property there.
  - A missing `bookmarks` field, or one that is not iterable, makes import
    throw before any create. A string would be iterated character by
    character.
  - Non-string titles are passed through unchanged by export and import. In
    the search filter, a truthy non-string title makes the title's
    `toLowerCase` throw. A truthy non-string url makes it throw only when
    the title does not already include the query, because `||` stops at a
    match (popup.js:14-15).
- Auth and session (`checkSession`, the Supabase client) and the page
  redirects.
- SearchFilter.Lower: lower-cases only the ASCII letters A-Z. JavaScript's
  `toLowerCase` follows the full Unicode case mapping, which can also change a
  string's length.
- Fresh ids and the store's own consistency. A create's answer is fixed by
  the call's number alone, and nothing requires the returned ids to be fresh.
  Any real run of the store is one such set of answers.
