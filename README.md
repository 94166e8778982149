# AI Web Studio: virtual file tree, in Dafny

This project models the in-memory file tree of the studio and the engine that
patches it, with proofs about both. It also models the two functions that
serialise the tree for the code generator, and the open-tab and submit logic
of the main view.

- **Types** (`types.dfy`, from `types.ts`). A node is either a file (name,
  stored path, optional content) or a folder (name, stored path, children).
  An operation is CREATE of a file, CREATE of a folder, UPDATE, DELETE, or an
  object with any other action. The generator's response carries reasoning,
  operations and HTML.
- **JavaScript string built-ins** (`js_strings.dfy`). These are written out
  because the engine's behaviour depends on them:
  - `split('/')`, `.filter(p => p)` and `join('/')`;
  - `String.prototype.indexOf`, `Array.prototype.indexOf` and `substring`
    (with its clamping and argument swap);
  - `trim` over the ECMAScript white-space set;
  - `filter(p => p !== x)`.
- **Name order** (`name_order.dfy`). The sibling order used by `sort` with
  `localeCompare`: a lexicographic order on characters, and the stable sort
  as an insertion sort.
- **The tree engine** (`file_system.dfy`, from `utils/fileSystem.ts`):
  - the locator `findNodeByPath`, a method with the source's loop, and
    `getFileContent`;
  - the copy-on-write upserter and deleter;
  - the batch applier, a left fold over the operations.

  Each is stated against an intended meaning: `Walk` follows the segments
  through folders. The lemmas prove the following:
  - when the source returns its input unchanged;
  - what the path then leads to;
  - that idempotence holds;
  - that every sibling list stays sorted and free of duplicate names;
  - that the batch applier composes.
- **Serialisers** (`serializer.dfy`, from `services/geminiService.ts`).
  `serializeFileSystem` and `getFileContents` are methods with the source's
  loops and recursion. Each is proved equal to the pre-order walk of the tree,
  rendered line by line or block by block.
- **Workspace** (`app.dfy`, from `App.tsx`). A class whose fields are the
  React state cells.
  - `handleFileSelect` and `handleCloseFile` are proved against pure
    functions on the open-tab list.
  - `handleSubmit` takes the generator's outcome as a parameter.
  - Every handler keeps the class invariant: open paths are distinct, the
    active path is open, and the tree is well-formed.

Trees are values. Where the source returns the same array reference to signal
"no change", the model states and proves `result == input`.

### Behaviour of the code worth knowing

The model follows the code in each of these places:

- **Stored paths are not full paths.** The stored `path` of a new node is
  computed from the string passed at that recursion level
  (`utils/fileSystem.ts:36`). The recursive calls pass only the remaining
  segments (`utils/fileSystem.ts:62`, `:74`). So only a node created at the
  top stores more than its own name: upserting `src/index.html` into an empty
  tree stores `index.html` for the file. A top-level node stores the path's
  leading slashes followed by its name, so `/a` is stored as `/a`
  (`FileSystem.StoredPathShape`, `FileSystem.CreateNestedFileInEmptyTree`).
- **The "more segments remain" test uses `parts.indexOf(part)`.**
  `utils/fileSystem.ts:14` checks the first occurrence of the segment's name,
  not the current position. A file whose name repeats an earlier segment is
  therefore not found: file `a` inside folder `a` is missed by `a/a`
  (`FileSystem.FindMissesRepeatedName`). Two lemmas bound the effect:
  - whatever the lookup finds is what the intended walk finds;
  - when no segment name repeats, the two agree exactly
    (`FileSystem.FindAgreesWithWalk`).
- **A folder "without children" means `children` is undefined.** In the
  code (`utils/fileSystem.ts:94`) an empty array does not count. For the
  upserter and the deleter both cases give the same result, so an absent
  `children` is modelled as the empty list. `findNodeByPath` does tell them
  apart (`utils/fileSystem.ts:12`, `:14`); see "Left out".
- **Absent content.** A file's content may be absent in the node type.
  `getFileContents` prints it as `undefined`, and `getFileContent` returns `''`
  for it.

## Model

| member | source | states |
|---|---|---|
| JsStrings.Split | utils/fileSystem.ts:4 | `split('/')`: at least one piece, none holding a slash; joining the pieces with `/` gives back the string (`JsStrings.JoinSplit`) |
| JsStrings.IndexOf | utils/fileSystem.ts:36 | `indexOf`: the first position where the substring occurs, or -1 exactly when it occurs nowhere |
| JsStrings.Substring | utils/fileSystem.ts:36 | `substring`: for bounds inside the string, the slice between them whichever comes first; never longer than the string |
| JsStrings.Trim | App.tsx:41 | `trim`; it is empty exactly when the prompt is all white space (`JsStrings.TrimEmptyIff`) |
| JsStrings.Without | App.tsx:33 | `filter(p => p !== path)`: the path is gone and every other element of the list stays in it |
| JsStrings.Segments | utils/fileSystem.ts:4 | the segments of a path: non-empty and free of `/` |
| JsStrings.SegmentsOfJoin | utils/fileSystem.ts:62 | re-splitting the joined remaining segments gives back the same segments, which is what each recursive call sees |
| JsStrings.JoinSplit | utils/fileSystem.ts:62 | `s.split('/').join('/') == s` |
| JsStrings.SegmentsEmptyIff | utils/fileSystem.ts:4 | a path has no segments exactly when it is made only of slashes |
| JsStrings.IndexOfFirstSegment | utils/fileSystem.ts:36 | `path.indexOf(firstSegment)` is the number of leading slashes of the path |
| JsStrings.TrimEmptyIff | App.tsx:41 | `!prompt.trim()` holds exactly when every character is ECMAScript white space |
| NameOrder.LessTotal | utils/fileSystem.ts:77 | the order used for sorting names is total |
| NameOrder.LessTransitive | utils/fileSystem.ts:77 | the order used for sorting names is transitive |
| NameOrder.InsertByName | utils/fileSystem.ts:77 | one step of the stable sort: the node goes before the first strictly greater name; see `NameOrder.InsertSplits` and `NameOrder.InsertStrictlySorted` |
| NameOrder.SortByName | utils/fileSystem.ts:77 | the sorted list is sorted by name and a permutation of its input |
| NameOrder.SortAppended | utils/fileSystem.ts:77 | sorting a sorted list with one node appended inserts that node and moves nothing else |
| NameOrder.InsertSplits | utils/fileSystem.ts:77 | insertion puts the new node at a position that depends only on its name, keeping the others in order around it |
| NameOrder.InsertStrictlySorted | utils/fileSystem.ts:77 | inserting a fresh name into a strictly sorted list keeps it strictly sorted |
| FileSystem.FindIndex | utils/fileSystem.ts:38 | `findIndex` by name: the first position holding that name, or -1 exactly when no node has it |
| FileSystem.Find | utils/fileSystem.ts:3-19 | what `findNodeByPath` returns, the loop as recursion over the segments; `FileSystem.FindAgreesWithWalk` relates it to the intended walk |
| FileSystem.ResolveFrom | utils/fileSystem.ts:8-17 | one turn of the lookup loop per segment, with the literal `indexOf` test; `FileSystem.ResolveIsSound` is its contract |
| FileSystem.Walk | utils/fileSystem.ts:8-17 | the intended lookup: a node it finds carries the last segment's name |
| FileSystem.FindNodeByPath | utils/fileSystem.ts:3-19 | the loop computes the lookup; an all-slash path finds nothing; a node it finds is the one the intended walk reaches; with distinct segment names it equals the intended walk |
| FileSystem.GetFileContent | utils/fileSystem.ts:21-24 | a returned content is that of the file the path leads to, `''` when unset; with distinct segment names a content is returned exactly when the path leads to a file |
| FileSystem.FindAgreesWithWalk | utils/fileSystem.ts:8-17 | the lookup never finds a wrong node, and with distinct segment names it finds exactly what the intended walk finds |
| FileSystem.ResolveIsSound | utils/fileSystem.ts:8-17 | from any segment on, a node the loop returns is the node the intended walk reaches |
| FileSystem.ResolveWithDistinctSegments | utils/fileSystem.ts:14 | with distinct segment names the `indexOf` test is the "not last" test, and the loop is the intended walk |
| FileSystem.FindAllSlashes | utils/fileSystem.ts:4-18 | a path made of slashes only finds nothing |
| FileSystem.FindIgnoresExtraSlashes | utils/fileSystem.ts:4 | leading, trailing and doubled slashes do not change what is found |
| FileSystem.FindMissesRepeatedName | utils/fileSystem.ts:14 | file `a` inside folder `a` is not found by `a/a`, although the intended walk reaches it |
| FileSystem.UpsertNodeByPath | utils/fileSystem.ts:26-79 | the upserter, branch for branch; what it promises is stated by `UpsertMissing`, `UpsertExisting`, `UpsertUnchangedIff`, `UpsertThenWalk` and `UpsertKeepsWellFormed` |
| FileSystem.StoredPathShape | utils/fileSystem.ts:36 | a node created at the top stores the path's leading slashes followed by its name |
| FileSystem.CurrentPathOfJoin | utils/fileSystem.ts:36 | below the top the stored path computed from the joined remaining segments is exactly the node's name |
| FileSystem.UpsertIntoEmpty | utils/fileSystem.ts:69-77 | upserting into an empty list creates one chain of folders down to the leaf (a file with the content, or an empty folder) |
| FileSystem.NewChainChildren | utils/fileSystem.ts:74-75 | a new folder's children are what upserting the remaining segments into an empty list creates |
| FileSystem.UpsertMissing | utils/fileSystem.ts:69-77 | a missing segment adds exactly one node, the new chain, to the list, which is then sorted by name; in a sorted list it is inserted and nothing else moves |
| FileSystem.UpsertExisting | utils/fileSystem.ts:40-68 | an existing segment keeps the list's length and every other entry; the entry keeps its name, stored path and type and gets the new content or the upserted children; a file met before the last segment leaves the list as it was |
| FileSystem.UpsertUnchangedIff | utils/fileSystem.ts:33-68 | the upsert returns its input exactly when there is nothing to do: empty path, type conflict, existing folder, equal content, or a file met before the last segment |
| FileSystem.UpsertSettles | utils/fileSystem.ts:48-63 | after an upsert the same upsert has nothing left to do |
| FileSystem.UpsertIdempotent | utils/fileSystem.ts:48-63 | upserting the same path, type and content twice is the same as once |
| FileSystem.UpsertRejected | utils/fileSystem.ts:44-47 | a type conflict at the last segment, or a file on the way, leaves the tree unchanged |
| FileSystem.UpsertThenWalk | utils/fileSystem.ts:26-79 | unless rejected, after the upsert the path leads to a node of the requested type, and a file holds the requested content |
| FileSystem.FindAfterUpsert | utils/fileSystem.ts:26-79 | with distinct segment names, `findNodeByPath` then finds that node |
| FileSystem.UpsertKeepsWellFormed | utils/fileSystem.ts:38-77 | the upsert keeps every sibling list, at every depth, sorted by name with no name twice |
| FileSystem.InsertKeepsWellFormed | utils/fileSystem.ts:77 | inserting a well-formed node under a fresh name keeps a well-formed list well-formed |
| FileSystem.DeleteNodeByPath | utils/fileSystem.ts:81-103 | the deleter, branch for branch; what it promises is stated by `DeleteExisting`, `DeleteUnchangedIff`, `DeleteThenWalk` and `DeleteKeepsWellFormed` |
| FileSystem.DeleteExisting | utils/fileSystem.ts:89-102 | at the last segment exactly that entry is removed and the rest keep their order; deeper, the list keeps its length, the other entries and the folder's name and stored path |
| FileSystem.DeleteNested | utils/fileSystem.ts:93-102 | below the first segment the delete rewrites the folder on the path with its children's delete, even when that leaves it empty |
| FileSystem.DeleteUnchangedIff | utils/fileSystem.ts:83-97 | the delete returns its input exactly when the path leads to no node |
| FileSystem.DeleteThenWalk | utils/fileSystem.ts:81-103 | in a well-formed tree, after the delete the path leads to no node |
| FileSystem.FindAfterDelete | utils/fileSystem.ts:81-103 | in a well-formed tree, after the delete `findNodeByPath` finds nothing at the path |
| FileSystem.DeleteKeepsWellFormed | utils/fileSystem.ts:81-103 | the delete keeps every sibling list sorted and free of duplicate names |
| FileSystem.RemoveKeepsWellFormed | utils/fileSystem.ts:90-91 | filtering out one entry keeps a well-formed list well-formed |
| FileSystem.ApplyOperation | utils/fileSystem.ts:110-119 | the `switch` of one reduce step; `FileSystem.ApplyOperationEffect` states each branch's effect |
| FileSystem.ApplyOperations | utils/fileSystem.ts:105-121 | the `reduce` from the initial tree; `FileSystem.ApplyOperationsConcat` and `FileSystem.ApplyOperationsKeepWellFormed` state its properties |
| FileSystem.ApplyOperationEffect | utils/fileSystem.ts:110-119 | CREATE and UPDATE leave the path leading to a file with the content or to a folder; UPDATE of a missing path creates the file; a rejected one changes nothing; DELETE leaves nothing at the path; any other action changes nothing |
| FileSystem.ApplyOperationsConcat | utils/fileSystem.ts:109-120 | each operation sees the previous one's result: applying `a + b` is applying `a`, then `b` |
| FileSystem.ApplyOperationsKeepWellFormed | utils/fileSystem.ts:105-121 | every batch keeps the tree well-formed |
| FileSystem.CreateNestedFileInEmptyTree | utils/fileSystem.ts:112 | creating `x/y` in an empty tree gives folder `x` holding file `y`, whose stored path is `y` |
| FileSystem.DeleteSplicedChild | utils/fileSystem.ts:89-102 | deleting a folder's only child leaves the folder in its place, empty |
| FileSystem.CreateThenDeleteKeepsFolder | utils/fileSystem.ts:109-120 | creating `x/y` and then deleting it leaves an empty folder `x` inserted in name order; ancestors are not pruned |
| Serializer.Outline | services/geminiService.ts:6-15 | the text `serializeFileSystem` returns; `Serializer.OutlineIsRenderedPreorder` proves it is the pre-order walk printed line by line |
| Serializer.SerializeFileSystem | services/geminiService.ts:6-15 | the loop and its recursion build the outline of the list |
| Serializer.OutlineIsRenderedPreorder | services/geminiService.ts:8-12 | the outline is the pre-order walk printed one line per node: indent, name, `/` for folders, two more spaces per level |
| Serializer.PreorderCountsEveryNode | services/geminiService.ts:8-12 | the pre-order walk has exactly as many visits as the tree has nodes |
| Serializer.Preorder | services/geminiService.ts:8-12 | each node is visited first at its own depth, nothing shallower follows, and the visits right after a folder, as many as its subtree holds, are all deeper |
| Serializer.OutlineEmptyIff | services/geminiService.ts:7-14 | the outline is empty exactly for an empty list |
| Serializer.Block | services/geminiService.ts:21 | a file's block is never empty |
| Serializer.FileContents | services/geminiService.ts:17-28 | the text `getFileContents` returns; `Serializer.FileContentsArePreorderBlocks` proves it is one block per file in pre-order |
| Serializer.GetFileContents | services/geminiService.ts:17-27 | the loop and its recursion build the file section of the list |
| Serializer.FileContentsArePreorderBlocks | services/geminiService.ts:19-24 | the file section is one `--- FILE: <path> ---` block per file, in pre-order, nothing for folders |
| Serializer.FileContentsEmptyIff | services/geminiService.ts:17-27 | the file section is empty exactly when the tree holds no file |
| App.Select | App.tsx:25-30 | the tabs after `handleFileSelect`; see `App.SelectOpensAndActivates`, `App.SelectKeepsValid`, `App.SelectIdempotent` |
| App.Close | App.tsx:32-38 | the tabs after `handleCloseFile`; see `App.CloseRemovesPath`, `App.CloseKeepsValid`, `App.SelectThenClose` |
| App.WithoutRemovesOne | App.tsx:33-35 | in a list without duplicates, the filter removes exactly the closed path's position and keeps the rest in order |
| App.SelectOpensAndActivates | App.tsx:25-30 | selecting makes the path active and open, keeps the open list as a prefix, and adds at most the path |
| App.SelectKeepsValid | App.tsx:26-28 | selecting never opens a path twice and keeps the active path open |
| App.SelectIdempotent | App.tsx:25-30 | selecting the same path twice is selecting it once |
| App.CloseRemovesPath | App.tsx:32-38 | closing removes exactly that path and keeps the other open paths in their order; the active path moves only if it was closed, then to the last remaining path or to none |
| App.CloseKeepsValid | App.tsx:32-38 | closing keeps the open list free of duplicates and the active path open |
| App.SelectThenClose | App.tsx:25-38 | opening a new path and closing it again restores the open list, with the last of it active |
| App.CloseAbsent | App.tsx:32-38 | closing a path that is not open changes nothing |
| App.ErrorText | App.tsx:67 | the error shown is the failure's message when it is not empty, and "An unknown error occurred." when it is |
| App.FirstCreateIndex | App.tsx:60 | the position of the first CREATE, or -1 exactly when there is none |
| App.FirstCreate | App.tsx:60 | `operations.find(op => op.action === 'CREATE')`: the operation at `App.FirstCreateIndex`, or none |
| App.CreatedFileToOpen | App.tsx:60-61 | a path is opened exactly when the first CREATE's path leads to a file in the new tree, and then it is that path |
| App.Workspace.constructor | App.tsx:15-23 | every state cell starts at its initial value |
| App.Workspace.HandleFileSelect | App.tsx:25-30 | the tabs become the selection of the path; nothing else changes |
| App.Workspace.HandleCloseFile | App.tsx:32-38 | the tabs become the closing of the path; nothing else changes |
| App.Workspace.HandleSubmit | App.tsx:40-71 | a blank prompt only sets the error; a failure clears the reasoning and sets the error, tree untouched; a success applies the operations, shows the response, clears the prompt and opens the first created file |
| App.Workspace.ShowResponse | App.tsx:50-63 | the new tree is the operations applied to the old one; the response's HTML and reasoning are shown, the preview tab selected, the prompt cleared, the created file opened; the error is left as it was |
| App.Workspace.OpenCreatedFile | App.tsx:60-63 | the first CREATE's path is opened exactly when the new tree has a file there |

## Left out

- `generateCode` (the network call, the prompt text, the response schema and
  `JSON.parse`) is not part of this model. `HandleSubmit` receives its outcome
  as a parameter: the parsed response, or the failure's message.
- React rendering, the editor, preview and tab components, and the file
  explorer's I/O (file reading, `prompt()`, downloads, `alert`) are not
  modelled. The explorer's upload is a fold of upserts, which the batch
  applier already covers.
- The `isLoading` flag, `async`/`await`, memoisation and stale closures are
  scheduling, not behaviour. The derived `activeFileContent` is a call of
  `getFileContent`, which is modelled.
- `console.error` on rejection: a rejected upsert returns its input and
  nothing is logged.
- `localeCompare`'s locale rules are replaced by lexicographic order on
  characters. The result is the same total order wherever the locale orders
  strings by code point.
- Strings are sequences of Unicode code points, not of UTF-16 code units.
  Lengths, `indexOf` positions and the name order therefore differ from
  JavaScript's for names holding characters above U+FFFF.
- Reference identity: the `===` checks on arrays become value equality. When
  the arrays are equal in value, the copy the source would build is equal in
  value too.
- An absent `children` field is modelled as an empty list. The upserter and
  deleter treat the two alike, but `findNodeByPath` does not: for a folder
  with undefined `children` met at a segment whose name occurs earlier in the
  path, the source returns null where the model descends into the empty list
  and can still return that folder. No operation of the engine creates a
  folder without `children`.
- Malformed operations are not modelled: a CREATE whose `type` is neither
  `file` nor `folder`, a missing `path` or `content`, or an exception thrown
  while applying. Operations are the well-typed variants of `FileOperation`,
  plus `Unrecognized` for any other action.
- `FileSystem.FindAfterUpsert` and `FileSystem.ApplyOperationEffect` require
  distinct segment names to conclude what `findNodeByPath` finds. The
  source's `indexOf` test only misses a file at the end of the path whose
  name repeats an earlier segment, so the condition is stronger than needed:
  folders, and files whose name does not repeat, are found as well. Without
  the condition, `FileSystem.UpsertThenWalk` states what the intended walk
  reaches.
- `Serializer.SerializeFileSystem` and `Serializer.GetFileContents` append
  each node's text to `result` once, as one piece. The source appends the
  node's own line or block and its children's text in two separate
  statements. The string built is the same.
