# Virtual file tree: path-addressed operations

A Dafny model of `src/fileUtils.js` of web-maker. That file keeps an in-memory tree of files and
folders for the editor. Each node has a `name`, an `isFolder` flag, the `children` of a folder and a
derived `path`. The model covers the six operations over that tree:

- `linearizeFiles` flattens the tree to its files, depth first.
- `assignFilePaths` recomputes every node's `path` from its ancestors' names.
- `getChildFileFromName` finds the first sibling with a given name.
- `getFileFromPath` walks a `/`-separated path down through folders.
- `removeFileAtPath` performs the same walk and then splices the target out of its parent's children.
- `doesFileExistInFolder` checks whether a name is taken in a folder.

Layout, one module per file:

- `paths.dfy` (`Paths`): `split('/')`, joining segments, and the prefixing rule
  `parentPath ? parentPath + "/" + name : name`.
- `file_tree.dfy` (`FileTree`): the `Node` datatype, the sibling lookup, the collision check, and
  *trails*. A trail is the sequence of child indices of the folders passed on the way down. The
  proofs use trails to name a place in the tree.
- `linearize.dfy` (`Linearize`): the `reduce` that flattens the tree, proved equal to the files of a
  depth-first pre-order traversal.
- `path_sync.dfy` (`PathSync`): `assignFilePaths` as a method with the `forEach` loop. It is proved to
  change only paths and to leave the tree *in sync*: every path follows the prefixing rule.
- `resolver.dfy` (`Resolver`): `getFileFromPath` as a method with the `while`/`shift` loop. It is
  proved equal to a walk-then-lookup specification. That specification has the round trip: a
  synchronised tree resolves every node's stored path back to the node.
- `remover.dfy` (`Remover`): `removeFileAtPath` as a method with the same loop and a `splice`. It
  comes with the frame of the removal, the defect at index -1, and a corrected variant.

`isFolder` is the constructor of `Node`: a `File` has no children, and a `Folder` owns a sequence of
them. A tree is a `seq<Node>` value. The two operations that mutate in place return the updated tree.
The update is confined to path attributes for `assignFilePaths` and to one child sequence for
`removeFileAtPath`, and the lemmas state exactly that.

The doc comment above `removeFileAtPath` (src/fileUtils.js:70-75) says it returns the file and its
index, but the code returns nothing. The model follows the code.

## Model

| member | source | states |
|---|---|---|
| `Paths.Split` | src/fileUtils.js:60 | `path.split('/')`: at least one segment, no segment contains `/`, and joining the segments with `/` gives back the path |
| `Paths.SplitJoin` | src/fileUtils.js:60 | splitting undoes joining when no segment contains `/` |
| `Paths.ChildPath` | src/fileUtils.js:30 | a node's path is its name when the parent path is `""`, and otherwise the parent path, a `/`, then the name |
| `Paths.PathAlongSplit` | src/fileUtils.js:30-34 | a path built from the root from names that are non-empty at the top and free of `/` splits into exactly those names |
| `FileTree.GetChildFileFromName` | src/fileUtils.js:47-50 | the index is the smallest one whose node has the name, and the node is the one at that index; the index is -1 with no node exactly when no sibling has the name |
| `FileTree.LookupUnique` | src/fileUtils.js:47-50 | when sibling names are unique, looking up a sibling's name returns that sibling and its index |
| `FileTree.DoesFileExistInFolder` | src/fileUtils.js:94-97 | true exactly when some immediate child has the name; false for an empty folder |
| `Linearize.ReduceToLinearFiles` | src/fileUtils.js:10-18 | the `reduce` keeps the accumulated list as a prefix and appends only files; a forest without files leaves the list as it was |
| `Linearize.LinearizeFiles` | src/fileUtils.js:9-20 | the flattening holds only files, and a tree without files flattens to the empty list |
| `Linearize.ReduceIsPreorderFiles` | src/fileUtils.js:10-18 | the `reduce` from an accumulated list appends the tree's files in depth-first, left-to-right order |
| `Linearize.LinearizeFilesOrder` | src/fileUtils.js:9-20 | the flattening equals the file nodes of the pre-order traversal, in that order; a node is in it exactly when it is a file of the tree |
| `Linearize.LinearizeFilesCount` | src/fileUtils.js:9-20 | the flattening holds only files, exactly as many as the tree has; an empty tree gives an empty list |
| `Linearize.LinearizeFilesAppend` | src/fileUtils.js:11-17 | flattening `a + b` gives the flattening of `a` followed by that of `b` |
| `Linearize.ReachableInLinearization` | src/fileUtils.js:9-20 | every node at any depth is in the traversal, and every file at any depth is in the flattening |
| `PathSync.AssignFilePaths` | src/fileUtils.js:28-39 | the result has the input's names, kinds, children counts and order (only paths differ), and every node's path follows the prefixing rule below its parent's newly computed path |
| `PathSync.SameShapeKeeps` | src/fileUtils.js:28-39 | trees that differ only in paths have non-empty `/`-free names, and sibling-unique names, exactly together |
| `PathSync.SameShapeTrail` | src/fileUtils.js:28-39 | every trail of the input is a trail of the re-pathed tree, through folders of the same names, to children of the same shape |
| `PathSync.SyncedUnique` | src/fileUtils.js:29-37 | two same-shaped trees that are both synchronised below one prefix are equal, so the assigned paths depend only on names and shape and never on the old paths |
| `PathSync.AssignIdempotent` | src/fileUtils.js:28-39 | assigning paths to a tree that is already synchronised returns it unchanged |
| `PathSync.PathInvariant` | src/fileUtils.js:30-35 | in a tree synchronised from the root, a node's path is its ancestors' names and its own joined with `/` (the top-level name must be non-empty) |
| `Resolver.Walk` | src/fileUtils.js:61-65 | a successful walk returns a valid trail of folders whose names are exactly the walked segments |
| `Resolver.Resolve` | src/fileUtils.js:58-68 | a failing walk is its error; otherwise the index lies in `-1` up to the number of children reached, is -1 exactly when none of them has the last segment's name, and otherwise names a child with that name, returned as the file |
| `Resolver.GetFileFromPath` | src/fileUtils.js:58-68 | the loop's result is the walk through all segments but the last, then the lookup of the last segment among the children it reaches; a missing segment or a file before the last segment gives an error |
| `Resolver.WalkComplete` | src/fileUtils.js:61-65 | when sibling names are unique, walking the names along a trail finds that trail |
| `Resolver.ResolveNames` | src/fileUtils.js:58-68 | when sibling names are unique, resolving the names from the top level down to a node returns that node and its index in its parent |
| `Resolver.PathRoundTrip` | src/fileUtils.js:58-68 | after path assignment from the root, with non-empty `/`-free names unique among siblings, every node's stored path resolves to that node and its index in its parent |
| `Resolver.AssignRoundTrip` | src/fileUtils.js:58-68 | after `AssignFilePaths(files, "")` on a tree with non-empty `/`-free names unique among siblings, every node of the input has a counterpart at the same place with the same name and kind, and its new path resolves to that counterpart and its index |
| `Resolver.SingleSegment` | src/fileUtils.js:60-67 | a path without `/` is looked up directly among the top-level nodes |
| `Remover.Splice` | src/fileUtils.js:86 | `splice(start, 1)`: an index inside the sequence removes that element; -1 removes the last element; an index past the end, or an empty sequence, removes nothing |
| `Remover.WithChildrenAt` | src/fileUtils.js:79-86 | writing a parent's children through the walk replaces exactly the child sequence at the end of the trail and keeps the trail and its names |
| `Remover.Remove` | src/fileUtils.js:76-87 | a failing walk is its error; otherwise the tree keeps the walked trail and its names, and the children reached lose exactly one node whenever they are non-empty, also when the last segment names none of them |
| `Remover.RemoveFileAtPath` | src/fileUtils.js:76-87 | the loop's result is the walk, then the splice of the last segment's index out of the children it reaches; a missing segment or a file before the last segment gives an error |
| `Remover.RemoveFound` | src/fileUtils.js:85-86 | when the last segment is found at index `i` among siblings `s`, they become `s[..i] + s[i+1..]`, one fewer, with the rest in order |
| `Remover.WithChildrenAtFrame` | src/fileUtils.js:86 | outside the parent folder, every sibling sequence keeps its length, every node keeps its name, kind and path, and every node off the walked trail is unchanged together with all it contains |
| `Remover.RemoveFrame` | src/fileUtils.js:76-87 | removal leaves the rest of the tree as `WithChildrenAtFrame` says, whatever index the lookup returned |
| `Remover.RemoveKeepsInvariants` | src/fileUtils.js:76-87 | removal does not recompute paths and does not need to: a synchronised tree stays synchronised, and unique and well-formed names stay so |
| `Remover.RemoveThenNotFound` | src/fileUtils.js:76-87 | when no other sibling of the removed node has its name, after the node at a path is removed the same path resolves to index -1 with no node |
| `Remover.RemoveMissingTakesLast` | src/fileUtils.js:85-86 | as written, when the last segment is not found among non-empty siblings, the last sibling is removed |
| `Remover.RemoveMissingExample` | src/fileUtils.js:85-86 | removing `c.js` from the top level `[a.js, b.js]` leaves `[a.js]` |
| `Remover.RemoveChecked` | src/fileUtils.js:85-86 | corrected removal: an error where the walk fails, `PathNotFound` with nothing removed when the last segment is missing, otherwise the same tree as the code |
| `Remover.RemoveCheckedMissing` | src/fileUtils.js:85-86 | with the fix, a missing last segment is reported as `PathNotFound`, and the resolver reports index -1 with no node |

## Left out

- The imports of `deferred` and `esprima` (src/fileUtils.js:1-2). These operations do not use them, and they are foreign library code.
- Node identity and aliasing. A tree is a value, so sharing one node object between two places, or holding it from outside, is not modelled.
- PathSync.AssignFilePaths: mutating the caller's nodes and returning the same array becomes returning the updated sequence. Its contract says that sequence differs from the input only in `path` attributes.
- Remover.RemoveFileAtPath: the in-place `splice` on the deep child array becomes returning the updated tree, built by `WithChildrenAt`. The method returns a `Result` instead of `undefined`.
- The TypeError thrown when a segment before the last is missing or names a file. A missing segment fails at `.file.children` (src/fileUtils.js:63-64, 81-82); a file yields `undefined` children, and the next lookup fails at `files.findIndex` (src/fileUtils.js:48). Both are modelled as `Err(PathNotFound)` or `Err(NotAFolder)` with nothing changed. The partial update a thrown exception can leave cannot arise, since the walk changes nothing before it fails.
- The `isFolder` flag as a separate field. A file object that still carries a `children` array, or a folder without one, cannot be represented; the code would crash on the latter.
- JavaScript truthiness beyond `""`. The default `parentPath` is `""`, and only `""` stands for the root. A `parentPath` of `undefined` or `null` is not modelled.
- JavaScript strings are UTF-16 code-unit sequences; here they are `seq<char>`. Only the `/` separator matters to these operations.
- `doesFileExistInFolder` on a file node reads `children` of a node that has none and throws. The model requires a folder, which is what the function's callers must pass.
- `splice` is modelled with a delete count of 1 only, the one use in the file.
- The corrected removal is a function (`RemoveChecked`) rather than a second copy of the loop method.

## Findings

| source | as written | input that shows it | evidently intended | confidence | as-written member | corrected member |
|---|---|---|---|---|---|---|
| src/fileUtils.js:85-86 | `currentFolder.splice(index, 1)` runs with the -1 that `findIndex` returns for a missing last segment, and `splice(-1, 1)` removes the last sibling | top level `[a.js, b.js]`, path `c.js`: `b.js` is removed | a path that names no node removes nothing and reports that it was not found | high, not executed | `Remover.RemoveMissingTakesLast` | `Remover.RemoveChecked` |
