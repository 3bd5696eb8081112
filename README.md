# SwiftListTreeDataSource engine in Dafny

This project models the engine behind `ListTreeDataSource<Item>` from
SwiftListTreeDataSource. The engine keeps three views of one hierarchy
consistent:

- a forest of tree items: each item has a value, ordered `subitems`, an
  `isExpanded` flag and a `parent` link; the roots form `backingStore`;
- a lookup index from values to tree items;
- the flat list of rows a reload publishes as `items`.

The rows are the depth-first, pre-order traversal of the forest. Every root
is shown. The children of an item are shown only when that item is expanded.

The implementation file of the library is not part of this model. The
engine's behaviour is taken from what the test suite
`Tests/SwiftListTreeDataSourceTests/ListTreeDataSource+BasicTests.swift`
asserts. The test helpers `depthFirstFlattened` and `depthLookupTable` are
re-specified here as the pure functions `AllPreorder`/`Subtree` and
`DepthTable`.

Layout:

- `tree_item.dfy` (module `TreeItems`): the tree item datatype and the arena
  invariants. Items live in a sequence and refer to each other by index. A
  parent always has a smaller index than its children. `Level` counts parent
  hops.
- `flattening.dfy` (module `Flattening`): the single traversal `Flatten`.
  It gives the full traversal (`AllPreorder`, `Subtree`) or the visible
  rows (`Visible`). It also proves membership, duplicate-freedom and frame
  lemmas.
- `expansion.dfy` (module `Expansion`): flag updates (`SetFlag`, `FlagAll`,
  `FlagEach`) and what they do to the rows: toggling, expanding or
  collapsing everything, expanding or collapsing a whole subtree, and the
  exact position where expanded children are spliced into the rows.
- `levels.dfy` (module `Levels`): a top-down depth table checked against the
  bottom-up `Level`.
- `editing.dfy` (module `Editing`): the structural edits on values. These
  are adding new items at a position of a containing sequence, detaching an
  item with its subtree, finding an item's position, and building and
  updating the lookup index.
- `list_tree_data_source.dfy` (module `ListTree`): the class
  `ListTreeDataSource`. Its fields `nodes`, `backingStore`, `lookupTable`
  and `items` are updated in place by `Append`, `InsertBefore`,
  `InsertAfter`, `Delete`, `Reload`, `SetExpanded`, `ToggleExpand`,
  `ExpandAll`, `CollapseAll` and `UpdateAllLevels`.

The tests fix three points of behaviour that a reader might expect
otherwise:

- **Lookup after append.** `Append` registers the new values in the lookup
  index at once, because the tests append children to a parent appended on
  the line before, with no reload in between (lines 43-44, 55-56, 61-62).
- **Rows after bulk visibility operations.** `ExpandAll`, `CollapseAll`,
  `ToggleExpand` and `UpdateAllLevels` end with a reload, because the tests
  read `items` right after `expandAll`, `collapseAll`, `toggleExpand` and
  `updateAllLevels` (lines 114-117, 125-128, 136-138, 148-151). That reload
  also rebuilds the lookup index.
- **Direct flag writes.** A direct write to `isExpanded` (`SetExpanded`)
  changes the rows only at the next explicit reload, because the test calls
  `reload()` after such a write before reading `items` (lines 183-184).

## Model

| member | source | states |
|---|---|---|
| TreeItems.Level | Tests/SwiftListTreeDataSourceTests/ListTreeDataSource+BasicTests.swift:270 | the level of an item is the number of parent hops up to a root (root is 0) |
| TreeItems.SameShapeKeepsArena | Tests/SwiftListTreeDataSourceTests/ListTreeDataSource+BasicTests.swift:183 | changing only expansion flags keeps every arena and root invariant |
| TreeItems.SiblingSubtreesDisjoint | Tests/SwiftListTreeDataSourceTests/ListTreeDataSource+BasicTests.swift:276-287 | two distinct siblings head disjoint subtrees, so deleting one spares the other |
| Flattening.Flatten | Tests/SwiftListTreeDataSourceTests/ListTreeDataSource+BasicTests.swift:116-117 | the one pre-order traversal behind three projections: `AllPreorder` (`depthFirstFlattened(backingStore)`, line 282), `Subtree` (`depthFirstFlattened(items: [x])`, lines 150 and 277) and `Visible` (the rows `reload` publishes as `items`, line 116); it lists only items created after the enclosing parent, within the arena |
| Flattening.FlattenMembership | Tests/SwiftListTreeDataSourceTests/ListTreeDataSource+BasicTests.swift:138-141 | an item is in the rows (or the full traversal) exactly when it is reached from a listed root through expanded ancestors (through any ancestors) |
| Flattening.ProjectionsNoDup | Tests/SwiftListTreeDataSourceTests/ListTreeDataSource+BasicTests.swift:117-118 | neither the full traversal nor the visible rows list an item twice |
| Flattening.AllExpandedShowsAll | Tests/SwiftListTreeDataSourceTests/ListTreeDataSource+BasicTests.swift:113-119 | when every traversed item is expanded, the rows are the full traversal |
| Flattening.AllCollapsedShowsHeads | Tests/SwiftListTreeDataSourceTests/ListTreeDataSource+BasicTests.swift:121-130 | when every listed item is collapsed, the rows are exactly those items |
| Flattening.FlagFrame | Tests/SwiftListTreeDataSourceTests/ListTreeDataSource+BasicTests.swift:113-130 | flags never change the full traversal, and flags of hidden items never change the rows |
| Flattening.FlattenedUnderHead | Tests/SwiftListTreeDataSourceTests/ListTreeDataSource+BasicTests.swift:150-153 | every traversed item lies under one of the listed heads |
| Expansion.SetFlag | Tests/SwiftListTreeDataSourceTests/ListTreeDataSource+BasicTests.swift:183 | `item.isExpanded = flag` changes that item's flag and nothing else |
| Expansion.FlagAll | Tests/SwiftListTreeDataSourceTests/ListTreeDataSource+BasicTests.swift:228 | exactly the listed items get the flag; structure and all other flags are kept |
| Expansion.FlagEach | Tests/SwiftListTreeDataSourceTests/ListTreeDataSource+BasicTests.swift:228 | the loop setting the flag of each listed item in turn yields `FlagAll` |
| Expansion.ChildVisibility | Tests/SwiftListTreeDataSourceTests/ListTreeDataSource+BasicTests.swift:139-141 | a child is shown if and only if its parent is shown and expanded |
| Expansion.ToggleShowsOrHidesChildren | Tests/SwiftListTreeDataSourceTests/ListTreeDataSource+BasicTests.swift:132-142 | toggling a shown item keeps it shown, and its children become shown exactly when it was collapsed |
| Expansion.CollapsedHidesDescendants | Tests/SwiftListTreeDataSourceTests/ListTreeDataSource+BasicTests.swift:170-180 | no proper descendant of a collapsed item is shown |
| Expansion.ExpandedSubtreeIsVisible | Tests/SwiftListTreeDataSourceTests/ListTreeDataSource+BasicTests.swift:150-154 | a shown item whose whole subtree is expanded shows that whole subtree |
| Expansion.ExpandAllLevelsShowsSubtree | Tests/SwiftListTreeDataSourceTests/ListTreeDataSource+BasicTests.swift:144-155 | expanding all levels of a shown item shows the item and every descendant |
| Expansion.CollapseAllLevelsHidesDescendants | Tests/SwiftListTreeDataSourceTests/ListTreeDataSource+BasicTests.swift:157-168 | collapsing all levels of an item hides every proper descendant |
| Expansion.ExpandAllShowsEverything | Tests/SwiftListTreeDataSourceTests/ListTreeDataSource+BasicTests.swift:113-119 | with every item expanded the rows equal the full depth-first traversal |
| Expansion.CollapseAllShowsRoots | Tests/SwiftListTreeDataSourceTests/ListTreeDataSource+BasicTests.swift:121-130 | with every item collapsed the rows equal the roots, in order |
| Expansion.ExpandSplicesRows | Tests/SwiftListTreeDataSourceTests/ListTreeDataSource+BasicTests.swift:202-224 | expanding a shown collapsed item (and possibly items under it) inserts the newly shown items right after it and changes no other row |
| Expansion.ExpandRootInsertsChildren | Tests/SwiftListTreeDataSourceTests/ListTreeDataSource+BasicTests.swift:182-200 | with all collapsed, expanding root k gives the roots with root k's children inserted right after it (at index 1 for the first root, at the end for the last) |
| Expansion.ExpandAllLevelsInsertsSubtree | Tests/SwiftListTreeDataSourceTests/ListTreeDataSource+BasicTests.swift:226-260 | expanding a whole subtree inserts its pre-order right after its root and leaves the other rows in place |
| Levels.DepthTableTraverses | Tests/SwiftListTreeDataSourceTests/ListTreeDataSource+BasicTests.swift:265 | the top-down depth table `DepthTable` (the test helper `depthLookupTable`) lists exactly the full pre-order traversal |
| Levels.LevelKeepsShape | Tests/SwiftListTreeDataSourceTests/ListTreeDataSource+BasicTests.swift:267-270 | changing flags (as `expandAll` does) leaves every level unchanged |
| Levels.DepthTableGivesLevels | Tests/SwiftListTreeDataSourceTests/ListTreeDataSource+BasicTests.swift:264-272 | entry k of the depth table is the k-th item of the full traversal paired with its level |
| Levels.ExpandedRowsMatchDepthTable | Tests/SwiftListTreeDataSourceTests/ListTreeDataSource+BasicTests.swift:264-272 | after expanding everything, each row's level equals the depth the table records for it |
| Editing.Without | Tests/SwiftListTreeDataSourceTests/ListTreeDataSource+BasicTests.swift:279 | removing an item from a sequence keeps exactly the other entries; in a duplicate-free sequence the result is the sequence cut at the item's position, so the other entries keep their order |
| Editing.AddNode | Tests/SwiftListTreeDataSourceTests/ListTreeDataSource+BasicTests.swift:30-73 | one new collapsed leaf is created at the arena's end and placed at the given position of its containing sequence; the invariants are kept |
| Editing.AddAll | Tests/SwiftListTreeDataSourceTests/ListTreeDataSource+BasicTests.swift:62 | the loop adding the values one after the other places all new leaves, in order, at the given position and changes nothing else |
| Editing.Detach | Tests/SwiftListTreeDataSourceTests/ListTreeDataSource+BasicTests.swift:279 | detaching an item changes only `subitems` (values, flags and parent links are kept) and keeps the forest's invariants |
| Editing.DeleteRemovesSubtree | Tests/SwiftListTreeDataSourceTests/ListTreeDataSource+BasicTests.swift:276-287 | after detaching x, an item is in the full traversal exactly when it was before and does not lie under x; x's whole subtree is gone |
| Editing.PrunedStep | Tests/SwiftListTreeDataSourceTests/ListTreeDataSource+BasicTests.swift:279-285 | deleting one more value removes exactly the items under its node from the full traversal; unknown values change nothing |
| Editing.Prune | Tests/SwiftListTreeDataSourceTests/ListTreeDataSource+BasicTests.swift:276-287 | the loop over the values to delete removes exactly the items lying under one of their nodes, and leaves the roots and every subitems list as they were with those nodes stripped, order kept |
| Editing.Strip | Tests/SwiftListTreeDataSourceTests/ListTreeDataSource+BasicTests.swift:279-285 | stripping a set of items from a sequence keeps exactly the entries outside the set, in their order |
| Editing.StripWithout | Tests/SwiftListTreeDataSourceTests/ListTreeDataSource+BasicTests.swift:279-285 | stripping one more item is removing it from what was already stripped |
| Editing.StrippedStep | Tests/SwiftListTreeDataSourceTests/ListTreeDataSource+BasicTests.swift:279-285 | detaching an item strips it from every sequence of the forest, since only its container holds it |
| Editing.Position | Tests/SwiftListTreeDataSourceTests/ListTreeDataSource+BasicTests.swift:304 | the first index at which an item occurs in a sequence |
| Editing.OnlyPosition | Tests/SwiftListTreeDataSourceTests/ListTreeDataSource+BasicTests.swift:304-309 | in a duplicate-free sequence, any index holding the item is its position |
| Editing.FirstIndex | Tests/SwiftListTreeDataSourceTests/ListTreeDataSource+BasicTests.swift:304 | the search loop returns the first index holding the item, or none when it is absent |
| Editing.InsertAroundAnchor | Tests/SwiftListTreeDataSourceTests/ListTreeDataSource+BasicTests.swift:289-310 | inserting `a` after x keeps x's first position; inserting `b` before x then leaves `b`, x, `a` adjacent, in that order |
| Editing.IndexOf | Tests/SwiftListTreeDataSourceTests/ListTreeDataSource+BasicTests.swift:291 | the rebuilt index knows exactly the values of the traversed items and maps each to a traversed item holding it |
| Editing.BuildIndex | Tests/SwiftListTreeDataSourceTests/ListTreeDataSource+BasicTests.swift:35 | the loop over the full traversal builds `IndexOf` |
| Editing.Register | Tests/SwiftListTreeDataSourceTests/ListTreeDataSource+BasicTests.swift:43-44 | appended values are mapped to their new items; other entries are kept |
| Editing.RegisterSound | Tests/SwiftListTreeDataSourceTests/ListTreeDataSource+BasicTests.swift:55-62 | after adding items and registering their values, every index entry still names an item holding its key |
| Editing.AncestryKeepsIndex | Tests/SwiftListTreeDataSourceTests/ListTreeDataSource+BasicTests.swift:279-280 | deleting keeps every index entry naming an item holding its key |
| ListTree.ListTreeDataSource.constructor | Tests/SwiftListTreeDataSourceTests/ListTreeDataSource+BasicTests.swift:25 | a new data source is empty and valid |
| ListTree.ListTreeDataSource.PlaceAll | Tests/SwiftListTreeDataSourceTests/ListTreeDataSource+BasicTests.swift:43-44 | new leaves are spliced at a position of the containing sequence, and their values are findable at once |
| ListTree.ListTreeDataSource.Append | Tests/SwiftListTreeDataSourceTests/ListTreeDataSource+BasicTests.swift:30-73 | new values become the last roots, or the last children of the parent's item, in order; other roots and children are unchanged; an unknown parent is a no-op; the new values can be looked up at once |
| ListTree.ListTreeDataSource.InsertBeside | Tests/SwiftListTreeDataSourceTests/ListTreeDataSource+BasicTests.swift:289-310 | `Inserted`: new siblings are spliced into the anchor's containing sequence (`Container`: the parent's subitems, or the roots; line 302) at the anchor's first position or right after it; the new items hold the values and are registered in the index; everything else is unchanged; an unknown anchor, or one no longer in its sequence, is a no-op |
| ListTree.ListTreeDataSource.InsertBefore | Tests/SwiftListTreeDataSourceTests/ListTreeDataSource+BasicTests.swift:297-309 | `Inserted` with `after` false: the same full new forest and index as `InsertBeside`, the new items taking the anchor's old position |
| ListTree.ListTreeDataSource.InsertAfter | Tests/SwiftListTreeDataSourceTests/ListTreeDataSource+BasicTests.swift:293-309 | `Inserted` with `after` true: the same full new forest and index as `InsertBeside`, the new items right after the anchor |
| ListTree.ListTreeDataSource.Delete | Tests/SwiftListTreeDataSourceTests/ListTreeDataSource+BasicTests.swift:276-287 | afterwards an item is in the full traversal exactly when it was before and lies under none of the deleted values' items; the roots and every subitems list lose exactly those values' items and keep the order of the rest; rows and index wait for the reload |
| ListTree.ListTreeDataSource.Reload | Tests/SwiftListTreeDataSourceTests/ListTreeDataSource+BasicTests.swift:35 | the rows become the visible traversal and the index is rebuilt from the full traversal |
| ListTree.ListTreeDataSource.Lookup | Tests/SwiftListTreeDataSourceTests/ListTreeDataSource+BasicTests.swift:291 | finds an item exactly when the index knows the value, and the item holds that value |
| ListTree.ListTreeDataSource.LevelOf | Tests/SwiftListTreeDataSourceTests/ListTreeDataSource+BasicTests.swift:270 | the loop walking parent links returns the item's level |
| ListTree.ListTreeDataSource.SetExpanded | Tests/SwiftListTreeDataSourceTests/ListTreeDataSource+BasicTests.swift:183-184 | a direct flag write changes one flag and leaves the rows until the reload |
| ListTree.ListTreeDataSource.FlagAndReload | Tests/SwiftListTreeDataSourceTests/ListTreeDataSource+BasicTests.swift:114 | sets the listed flags and refreshes rows and index |
| ListTree.ListTreeDataSource.ToggleExpand | Tests/SwiftListTreeDataSourceTests/ListTreeDataSource+BasicTests.swift:132-142 | flips the flag and refreshes rows and index; a shown item stays shown, and its children are shown exactly when it was collapsed |
| ListTree.ListTreeDataSource.ExpandAll | Tests/SwiftListTreeDataSourceTests/ListTreeDataSource+BasicTests.swift:113-119 | every item expanded, the rows are the visible traversal (`Visible`) and equal the full traversal, and the index is rebuilt from it |
| ListTree.ListTreeDataSource.CollapseAll | Tests/SwiftListTreeDataSourceTests/ListTreeDataSource+BasicTests.swift:121-130 | every item collapsed, the rows are the visible traversal (`Visible`) and equal the roots, and the index is rebuilt from the full traversal |
| ListTree.ListTreeDataSource.UpdateAllLevels | Tests/SwiftListTreeDataSourceTests/ListTreeDataSource+BasicTests.swift:144-168 | sets the flag on an item's whole subtree and refreshes rows and index; expanding a shown item shows its whole subtree, collapsing hides every proper descendant |

## Left out

- The library's implementation file is not part of this model. The behaviour is modelled from the assertions of the test suite.
- The test fixture (`testDataSet`, `addItems`, `OutlineItem` titles) and the XCTest plumbing are not modelled. Their checks are stated as contracts and lemmas over any forest that satisfies the invariants.
- Values are any equality type. Hashing is not modelled.
- Duplicate values are allowed, but the lookup index keeps one item per value: the one registered or traversed last.
- Swift's reference counting is not modelled. Deleted items stay in the arena, unreachable from the roots.
- The rendering layer, row diffing and animations are not modelled.
- An anchor or parent the lookup index does not know makes `append` and `insert` a no-op. An insert anchor that is no longer in its containing sequence (it was deleted before the next reload) is also a no-op.
- ListTree.ListTreeDataSource.InsertBeside: the inserted values are registered in the lookup index at once, as `Append` does. No test looks up, appends to or inserts beside an inserted value before a reload, so the tests do not decide this. The same holds for `InsertBefore` and `InsertAfter`.
- ListTree.ListTreeDataSource.Delete: the lookup index is not pruned. Deleted values keep their entries until the next reload rebuilds the index.
- ListTree.ListTreeDataSource.ToggleExpand: the operation takes the item's arena index rather than a tree item reference. The same holds for `UpdateAllLevels`, `SetExpanded` and `LevelOf`.
- The insert scenario of lines 289-310 is proved on the containing sequence (`InsertAroundAnchor`). `InsertAfter` and `InsertBefore` each state the full new forest and index (`Inserted`), so each of the two steps follows from its contract. No method chains the two calls on a data source.
