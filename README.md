# usd-qt core, modelled in Dafny

This project models the logic at the core of usd-qt, the Qt widgets and models for editing USD stages. It leaves out the widgets themselves and models the data structures and rules they rely on:

- **Undo and redo** (`LayerData`, `Inversions`, `UndoRouter`, `UndoStateDelegate`, `UndoInverse`).
  - A layer's state delegate snapshots what each primitive edit overwrites and routes the inverse edit to the undo router.
  - The router batches inverses inside nested undo blocks and announces each finished outermost batch once.
  - An undo-stack entry replays its inverses last to first. Because the replay is recorded too, the entry then holds the redo.
  - The main results: undoing restores the layer as it was before the block, and redoing restores it as it was after.
- **Item trees** (`ItemTreeModel`, `ItemTreeRemoval`, `ItemTreeQueries`, `ItemTrees`).
  - treemodel's `ItemTree` and `LazyItemTree` keep three dictionaries consistent.
  - The operations are adding items, removing them (deleting or reparenting their children), the queries, the breadth-first walk, and the lazy fetching and forgetting of children.
- **The proxy model's index map** (`ProxyModel`).
  - `ItemIndexMap` is an ordered set with swap-remove.
  - Also modelled: the column maps and data store of `ItemDataModel`, and the source/proxy column maps of `ProxyTreeModel`.
- **The prim id table** (`PrimIdTableModel`, `PrimIdTables`, `PrimIdTablePort`).
  - It maps paths to ids: ids are handed out monotonically, children are registered lazily, and subtrees are deleted, invalidated and resynced.
  - The C++ table and its Python port are both modelled.
- **The hierarchy cache** (`HierarchyCacheModel`, `HierarchyCaches`). It is the path-to-proxy table behind the hierarchy model, with lazy child registration, rows, parents and resync.
- **The prim filter cache** (`PrimFilterCacheModel`, `PrimFilterCaches`, `PrimFilterCacheSample`, `PrimFilterCacheExample`).
  - The filter gives each prim Accept, Intermediate or Reject. An Intermediate prim is resolved from its children, and the children of a rejected prim are never visited.
  - The case-insensitive "path contains" filter is modelled with it.
- **Variant selections** (`Selections`, `Variants`, `UsdUtils`, `VariantEditor`).
  - usdlib's hierarchical cache keys, re-selection, and the recursive search of a prim spec for a combination of selections.
  - The listing of a prim's selections from its prim index.
  - The variant editor's name conforming, its spec walk and its selection helpers.
  - The edit-target context and the specifier spelling.
- **Opinion proxies** (`ProxyRules`, `UsdObjects`, `ObjectProxies`, `MetadataProxies`, `VariantSetsProxies`, `AttributeProxies`, `RelationshipProxies`, `PrimProxies`).
  - These are the objects an editor uses to show one field across several prims.
  - A value is shown only when every object shares it.
  - A list shows the entries every object has, in the first object's order.
  - A write goes to every object and reports success only when it succeeded everywhere.
- **Hooks** (`Hooks`): the registry of overridable functions, tried newest first, with fallback.
- **The opinion stack** (`OpinionStacks`): a prim's specs grouped by layer, each layer row showing its strongest opinion, and the filter that hides rows without one.

Shared pieces:
- `Wrappers` holds Option and Result.
- `SdfPaths` holds scene-description paths with their order, sorting and `std::find`.
- `UsdStages` is a snapshot of the composed stage: each prim's flags and its children.

Where the source changes state in place, the model is a class:
- the router, the delegate and the undo entry;
- the item tree;
- the index map;
- the prim id table;
- the hierarchy cache;
- the filter cache;
- the edit-target context;
- the proxies;
- the hook registry;
- the opinion stack model and filter.

Each method's contract gives its new state and its result as a function of the old state, and the properties are proved as lemmas about those functions. Loops in the source are loops here, with the invariants that tie them to those functions.

USD, Sdf, Pcp and Qt are not re-implemented. They appear as values the model is given:
- a layer's data;
- a stage snapshot;
- a prim index's node tree;
- an object's answers to the queries the proxies make;
- a hook's behaviour.

`usdlib/variants.py` and `pxr/usdQt/usdUtils.py` each define the same `EditTargetContext`. Both are modelled by `UsdUtils.EditTargetContext`.

## Model

| member | source | states |
|---|---|---|
| `LayerData.ApplyWellFormed` | usdQt/undoStateDelegate.cpp:277-403 | every edit the layer accepts and announces to the delegate keeps the layer data normalised (no empty container stored) |
| `LayerData.CopySpecsIntoVacancy` | usdQt/undoStateDelegate.cpp:125-131 | copying snapshot specs into paths that hold no spec or a field-less one is plain union with the snapshot |
| `LayerData.CopySpecsWellFormed` | usdQt/undoStateDelegate.cpp:146-163 | copying a normalised snapshot back into normalised layer data keeps it normalised |
| `LayerData.MoveKeys` | usdQt/undoStateDelegate.cpp:347-356 | after moving `o` to a vacant `n`, the specs are those outside `o` plus, under `n`, exactly the ones that were under `o` |
| `LayerData.RerootInverse` | usdQt/undoStateDelegate.cpp:167-178 | rerooting a path from `o` to `n` and back gives the path again |
| `Inversions.WithFieldSame` | usdQt/undoStateDelegate.cpp:69-81 | writing back the value a field read gives leaves the layer data unchanged |
| `Inversions.WithFieldReads` | usdQt/undoStateDelegate.cpp:79 | a written field reads back as written, or as empty when the value is an empty container |
| `Inversions.WithFieldDictSame` | usdQt/undoStateDelegate.cpp:242-255 | writing back the dictionary a field read gives leaves the layer data unchanged |
| `Inversions.WithFieldSamplesSame` | usdQt/undoStateDelegate.cpp:257-275 | writing back the time samples a field read gives leaves the layer data unchanged |
| `Inversions.WithFieldChildrenSame` | usdQt/undoStateDelegate.cpp:357-403 | writing back the children list a field read gives leaves the layer data unchanged |
| `Inversions.SetFieldUndone` | usdQt/undoStateDelegate.cpp:230-240 | the inverse recorded before a field is set is replayable afterwards and restores the layer data |
| `Inversions.DictValueUndone` | usdQt/undoStateDelegate.cpp:242-255 | the inverse recorded before a dictionary key is set restores the layer data |
| `Inversions.TimeSampleUndone` | usdQt/undoStateDelegate.cpp:257-275 | the inverse recorded before a time sample is set restores the layer data, both when the spec had no time samples (the whole field is cleared) and when it had some (the old sample is written back) |
| `Inversions.CreateSpecUndone` | usdQt/undoStateDelegate.cpp:312-321 | the inverse recorded for a spec creation deletes it again and restores the layer data |
| `Inversions.DeleteSpecUndone` | usdQt/undoStateDelegate.cpp:329-345 | the inverse recorded for a deletion, with its snapshot of the subtree, re-creates the spec and its descendants exactly |
| `Inversions.MoveVacates` | usdQt/undoStateDelegate.cpp:347-356 | after a move the moved root is at the new path and nothing is left at or below the old one |
| `Inversions.MoveBack` | usdQt/undoStateDelegate.cpp:167-178 | moving a subtree away and back again restores the layer data |
| `Inversions.MoveReplayable` | usdQt/undoStateDelegate.cpp:167-178 | the opposite move of an accepted move is accepted by the layer |
| `Inversions.MoveSpecUndone` | usdQt/undoStateDelegate.cpp:347-356 | the inverse recorded for a move moves the subtree back and restores the layer data |
| `Inversions.PushChildUndone` | usdQt/undoStateDelegate.cpp:357-379 | the inverse recorded for pushing a child (token or path) pops it and restores the layer data |
| `Inversions.PopChildUndone` | usdQt/undoStateDelegate.cpp:381-403 | the inverse recorded for popping a child pushes it back and restores the layer data |
| `Inversions.RecordedInverseUndoes` | usdQt/undoStateDelegate.cpp:230-403 | for every kind of edit, the recorded inverse is accepted by the edited layer and replaying it gives back the layer data before the edit |
| `Inversions.ReplayWellFormed` | usdQt/undoStateDelegate.cpp:69-228 | replaying an inverse keeps the layer data normalised |
| `Inversions.RedoUndoesReplay` | usdQt/undoStateDelegate.cpp:69-228 | a replay announces exactly one edit, and the inverse recorded for it (the redo) restores the layer data from before the replay |
| `Inversions.BackwardAppend` | usdQt/undoInverse.cpp:35-40 | replaying `a + b` last to first is replaying `b`, then `a` |
| `Inversions.UndoRestores` | usdQt/undoInverse.cpp:35-40 | the inverses recorded for a sequence of accepted edits, one per edit, replayed last to first, restore the original layer data |
| `Inversions.RedoRestores` | usdQt/undoInverse.cpp:42-61 | the inverses recorded while replaying an undo entry, replayed last to first in turn, restore the layer data from before the undo |
| `UndoRouter.RoutedInsideBlock` | pxr/usdQt/undoRouter.cpp:59-62 | inside an open, unmuted block each routed inverse is only appended to the router's buffer, in order |
| `UndoRouter.BlockBatches` | pxr/usdQt/undoBlock.cpp:32-70 | an outermost block around any edits sends one notice and gives a listening host one entry with all their inverses in order (none for an empty block), and leaves the router as it was |
| `UndoRouter.UnblockedEditsSeparate` | pxr/usdQt/undoRouter.cpp:59-62 | outside any block each inverse is a block of its own: one notice and one host entry per edit |
| `UndoRouter.MutedDropsAll` | usdQt/undoStateDelegate.cpp:60-67 | while the router is muted, routing drops every inverse and only adds one warning each |
| `UndoRouter.Router.constructor` | pxr/usdQt/undoRouter.cpp:50-52 | a new router has depth and mute depth 0 and an empty buffer |
| `UndoRouter.Router.OpenBlock` | pxr/usdQt/undoBlock.cpp:32-49 | opening a block raises the depth; opening an outermost block over a non-empty buffer reports the fragmented-block error |
| `UndoRouter.Router.CloseBlock` | pxr/usdQt/undoBlock.cpp:51-70 | closing the outermost block sends a notice if the buffer is non-empty; a listening host adopts it, otherwise the error is reported and the buffer cleared |
| `UndoRouter.Router.AddInverse` | pxr/usdQt/undoRouter.cpp:59-62 | the inverse is appended inside a block of its own |
| `UndoRouter.Router.Mute` | pxr/usdQt/undoRouter.cpp:74-76 | the mute depth goes up by one, nothing else changes |
| `UndoRouter.Router.Unmute` | pxr/usdQt/undoRouter.cpp:78-83 | the mute depth goes down by one, with an error when it drops below zero; it is not clamped |
| `UndoStateDelegate.StateDelegate.constructor` | usdQt/undoStateDelegate.cpp:34-37 | a new delegate is clean and has no layer |
| `UndoStateDelegate.StateDelegate.MarkCurrentStateAsClean` | usdQt/undoStateDelegate.cpp:45-47 | clears the dirty flag |
| `UndoStateDelegate.StateDelegate.MarkCurrentStateAsDirty` | usdQt/undoStateDelegate.cpp:49 | sets the dirty flag |
| `UndoStateDelegate.StateDelegate.OnSetLayer` | usdQt/undoStateDelegate.cpp:51-58 | stores the layer handle, null included |
| `UndoStateDelegate.StateDelegate.RouteInverse` | usdQt/undoStateDelegate.cpp:60-67 | the inverse goes to the router unless it is muted, in which case a warning is reported instead |
| `UndoStateDelegate.StateDelegate.OnSetField` | usdQt/undoStateDelegate.cpp:230-240 | marks the state dirty and routes the inverse that writes the field's current value back |
| `UndoStateDelegate.StateDelegate.OnSetFieldDictValueByKey` | usdQt/undoStateDelegate.cpp:242-255 | marks the state dirty and routes the inverse that writes the key's current value back |
| `UndoStateDelegate.StateDelegate.OnSetTimeSample` | usdQt/undoStateDelegate.cpp:257-275 | marks the state dirty and routes either the inverse that clears the time samples field (none yet) or the one that writes the old sample back |
| `UndoStateDelegate.StateDelegate.OnCreateSpec` | usdQt/undoStateDelegate.cpp:312-321 | marks the state dirty and routes the inverse that deletes the new spec |
| `UndoStateDelegate.StateDelegate.OnDeleteSpec` | usdQt/undoStateDelegate.cpp:329-345 | marks the state dirty and routes the inverse holding the spec type and a snapshot of every spec at or below the path |
| `UndoStateDelegate.StateDelegate.OnMoveSpec` | usdQt/undoStateDelegate.cpp:347-356 | marks the state dirty and routes the inverse that moves the spec back |
| `UndoStateDelegate.StateDelegate.OnPushChild` | usdQt/undoStateDelegate.cpp:357-379 | marks the state dirty and routes the inverse that pops the child |
| `UndoStateDelegate.StateDelegate.OnPopChild` | usdQt/undoStateDelegate.cpp:381-403 | marks the state dirty and routes the inverse that pushes the child back |
| `UndoStateDelegate.StateDelegate.PerformEdit` | usdQt/undoStateDelegate.cpp:277-310 | an accepted edit is announced to its recorder (its inverse routed, state dirty) and then performed; a refused edit changes nothing |
| `UndoStateDelegate.StateDelegate.CopySnapshot` | usdQt/undoStateDelegate.cpp:146-163 | every spec of a snapshot is copied into the layer data, fields merged over an existing spec |
| `UndoStateDelegate.StateDelegate.ReplayInverse` | usdQt/undoStateDelegate.cpp:69-228 | with an expired layer a replay reports an error, edits nothing and fails; otherwise it performs the opposite edit through the delegate, recording the redo, and succeeds |
| `UndoStateDelegate.TrackLayer` | pxr/usdQt/undoRouter.cpp:54-57 | installs a fresh, clean delegate on the layer and succeeds; a delegate already installed is detached |
| `UndoInverse.ExpiredReplays` | usdQt/undoStateDelegate.cpp:75-78 | replays against an expired layer leave the router as it was apart from one expired-layer error each |
| `UndoInverse.ReplayInsideBlock` | usdQt/undoInverse.cpp:35-40 | inside an unmuted block, replaying an entry only appends its redo inverses to the router's buffer |
| `UndoInverse.InvertOutsideBlock` | usdQt/undoInverse.cpp:42-61 | inverting an entry outside any block leaves the router exactly as it was and turns the entry into the redo inverses |
| `UndoInverse.UndoInverse.FromRouter` | usdQt/undoInverse.cpp:71-74 | the new entry takes the router's buffer and the buffer is emptied |
| `UndoInverse.UndoInverse.Append` | usdQt/undoInverse.cpp:31-33 | the inverse is added at the end |
| `UndoInverse.UndoInverse.Clear` | usdQt/undoInverse.cpp:63 | the entry becomes empty |
| `UndoInverse.UndoInverse.Adopt` | usdQt/undoInverse.cpp:65-69 | the other entry's inverses are appended in order |
| `UndoInverse.UndoInverse.InvertAll` | usdQt/undoInverse.cpp:35-40 | every stored inverse is replayed once, last first, with the layer and router afterwards as the replay functions say |
| `UndoInverse.UndoInverse.Invert` | usdQt/undoInverse.cpp:42-61 | reports an error inside an open block but goes on; replays the entry inside a block of its own, then replaces the entry by the redo inverses, emptying the router's buffer so no notice is sent |
| `UndoInverse.TransferEdits` | pxr/usdQt/undoRouter.cpp:68-72 | the router's buffer is appended to the target entry and emptied; it always succeeds |
| `UndoInverse.EditInBlock` | pxr/usdQt/undoBlock.cpp:32-70 | edits made inside one outermost block are each performed, and the router ends as the block rule says for their recorded inverses |
| `UndoInverse.UndoRedo` | usdQt/undoInverse.cpp:42-61 | one block of edits gives the host one entry; inverting it restores the layer as before the block, inverting it again as after, and the router is left undisturbed |
| `ItemTreeModel.Fresh` | treemodel/itemtree.py:58-74 | a new tree is sound and holds only the root: one children entry, no parents, the root's key mapped to the root |
| `ItemTreeModel.IncomingSpec` | treemodel/itemtree.py:275-288 | AddItems' validation succeeds exactly when no not-yet-placed item's key shadows an existing key or repeats an earlier incoming one, and then yields the not-yet-placed items in order |
| `ItemTreeModel.IncomingFresh` | treemodel/itemtree.py:275-288 | what validation lets through are incoming items not yet in the tree, with keys new to the tree and pairwise distinct |
| `ItemTreeModel.KeyIndexSpec` | treemodel/itemtree.py:291-294 | after registration every key maps to the item carrying it, the new items included |
| `ItemTreeModel.AddShape` | treemodel/itemtree.py:290-297 | the three dictionaries after registering fresh items under a parent, entry by entry: new keys, new children entries, new parent links, and the parent's list extended |
| `ItemTreeModel.AddWf` | treemodel/itemtree.py:290-297 | registering validated items under an item of the tree keeps the dictionaries consistent (each child listed once by its parent, keys unique, a rank growing downward) |
| `ItemTreeModel.AddItemsSound` | treemodel/itemtree.py:251-299 | AddItems keeps a sound tree sound, whether it returns the new items or raises |
| `ItemTreeModel.ChildrenFetchOnce` | treemodel/itemtree.py:427-437 | a children lookup that does not fetch changes nothing and returns the stored list; one that fetches leaves the parent holding a list, so the next lookup does not fetch again |
| `ItemTreeModel.ChildrenBlocked` | treemodel/itemtree.py:429-432 | with updates blocked an unfetched parent reads as childless and nothing changes |
| `ItemTreeModel.ChildrenSound` | treemodel/itemtree.py:132-151 | looking children up, lazy fetching and AddItems included, keeps a sound tree sound |
| `ItemTreeRemoval.WithoutDistinct` | treemodel/itemtree.py:347 | `list.remove` on a list without repeats loses exactly that item and keeps no repeats |
| `ItemTreeRemoval.Unlink` | treemodel/itemtree.py:346-349 | the end of a removal pass: the item loses its parent link (KeyError when it has none), its place in the parent's list, its key and its own entry, and nothing else changes |
| `ItemTreeRemoval.PrefetchNoFetch` | treemodel/itemtree.py:331 | without fetching, the pass that looks up every item's children changes nothing, records no fetched list and fails exactly on an item not in the tree |
| `ItemTreeRemoval.FetchingFirstPass` | treemodel/itemtree.py:331 | on a lazy tree whose fetch for `x` returns `[k]`, an item already under the root, the first pass stores no new child for `x` and records the fetched `[k]` as the list the pass over `x` will use |
| `ItemTreeRemoval.FetchedReparent` | treemodel/itemtree.py:331-349 | on that tree, reparent-mode RemoveItems([x]) hands the fetched `[k]` to the root, which ends listing `k` twice, and reports `[x]` |
| `ItemTreeRemoval.FetchedDelete` | treemodel/itemtree.py:331-350 | on that tree, delete-mode RemoveItems([x]) deletes the fetched `k`, the root's own child, reports `[k, x]` and leaves only the root |
| `ItemTreeRemoval.ClimbOnTree` | treemodel/itemtree.py:340-342 | on a tree the `while newParent in items` climb terminates on an item of the tree outside `items`, ranked no deeper than the start |
| `ItemTreeRemoval.UnlinkWf` | treemodel/itemtree.py:346-349 | unlinking an item that no one names as parent leaves a consistent tree |
| `ItemTreeRemoval.UnlinkDeletes` | treemodel/itemtree.py:346-349 | unlinking a childless non-root item deletes exactly it |
| `ItemTreeRemoval.HandedKeys` | treemodel/itemtree.py:343-344 | handing children to the new parent adds and drops no item, so the root and the keys are unchanged |
| `ItemTreeRemoval.HandedParentOf` | treemodel/itemtree.py:343-344 | after the hand-over each child's new parent lists it and is not the removed item |
| `ItemTreeRemoval.HandedDetachable` | treemodel/itemtree.py:340-346 | once an item's children are handed to an ancestor, the item can be unlinked |
| `ItemTreeRemoval.HandedRanked` | treemodel/itemtree.py:340-344 | the hand-over moves children under an item ranked above their old parent, so ranks still grow downward |
| `ItemTreeRemoval.DeleteParent` | treemodel/itemtree.py:335-349 | once an item's children are deleted, unlinking the item completes the deletion of its subtree |
| `ItemTreeRemoval.DeleteStep` | treemodel/itemtree.py:334-350 | a delete-mode pass over an item with children removes them recursively first and then unlinks the item |
| `ItemTreeRemoval.RemoveStep` | treemodel/itemtree.py:320-351 | a RemoveItems that does not fetch is its loop over the distinct non-root items when they are all in the tree, and fails without change otherwise |
| `ItemTreeRemoval.ProcessItemDeleteWf` | treemodel/itemtree.py:333-350 | on a tree that does not fetch, one delete-mode pass removes the item and exactly its descendants and keeps the tree consistent |
| `ItemTreeRemoval.RemoveDeleteWf` | treemodel/itemtree.py:301-351 | on a tree that does not fetch, a successful delete-mode RemoveItems leaves a consistent tree without any of the items, removing only items at least as deep as the shallowest named, and returns exactly what it removed, each once |
| `ItemTreeRemoval.HandOver` | treemodel/itemtree.py:339-349 | reparent mode: an item's children move to its nearest ancestor outside `items`, then the item is unlinked |
| `ItemTreeRemoval.ReparentItem` | treemodel/itemtree.py:333-350 | a reparent-mode pass over a non-root item of the tree always succeeds, removes just that item and keeps the tree consistent |
| `ItemTreeRemoval.ReparentAll` | treemodel/itemtree.py:333-351 | the reparent-mode loop over distinct items of the tree removes exactly them and keeps the tree consistent |
| `ItemTreeRemoval.RemoveReparentWf` | treemodel/itemtree.py:301-351 | reparent mode on a consistent tree that does not fetch: removes exactly the named non-root items, keeping the tree consistent, or changes nothing when one is not in the tree |
| `ItemTreeRemoval.RemoveDeleteSubtrees` | treemodel/itemtree.py:301-351 | delete mode on a consistent tree that does not fetch: an item not in the tree is reported without change; on success the named items and all their descendants are gone and every other item stays |
| `ItemTreeRemoval.RemoveSound` | treemodel/itemtree.py:301-351 | RemoveItems in either mode keeps a tree that does not fetch a tree when it succeeds |
| `ItemTreeQueries.ItemCountKeys` | treemodel/itemtree.py:76-96 | the item count is the number of parented items and one less than the number of keys; Empty holds exactly when it is 0; IterItems lists every item once with its own key |
| `ItemTreeQueries.ItemByKeyFinds` | treemodel/itemtree.py:98-112 | ItemByKey finds exactly the item carrying the key and raises ItemLookupError exactly when none does |
| `ItemTreeQueries.ParentSpec` | treemodel/itemtree.py:114-130 | Parent is the one item that lists the item among its children; the root raises ValueError and an item not in the tree ItemLookupError |
| `ItemTreeQueries.PyIndexSpec` | treemodel/itemtree.py:215 | a row and the same row counted from the end index the same child; rows outside the list raise IndexError |
| `ItemTreeQueries.ChildCountRows` | treemodel/itemtree.py:153-215 | ChildCount and ChildAtRow agree: ChildAtRow finds a child exactly at rows from minus the count to the count minus one, and both leave the same state |
| `ItemTreeQueries.RowIndexRoundTrip` | treemodel/itemtree.py:203-232 | RowIndex changes nothing and finds a row of the parent at which ChildAtRow gives the item back; an item without a parent raises ItemLookupError |
| `ItemTreeQueries.WalkStep` | treemodel/itemtree.py:368-371 | one draw of the walk keeps its invariant: the head is yielded and its children, none seen before, join the queue |
| `ItemTreeQueries.WalkOrder` | treemodel/itemtree.py:367-371 | the walk loop on a tree that does not fetch changes nothing, raises nothing, yields each item once and every item after its parent |
| `ItemTreeQueries.WalkItemsOrder` | treemodel/itemtree.py:353-371 | WalkItems on a tree that does not fetch changes nothing, yields at most `limit` distinct items, every one after its parent, the first being children of the start |
| `ItemTreeQueries.PlaceholderWf` | treemodel/itemtree.py:439-440 | in a LazyItemTree a childless item may hold the unfetched placeholder and the tree stays sound |
| `ItemTreeQueries.ForgetSound` | treemodel/itemtree.py:442-469 | a successful ForgetChildren keeps the tree a tree, leaves the parent with the placeholder so the next lookup fetches again, and removes its former children and their descendants |
| `ItemTrees.WalkDraw` | treemodel/itemtree.py:368-371 | one draw of the walk looks up the head's children, then yields the head and queues them; a failed lookup ends the walk with its error |
| `ItemTrees.ItemTree.constructor` | treemodel/itemtree.py:58-74 | the root is the given item or a new `__ROOT__` item, and the state is the fresh tree of that root |
| `ItemTrees.ItemTree.NewItems` | treemodel/itemtree.py:275-288 | the validation loop returns the incoming-item validation result and changes nothing |
| `ItemTrees.ItemTree.Register` | treemodel/itemtree.py:290-297 | the registration loop leaves the state of registering the new items under the parent |
| `ItemTrees.ItemTree.AddItems` | treemodel/itemtree.py:251-299 | the new state and result are those of the AddItems function, proved sound-preserving by AddItemsSound |
| `ItemTrees.ItemTree.GetItemChildren` | treemodel/itemtree.py:132-151 | new state and result are the children-lookup function's, fetching included |
| `ItemTrees.ItemTree.Children` | treemodel/itemtree.py:171-201 | the children of the given parent or of the root, as the lookup function gives them |
| `ItemTrees.ItemTree.ChildCount` | treemodel/itemtree.py:153-169 | the length of the looked-up children list, or the lookup's error |
| `ItemTrees.ItemTree.ChildAtRow` | treemodel/itemtree.py:203-215 | the child at the Python index `row`, or IndexError, or the lookup's error |
| `ItemTrees.ItemTree.RowIndex` | treemodel/itemtree.py:217-232 | the position of the item in its parent's list, or ItemLookupError |
| `ItemTrees.ItemTree.NewParent` | treemodel/itemtree.py:340-342 | the climb from the item's parent to its first ancestor outside `items`, KeyError when it has no parent |
| `ItemTrees.ItemTree.HandTo` | treemodel/itemtree.py:343-344 | the children are appended to the new parent's list and re-parented under it |
| `ItemTrees.ItemTree.Detach` | treemodel/itemtree.py:346-349 | succeeds exactly when the unlink does, with its state; otherwise nothing changes |
| `ItemTrees.ItemTree.RemoveOne` | treemodel/itemtree.py:331-350 | one pass of the removal loop over the children the first pass looked up (the fetched list when that lookup fetched, otherwise the list the tree holds now), as the pass function gives it |
| `ItemTrees.ItemTree.RemoveItemsTo` | treemodel/itemtree.py:301-351 | RemoveItems with a recursion budget: the removal function's state and result |
| `ItemTrees.ItemTree.RemoveItems` | treemodel/itemtree.py:301-351 | the removal function's state and result within the tree's recursion limit |
| `ItemTrees.ItemTree.WalkItems` | treemodel/itemtree.py:353-371 | the items yielded, the error that ended the walk and the state after it are the walk function's |
| `ItemTrees.ItemTree.ForgetChildren` | treemodel/itemtree.py:442-469 | the forget function's state and result; updates are unblocked again on return |
| `ProxyModel.PositionsSpec` | treemodel/qt/proxymodel.py:221-222 | the name-to-index dictionary built by enumeration maps exactly the listed names, each to the position of its last occurrence, where the list holds that name |
| `ProxyModel.ItemIndexRoundTrip` | treemodel/qt/proxymodel.py:44-69 | on an indexed map `item` and `index` are inverse: the row of an item holds it, the item at a row has that row, and `item` gives None exactly outside Python's index range |
| `ProxyModel.IndexedDistinct` | treemodel/qt/proxymodel.py:22-31 | an indexed map holds no item twice |
| `ProxyModel.AddSpec` | treemodel/qt/proxymodel.py:71-88 | addItem keeps the map indexed, adds exactly the item, returns the row holding it (the old row if present, the new last row if not) and is idempotent |
| `ProxyModel.RemoveAsWrittenSpec` | treemodel/qt/proxymodel.py:90-108 | as written, removing an item not in the last row keeps the map indexed, drops exactly that item, shortens the list by one and returns True; an absent item changes nothing and returns False |
| `ProxyModel.RemoveSwapIndexed` | treemodel/qt/proxymodel.py:103-105 | moving the popped last item into the removed item's row keeps the map indexed |
| `ProxyModel.RemoveLastFails` | treemodel/qt/proxymodel.py:103-104 | as written, removing the item in the last row, the only item included, raises IndexError |
| `ProxyModel.RemoveSpec` | treemodel/qt/proxymodel.py:90-108 | the corrected removeItem never fails on an indexed map, keeps it indexed, drops exactly the item, shortens the list exactly when it was present and reports whether it was |
| `ProxyModel.ItemIndexMap.constructor` | treemodel/qt/proxymodel.py:29-31 | a new map is empty |
| `ProxyModel.ItemIndexMap.AddItem` | treemodel/qt/proxymodel.py:71-88 | new state and row are addItem's, whose properties AddSpec proves |
| `ProxyModel.ItemIndexMap.RemoveItem` | treemodel/qt/proxymodel.py:90-108 | new state and result are those of the corrected removal, whose properties RemoveSpec proves |
| `ProxyModel.ColumnOfSpec` | treemodel/qt/proxymodel.py:254-275 | a name finds a column exactly when some column has it, and then the last column with that name; a position finds the column there, counted from the end when negative, and None outside the range |
| `ProxyModel.SetGetRoundTrip` | treemodel/qt/proxymodel.py:277-350 | after a successful setItemData getItemData returns the value for the same item, column and role, and every other key keeps its value; an unsuccessful set changes nothing; an item not in the map raises ValueError; an unknown column returns False |
| `ProxyModel.ItemDataModel.constructor` | treemodel/qt/proxymodel.py:124-143 | the columns and name map are set and the store is empty; the given index map is used unless it is missing or empty, when a new empty one is made |
| `ProxyModel.ItemDataModel.SetColumns` | treemodel/qt/proxymodel.py:212-221 | the columns are stored and each name maps to its last position; the data store is untouched |
| `ProxyModel.ItemDataModel.ColumnFor` | treemodel/qt/proxymodel.py:254-275 | reading through the stored name map gives the column lookup that ColumnOfSpec characterises |
| `ProxyModel.ItemDataModel.SetItemData` | treemodel/qt/proxymodel.py:309-350 | the store and result are those of the setItemData function; columns unchanged |
| `ProxyModel.ForwardMap` | treemodel/qt/proxymodel.py:485-493 | succeeds exactly when every name is a source column, then lists each name's source index in order; otherwise KeyError |
| `ProxyModel.SourceToProxyInverse` | treemodel/qt/proxymodel.py:495-497 | the source-to-proxy dictionary maps exactly the shown source columns, each to a proxy column showing it (the last one when shown twice) |
| `ProxyModel.ProxyTreeModel.constructor` | treemodel/qt/proxymodel.py:372-381 | the source model is recorded and both column maps start empty |
| `ProxyModel.ProxyTreeModel.SetSourceColumns` | treemodel/qt/proxymodel.py:476-497 | KeyError with nothing changed for an unknown name; otherwise the forward map and its inverse are stored |
| `PrimIdTableModel.ItemAt` | usdQt/primIdTable.cpp:284-286 | reading `_idToItem` at a missing id yields a default item with the empty path and no children, as `std::map::operator[]` does |
| `PrimIdTableModel.RegisterKeeps` | usdQt/primIdTable.cpp:68-81 | registering a prim keeps the table consistent, adds its path under the next id with its filtered children when it is new, changes nothing when it is known, and keeps every existing id and item |
| `PrimIdTableModel.FreshTable` | usdQt/primIdTable.cpp:53-66 | a new table is well formed and holds only the root, under id 1 with its filtered children; the last id is 1 and the root is the root |
| `PrimIdTableModel.GetIdFromPath` | usdQt/primIdTable.cpp:93-100 | on a consistent table the id is 0 exactly when the path is not registered |
| `PrimIdTableModel.GetPathFromId` | usdQt/primIdTable.cpp:102-109 | on a well-formed table a nonzero id gives the empty path exactly when it is unknown |
| `PrimIdTableModel.GetChildCount` | usdQt/primIdTable.cpp:111-118 | the number of children listed for the id, 0 for an unknown id |
| `PrimIdTableModel.GetChildPath` | usdQt/primIdTable.cpp:120-135 | an index below the child count gives one of the item's children |
| `PrimIdTableModel.GetLastId` | usdQt/primIdTable.h:163 | on a consistent table the last id is at least every id handed out |
| `PrimIdTableModel.IdPathRoundTrip` | usdQt/primIdTable.cpp:93-135 | path-to-id and id-to-path are inverse on registered paths and ids; unknown paths give id 0 and unknown ids the empty path, no children and an empty child path |
| `PrimIdTableModel.ContainsIdSpec` | usdQt/primIdTable.h:129-131 | the corrected ContainsId holds for a nonzero id exactly when some registered path has it |
| `PrimIdTableModel.ContainsIdInverted` | usdQt/primIdTable.h:129-131 | as written (`count(id) == 0`) ContainsId denies the root id 1 of a new table and affirms the unused id 0 |
| `PrimIdTableModel.ParentIdSpec` | usdQt/primIdTable.cpp:137-156 | the root's parent id is 0; otherwise the parent id is the id of the parent path when that is registered (and maps back to it), and 0 when it is not |
| `PrimIdTableModel.RowSpec` | usdQt/primIdTable.cpp:158-184 | the root's row is 0; another item's row is at most its parent's child count, below it exactly when the parent lists the item, and then the child at that row is the item |
| `PrimIdTableModel.RegisterChildSpec` | usdQt/primIdTable.cpp:186-218 | RegisterChild succeeds exactly when the index is in range and the child is registered or is a valid prim with ids left; then the child is registered, under the next id when it was new; on failure or for a known child nothing changes |
| `PrimIdTableModel.RegisterChildKeeps` | usdQt/primIdTable.cpp:186-218 | RegisterChild keeps the table consistent and its ids within the maximum, so ids stay within 32 bits when the maximum is |
| `PrimIdTableModel.DeleteOf` | usdQt/primIdTable.cpp:220-234 | deleting a subtree only removes entries and unregisters the path; an unregistered path changes nothing |
| `PrimIdTableModel.DeleteAll` | usdQt/primIdTable.cpp:227-230 | the loop over a deleted item's children only removes entries and unregisters each child |
| `PrimIdTableModel.DeleteKeeps` | usdQt/primIdTable.cpp:220-234 | deleting a subtree keeps the table consistent, removes the item's id, removes only paths under the deleted one and leaves no item listing a removed registered child |
| `PrimIdTableModel.InvalidateOf` | usdQt/primIdTable.cpp:236-265 | invalidating a subtree keeps the table consistent, changes only paths under it, leaves it refreshed (children re-read from the stage, or deleted when no longer accepted), keeps it registered when still accepted and changes nothing for an unregistered path |
| `PrimIdTableModel.InvalidateAll` | usdQt/primIdTable.cpp:244-247 | the loop over a kept item's old children changes only paths below it and keeps its own entry |
| `PrimIdTableModel.InvalidateEach` | usdQt/primIdTable.cpp:340 | invalidating each resynced path in turn keeps the table consistent, registers no new path and hands out no id |
| `PrimIdTableModel.RefreshedStays` | usdQt/primIdTable.cpp:340 | invalidating one path keeps another refreshed unless the first is a proper ancestor of it |
| `PrimIdTableModel.InvalidateEachRefreshes` | usdQt/primIdTable.cpp:270-271 | with the paths sorted, every resynced path is refreshed at the end of the last loop |
| `PrimIdTableModel.InvalidateEachOutside` | usdQt/primIdTable.cpp:340 | a registered path not under any resynced path keeps its id and item |
| `PrimIdTableModel.KeptChildren` | usdQt/primIdTable.cpp:295-311 | the kept children are exactly the filtered children that were original children or are being resynced; the out-of-sync ones are exactly the rest |
| `PrimIdTableModel.UpdateParent` | usdQt/primIdTable.cpp:284-331 | updating one parent changes no id and reports exactly the filtered children that disagree with the original list and the resync list, in either direction |
| `PrimIdTableModel.UpdateParentKeeps` | usdQt/primIdTable.cpp:284-331 | updating one parent keeps the table consistent, changes only the parent's item, and gives it exactly the kept children |
| `PrimIdTableModel.UpdateParents` | usdQt/primIdTable.cpp:280-335 | the loop over the unique parents changes no id and never reports a resynced path |
| `PrimIdTableModel.UpdateParentsOthers` | usdQt/primIdTable.cpp:280-335 | the item of a nonzero id that belongs to no updated parent is untouched |
| `PrimIdTableModel.UpdateParentsChildren` | usdQt/primIdTable.cpp:280-335 | every registered parent gets exactly its kept children and all its disagreements are reported |
| `PrimIdTableModel.ResyncSpec` | usdQt/primIdTable.cpp:267-341 | ResyncSubtrees keeps the table consistent, registers nothing new, leaves every resynced path refreshed, reports no resynced path as out of sync, and gives each parent outside the resynced subtrees exactly its kept children |
| `PrimIdTables.PrimIdTable.constructor` | usdQt/primIdTable.cpp:53-66 | the table is the fresh table for the root, and valid |
| `PrimIdTables.PrimIdTable.RegisterPrim` | usdQt/primIdTable.cpp:68-81 | the new state is the registration function's and stays valid |
| `PrimIdTables.PrimIdTable.GetRow` | usdQt/primIdTable.cpp:158-184 | the row loop finds the row function's value, characterised by RowSpec |
| `PrimIdTables.PrimIdTable.RegisterChild` | usdQt/primIdTable.cpp:186-218 | new state and result are RegisterChild's, characterised by RegisterChildSpec |
| `PrimIdTables.PrimIdTable.DeleteSubtree` | usdQt/primIdTable.cpp:220-234 | the recursive deletion leaves the state of DeleteOf and stays valid |
| `PrimIdTables.PrimIdTable.InvalidateSubtree` | usdQt/primIdTable.cpp:236-265 | the recursive invalidation leaves the state of InvalidateOf and stays valid |
| `PrimIdTables.PrimIdTable.UpdateChildren` | usdQt/primIdTable.cpp:284-331 | one parent's update, with its out-of-sync paths, as UpdateParent gives them |
| `PrimIdTables.PrimIdTable.UpdateAllParents` | usdQt/primIdTable.cpp:280-335 | the parent loop's state and out-of-sync set are UpdateParents' |
| `PrimIdTables.PrimIdTable.InvalidateSorted` | usdQt/primIdTable.cpp:340 | the last loop's state is InvalidateEach's |
| `PrimIdTables.PrimIdTable.ResyncSubtrees` | usdQt/primIdTable.cpp:267-341 | state and out-of-sync set are the resync function's, characterised by ResyncSpec |
| `PrimIdTables.KeepChildren` | usdQt/primIdTable.cpp:295-311 | the filtered-children loop with its two binary searches yields KeptChildren |
| `PrimIdTables.LostChildren` | usdQt/primIdTable.cpp:319-329 | an original child is reported exactly when it is neither kept nor being resynced |
| `PrimIdTablePort.BisectLeft` | usdQt/primIdTable.py:44 | on a sorted list the bisection point has only smaller paths before it and none after it |
| `PrimIdTablePort.BinarySearchAsWritten` | usdQt/primIdTable.py:43-45 | as written `binarySearch` holds exactly when the path is not above the list's maximum, not when it is in the list |
| `PrimIdTablePort.BinarySearchOverApproximates` | usdQt/primIdTable.py:43-45 | `/World/a` is reported found in the sorted list `[/World/b]` though it is not in it |
| `PrimIdTablePort.BinarySearch` | usdQt/primIdTable.py:43-45 | the corrected search holds exactly when the path is in the sorted list |
| `PrimIdTablePort.PortFreshSpec` | usdQt/primIdTable.py:49-73 | the constructor fails its assertion exactly when the maximum id is at most 1; otherwise it gives the well-formed table with the root under id 1 |
| `PrimIdTablePort.GetItem` | usdQt/primIdTable.py:114 | `dict.get` gives None exactly for an unknown id |
| `PrimIdTablePort.IsRootNeverHolds` | usdQt/primIdTable.py:104-114 | as written IsRoot compares an item with a path and holds for no id, the root id of a new table included |
| `PrimIdTablePort.ChildAt` | usdQt/primIdTable.py:213 | Python indexing succeeds exactly from minus the length to the length minus one and gives the child at a non-negative index |
| `PrimIdTablePort.PortLookupsAgree` | usdQt/primIdTable.py:148-240 | the lookups raise ErrorException exactly where the C++ returns a default, and otherwise agree with it |
| `PrimIdTablePort.ListIndex` | usdQt/primIdTable.py:275 | `list.index` succeeds exactly when the path is in the list, at its first position, and raises ValueError otherwise |
| `PrimIdTablePort.GetRowAsWrittenFails` | usdQt/primIdTable.py:269-275 | as written GetRow calls `index` on the item rather than its children, so on a well-formed table it raises for every non-root item whose parent is registered |
| `PrimIdTablePort.PortGetRowSpec` | usdQt/primIdTable.py:250-275 | the corrected GetRow gives 0 for the root and otherwise succeeds exactly when the parent is registered and lists the item, with the C++ row |
| `PrimIdTablePort.PortRegisterChildAgrees` | usdQt/primIdTable.py:282-318 | the port's RegisterChild leaves the C++ state, returns the C++ result when it returns, raises only where the C++ fails, and returns False exactly when the ids are exhausted |
| `PrimIdTablePort.PortKeptChildren` | usdQt/primIdTable.py:410-421 | a new child is kept, in stage order, exactly when `binarySearch` as written finds it among the sorted original children or the sorted resynced paths; it is reported out of sync exactly when neither search finds it |
| `PrimIdTablePort.KeptWithin` | usdQt/primIdTable.py:410-421 | every child the exact membership test keeps, the port's test keeps too |
| `PrimIdTablePort.PortKeepsUnsynced` | usdQt/primIdTable.py:410-421 | with `/W/b` listed and resynced and the stage listing `/W/a` and `/W/b`, the port keeps the unregistered `/W/a` and reports nothing, where the exact test reports `/W/a` |
| `PrimIdTablePort.PortUpdateParentWithin` | usdQt/primIdTable.py:400-439 | for one registered parent the port keeps every child the C++ loop keeps, keeps only filtered children, and reports only paths the C++ loop reports |
| `PrimIdTablePort.PortUpdateParentSynced` | usdQt/primIdTable.py:400-439 | a parent the C++ loop finds in sync is updated by the port exactly as by the C++ loop |
| `PrimIdTablePort.PortUpdateParentKeeps` | usdQt/primIdTable.py:400-439 | one parent keeps the table invariants, changes only the parent's item, and stores the children the port's test keeps |
| `PrimIdTablePort.PortUpdateParents` | usdQt/primIdTable.py:397-441 | the port's parent loop registers nothing and hands out no id |
| `PrimIdTablePort.PortUpdateParentsKeeps` | usdQt/primIdTable.py:397-441 | the port's parent loop keeps the table invariants |
| `PrimIdTablePort.PortUpdateParentsRaises` | usdQt/primIdTable.py:397-441 | the port's parent loop raises ErrorException exactly when some parent is unregistered |
| `PrimIdTablePort.PortUpdateParentsSynced` | usdQt/primIdTable.py:397-441 | with every parent registered and nothing out of sync for the C++ loop, the port's loop ends in the C++ loop's table and reports nothing |
| `PrimIdTablePort.PortUpdateParentsChildren` | usdQt/primIdTable.py:397-441 | with distinct registered parents each parent ends listing the children the port's test keeps, and every reported path is one the table and the stage disagree about |
| `PrimIdTablePort.PortUpdateParentsWithin` | usdQt/primIdTable.py:397-441 | with distinct registered parents the port's loop succeeds, every parent keeps each child the C++ loop keeps, and the port reports a subset of the C++ loop's out-of-sync paths |
| `PrimIdTablePort.PortResync` | usdQt/primIdTable.py:374-447 | the port's resync, whatever it raises, leaves a table that keeps the table invariants and well-formedness |
| `PrimIdTablePort.PortResyncSpec` | usdQt/primIdTable.py:374-447 | the port's resync keeps the table invariants and raises on an unregistered parent; with all parents registered it ends as the C++ resync when the C++ finds nothing out of sync, and raises only when the C++ finds something out of sync |
| `PrimIdTablePort.PortResyncRegistered` | usdQt/primIdTable.py:397-441 | with every resynced path's parent registered, the port's resync ends as the C++ resync when the C++ finds nothing out of sync, and raises ErrorException only when the C++ finds something out of sync |
| `PrimIdTablePort.PortResyncUnregistered` | usdQt/primIdTable.py:397-409 | when some resynced path's parent is unregistered, the port's resync raises ErrorException |
| `UsdStages.FilterAccepted` | pxr/usdQt/hierarchyCache.cpp:93-95 | the filtered list holds exactly the listed prims the predicate accepts, in order, and is no longer than the list |
| `UsdStages.FilteredChildren` | pxr/usdQt/hierarchyCache.cpp:90-98 | a valid prim's filtered children are exactly its accepted children, each one element below it; an invalid prim has none |
| `HierarchyCacheModel.Ancestors` | usdQt/hierarchyCache.h:118 | the proper ancestors of a path are exactly the paths it has as a prefix other than itself |
| `HierarchyCacheModel.TableInsert` | pxr/usdQt/hierarchyCache.cpp:47-48 | writing a path into the path table stores the proxy there, keeps every other entry, and adds null entries for the path's ancestors only (the table is keyed in path order) |
| `HierarchyCacheModel.Register` | pxr/usdQt/hierarchyCache.cpp:45-51 | after registration the path is in the table |
| `HierarchyCacheModel.RegisterKeeps` | pxr/usdQt/hierarchyCache.cpp:45-51 | registering keeps the cache consistent, changes nothing for a known path, and otherwise makes a new live proxy holding the prim's filtered children, adding only null ancestor entries besides |
| `HierarchyCacheModel.InitSpec` | pxr/usdQt/hierarchyCache.cpp:36-43 | a new cache is consistent; the root proxy holds the root's filtered children, the invalid proxy the empty path, and the table only the root and its null ancestors |
| `HierarchyCacheModel.GetChildSpec` | pxr/usdQt/hierarchyCache.cpp:61-82 | GetChild keeps the cache consistent; an index past the children gives the invalid proxy; a registered child gives its proxy; an unregistered valid child is registered and returned live; an invalid child gives the invalid proxy; a live result holds the child's path |
| `HierarchyCacheModel.GetChildAgain` | pxr/usdQt/hierarchyCache.cpp:61-82 | asking for the same child again returns the same proxy and changes nothing |
| `HierarchyCacheModel.GetChildParentRow` | pxr/usdQt/hierarchyCache.cpp:61-167 | for a registered parent, a live child proxy from GetChild has that parent as GetParent and sits at a row of it holding the same path |
| `HierarchyCacheModel.GetRowSpec` | pxr/usdQt/hierarchyCache.cpp:133-167 | the root and dead proxies have row 0; a nonzero row is the first position of the proxy's path in its live parent's children |
| `HierarchyCacheModel.IsRootSpec` | pxr/usdQt/hierarchyCache.cpp:126-131 | the root proxy is the root and a null or dead pointer is not |
| `HierarchyCacheModel.GetProxySpec` | usdQt/hierarchyCache.h:118 | GetProxy returns the registered proxy; for an unknown path it inserts a null entry (and null ancestors), returns a null proxy with no children, and creates no proxy |
| `HierarchyCacheModel.DeleteKeeps` | pxr/usdQt/hierarchyCache.cpp:169-178 | erasing a path keeps the cache consistent, leaves everything outside it, removes every path under it from the table, and no proxy that was registered under it (other than the root) stays alive |
| `HierarchyCacheModel.RefreshKeeps` | pxr/usdQt/hierarchyCache.cpp:90-98 | refreshing a proxy sets its children to the prim's filtered children and changes no other proxy |
| `HierarchyCacheModel.InvalidateOf` | pxr/usdQt/hierarchyCache.cpp:179-204 | invalidating a subtree keeps the cache consistent and changes nothing outside it |
| `HierarchyCacheModel.InvalidateAll` | pxr/usdQt/hierarchyCache.cpp:186-188 | the loop over a kept proxy's old children keeps the cache consistent, changes nothing outside the proxy's path and keeps it registered |
| `HierarchyCacheModel.InvalidateFacts` | pxr/usdQt/hierarchyCache.cpp:179-204 | after invalidating a path it is refreshed (deleted when its prim is invalid or rejected, otherwise its children re-read from the stage), and every kept proxy below it was recursed into first |
| `HierarchyCacheModel.InvalidateAllFacts` | pxr/usdQt/hierarchyCache.cpp:186-188 | after the loop each old child is refreshed and nothing outside the parent's strict subtree changed |
| `HierarchyCacheModel.InvalidateEach` | pxr/usdQt/hierarchyCache.cpp:233-235 | invalidating each child of the union in turn keeps the cache consistent |
| `HierarchyCacheModel.ResyncParent` | pxr/usdQt/hierarchyCache.cpp:216-236 | resyncing one parent keeps the cache consistent |
| `HierarchyCacheModel.ResyncAll` | pxr/usdQt/hierarchyCache.cpp:215-237 | the loop over the unique parents keeps the cache consistent |
| `HierarchyCacheModel.InvalidateEachFacts` | pxr/usdQt/hierarchyCache.cpp:233-235 | after the loop every invalidated path is refreshed and nothing outside the parent's subtree changed |
| `HierarchyCacheModel.ResyncParentFrame` | pxr/usdQt/hierarchyCache.cpp:216-236 | resyncing a parent changes nothing outside its subtree, and nothing at all when the parent has no live proxy |
| `HierarchyCacheModel.ResyncParentRefreshes` | pxr/usdQt/hierarchyCache.cpp:221-235 | a parent with a live proxy ends with its children re-read from the stage, and every child, old or new, refreshed |
| `HierarchyCacheModel.ResyncAllFrame` | pxr/usdQt/hierarchyCache.cpp:215-237 | the parent loop changes nothing outside the parents' subtrees, and nothing at all when no parent has a live proxy |
| `HierarchyCacheModel.ResyncAllRefreshes` | pxr/usdQt/hierarchyCache.cpp:215-237 | every parent with a live proxy ends refreshed with all its old and new children refreshed, whatever the later parents do |
| `HierarchyCacheModel.ResyncSpec` | pxr/usdQt/hierarchyCache.cpp:206-238 | ResyncSubtrees keeps the cache consistent, refreshes each live parent of a resynced path and all its old and new children, keeps every proxy not under such a parent, and changes nothing when no parent is live |
| `HierarchyCaches.HierarchyCache.constructor` | pxr/usdQt/hierarchyCache.cpp:36-43 | the configuration and state are the initial cache's, and valid |
| `HierarchyCaches.HierarchyCache.NewProxy` | pxr/usdQt/hierarchyCache.cpp:84-88 | a new proxy for the prim with no children, at a fresh handle; the table is unchanged |
| `HierarchyCaches.HierarchyCache.RefreshChildren` | pxr/usdQt/hierarchyCache.cpp:90-98 | the refresh loop leaves the state RefreshKeeps describes |
| `HierarchyCaches.HierarchyCache.RegisterPrim` | pxr/usdQt/hierarchyCache.cpp:45-51 | the state after registration is the Register function's |
| `HierarchyCaches.HierarchyCache.ContainsPath` | usdQt/hierarchyCache.h:96-98 | whether the path has a table entry, null entries included |
| `HierarchyCaches.HierarchyCache.GetChildCount` | pxr/usdQt/hierarchyCache.cpp:53-59 | the proxy's child count, 0 for a null proxy |
| `HierarchyCaches.HierarchyCache.GetChild` | pxr/usdQt/hierarchyCache.cpp:61-82 | state and result are the GetChild function's, characterised by GetChildSpec |
| `HierarchyCaches.HierarchyCache.GetParent` | pxr/usdQt/hierarchyCache.cpp:105-124 | the parent path's proxy, null for a null proxy and the invalid proxy for an unregistered parent |
| `HierarchyCaches.HierarchyCache.IsRoot` | pxr/usdQt/hierarchyCache.cpp:126-131 | whether the proxy's prim is the root's |
| `HierarchyCaches.HierarchyCache.GetRow` | pxr/usdQt/hierarchyCache.cpp:133-167 | the find loop gives the row function's value, characterised by GetRowSpec |
| `HierarchyCaches.HierarchyCache.GetProxy` | usdQt/hierarchyCache.h:118 | state and result are those of the table's `operator[]` |
| `HierarchyCaches.HierarchyCache.DeleteSubtree` | pxr/usdQt/hierarchyCache.cpp:169-178 | the state after the erase is the delete function's |
| `HierarchyCaches.HierarchyCache.InvalidateSubtree` | pxr/usdQt/hierarchyCache.cpp:179-204 | the recursive invalidation leaves the state of InvalidateOf and stays valid |
| `HierarchyCaches.HierarchyCache.ResyncParent` | pxr/usdQt/hierarchyCache.cpp:216-236 | one parent's resync leaves the state of the ResyncParent function |
| `HierarchyCaches.HierarchyCache.ResyncSubtrees` | pxr/usdQt/hierarchyCache.cpp:206-238 | the state after the resync is the resync function's, characterised by ResyncSpec |
| `PrimFilterCacheModel.Final` | pxr/usdQt/primFilterCache.cpp:60-135 | the state `_RunFilter` settles on for a prim is never Intermediate |
| `PrimFilterCacheModel.AnyAcceptedSpec` | pxr/usdQt/primFilterCache.cpp:86-96 | the loop over the children finds an accepted child exactly when some child's final state is Accept |
| `PrimFilterCacheModel.ReachedAnySpec` | pxr/usdQt/primFilterCache.cpp:75-79 | a prim is visited through the children exactly when it is visited from one of them |
| `PrimFilterCacheModel.ReachedUnder` | pxr/usdQt/primFilterCache.cpp:60-135 | every prim the filter visits is the start or lies below it |
| `PrimFilterCacheModel.ReachedParent` | pxr/usdQt/primFilterCache.cpp:72-79 | a visited prim other than the start has a visited parent that the filter did not reject and that lists it among its filtered children |
| `PrimFilterCacheModel.ReachedChild` | pxr/usdQt/primFilterCache.cpp:72-79 | the filtered children of a visited prim that the filter did not reject are visited |
| `PrimFilterCacheModel.RunFilter` | pxr/usdQt/primFilterCache.cpp:60-135 | the prim's state is stored in the map and returned |
| `PrimFilterCacheModel.RunFilterSpec` | pxr/usdQt/primFilterCache.cpp:60-135 | `_RunFilter` returns the prim's final state, and the map it leaves holds exactly the visited prims with their final states on top of what was there |
| `PrimFilterCacheModel.RunAllSpec` | pxr/usdQt/primFilterCache.cpp:75-79 | running the filter on each child in turn leaves each visited prim below them with its final state |
| `PrimFilterCacheModel.ApplyFilter` | pxr/usdQt/primFilterCache.cpp:137-142 | the root's state is always stored |
| `PrimFilterCacheModel.GetState` | pxr/usdQt/primFilterCache.cpp:52-58 | the stored state, or Untraversed for a path with none |
| `PrimFilterCacheModel.ApplyFilterSpec` | pxr/usdQt/primFilterCache.cpp:137-142 | after ApplyFilter a path has a state exactly when the filter visited it, that state is its final one, and every other path reads Untraversed |
| `PrimFilterCacheModel.NeverIntermediate` | pxr/usdQt/primFilterCache.cpp:81-103 | no state read after ApplyFilter is Intermediate |
| `PrimFilterCacheModel.RejectedChildUntraversed` | pxr/usdQt/primFilterCache.cpp:72 | a child of a rejected prim (other than the root) stays Untraversed |
| `PrimFilterCacheModel.ChildrenTraversed` | pxr/usdQt/primFilterCache.cpp:72-79 | every filtered child of a visited prim the filter did not reject is visited |
| `PrimFilterCacheModel.IntermediateResolved` | pxr/usdQt/primFilterCache.cpp:81-103 | a visited prim the filter called Intermediate ends Accept exactly when one of its filtered children ends Accept, and Reject otherwise |
| `PrimFilterCacheModel.FilterStateKept` | pxr/usdQt/primFilterCache.cpp:66-72 | a visited prim the filter called Accept or Reject keeps that state |
| `PrimFilterCacheModel.ToLowerChar` | pxr/usdQt/primFilterCache.cpp:147-148 | lower-casing changes exactly the ASCII capitals, each to its small letter |
| `PrimFilterCacheModel.ToLower` | pxr/usdQt/primFilterCache.cpp:147-148 | each character is lowered in place and the length is kept |
| `PrimFilterCacheModel.PathContains` | pxr/usdQt/primFilterCache.cpp:144-154 | the path-contains filter never answers Untraversed |
| `PrimFilterCacheModel.PathContainsSpec` | pxr/usdQt/primFilterCache.cpp:144-154 | Accept exactly when the lowered name contains the lowered substring; otherwise Intermediate exactly when the prim has a child and Reject exactly when it has none |
| `PrimFilterCacheModel.PathContainsFilter` | pxr/usdQt/primFilterCache.cpp:144-154 | the filter object answers PathContains for every prim |
| `PrimFilterCacheModel.ApplyPathContainsFilter` | pxr/usdQt/primFilterCache.cpp:46-50 | the root gets a state and every stored state is Accept or Reject |
| `PrimFilterCaches.PrimFilterCache.constructor` | pxr/usdQt/primFilterCache.cpp:42-44 | a new cache holds no states |
| `PrimFilterCaches.PrimFilterCache.GetState` | pxr/usdQt/primFilterCache.cpp:52-58 | the state GetState reads from the map |
| `PrimFilterCaches.PrimFilterCache.RunFilter` | pxr/usdQt/primFilterCache.cpp:60-135 | the recursive run with its children loops leaves the map and state of the RunFilter function |
| `PrimFilterCaches.PrimFilterCache.ApplyFilter` | pxr/usdQt/primFilterCache.cpp:137-142 | the map is cleared and filled as ApplyFilter gives it, characterised by ApplyFilterSpec |
| `PrimFilterCaches.PrimFilterCache.ApplyPathContainsFilter` | pxr/usdQt/primFilterCache.cpp:46-50 | the map is that of ApplyFilter with the path-contains filter |
| `PrimFilterCacheExample.SampleStates` | pxr/usdQt/testenv/testUsdQtPrimFilterCache.py:47-71 | filtering the test's sample tree from `/World` for `Accept` gives each of the eleven states the test expects |
| `Selections.SetNames` | usdlib/variants.py:82-90 | the set names of a selection list, position by position |
| `Selections.NameSet` | usdlib/variants.py:82-90 | the `seen` set: a name is in it exactly when some selection of the list names that set |
| `Selections.NameSetSnoc` | usdlib/variants.py:89 | adding one selection adds exactly its set name to `seen` |
| `Selections.FirstIn` | usdlib/variants.py:82-90 | the position of the first selection in a set, with no earlier selection in that set |
| `Selections.FirstWithinSets` | usdlib/variants.py:82-90 | the first-of-each-set walk keeps exactly the open sets the walk meets |
| `Selections.FirstWithinSpec` | usdlib/variants.py:82-90 | the first-of-each-set walk lists no set twice, only open sets, and for each set the first selection met |
| `Variants.Token` | usdlib/variants.py:395-400 | a token is `{set=variant}`: braces round the set and variant names and one `=` |
| `Variants.SelectionKey` | usdlib/variants.py:395-400 | the key of a selection list is empty exactly when the list is |
| `Variants.SelectionKeyAppend` | usdlib/variants.py:395-400 | the key of a concatenation is the concatenation of the keys |
| `Variants.VariantSelectionKey` | usdlib/variants.py:395-400 | the loop builds the key of the whole list |
| `Variants.SetKeysSpec` | usdlib/variants.py:336-362 | the k-th key is the key of the selections before k followed by the k-th set name, one key per selection |
| `Variants.IterVariantSetKeys` | usdlib/variants.py:359-362 | the running-key loop yields exactly those keys |
| `Variants.VariantsByKey` | usdlib/variants.py:365-392 | pairs each key with its variant name; generated keys when none or an empty list is given, otherwise the given keys, cut to the shorter list as `zip` does |
| `Variants.Applied` | usdlib/variants.py:403-423 | same length and set order; selected sets take the new variant, the others are unchanged |
| `Variants.ApplySelection` | usdlib/variants.py:403-423 | the loop returns that re-selection |
| `Variants.AppliedTwice` | usdlib/variants.py:403-423 | two re-selections compose into one with the later choices winning; re-applying the same one changes nothing |
| `Variants.VariantIndex` | usdlib/variants.py:327-333 | finds the first variant with the given name, or reports none |
| `Variants.HasSelection` | usdlib/variants.py:299-333 | an empty selection is always present; a non-empty one never is on a spec without variant sets |
| `Variants.HasSelectionSound` | usdlib/variants.py:307-333 | whatever the search accepts can be realised by a path through the spec's variant sets |
| `Variants.TryIntersectedSound` | usdlib/variants.py:307-322 | the branch over sets named in the selection only accepts realisable selections |
| `Variants.TryVariantsSound` | usdlib/variants.py:327-333 | the branch through the first set's variants only accepts realisable selections |
| `Variants.SetEntries` | usdlib/variants.py:296-297 | keeps exactly the entries whose value is not None |
| `Variants.LayerPrimHasVariantSelection` | usdlib/variants.py:258-333 | true when every value is None; false when a value is given and the spec has no variant sets; true only for a realisable selection |
| `Variants.Contributed` | usdlib/variants.py:55-58 | a node contributes its selection exactly when it is a variant arc not due to an ancestor |
| `Variants.SizeAllAppend` | usdlib/variants.py:53-60 | node counts add up over concatenated queues (the measure the breadth-first walk decreases) |
| `Variants.WalkAllAppend` | usdlib/variants.py:53-60 | the depth-first walk of a concatenation is the concatenation of the walks |
| `Variants.BfsPermutesWalk` | usdlib/variants.py:42-63 | the breadth-first walk yields the same selections as a depth-first walk, in some order |
| `Variants.IterPrimIndexVariantNodes` | usdlib/variants.py:42-63 | the deque loop yields the breadth-first walk of the root's children |
| `Variants.Unmet` | usdlib/variants.py:100-107 | lists exactly the declared sets not yet seen, each with its current selection |
| `Variants.MetSets` | usdlib/variants.py:82-90 | the sets met in the prim index are those the walk names |
| `Variants.PrimVariantsDistinct` | usdlib/variants.py:66-109 | with distinct declared set names, no set is listed twice |
| `Variants.PrimVariantsChosen` | usdlib/variants.py:66-109 | a listed set met in the index carries its first selection there; any other carries the set's current selection |
| `Variants.PrimVariantsSets` | usdlib/variants.py:66-109 | the sets listed are exactly those met in the index or declared on the prim |
| `Variants.UnmetDistinct` | usdlib/variants.py:100-107 | the unseen declared sets are listed once each |
| `Variants.FirstOfEachSet` | usdlib/variants.py:82-90 | the `seen` loop keeps the first selection of each set and ends with `seen` holding every set met |
| `Variants.GetPrimVariants` | usdlib/variants.py:66-109 | the method returns the listing those lemmas describe |
| `Variants.FirstWithinStep` | usdlib/variants.py:86-90 | one loop step: an unseen set is kept and closed, a seen one is skipped |
| `Variants.UnmetSnoc` | usdlib/variants.py:100-107 | one more declared set adds its selection exactly when it was not seen |
| `Variants.KeysExample` | usdlib/variants.py:341-348 | the keys of elem/color/version are `elem`, `{elem=anim}color`, `{elem=anim}{color=blue}version` |
| `Variants.ByKeyExample` | usdlib/variants.py:370-378 | those keys paired with `anim`, `blue` and `A02` |
| `Variants.AppliedExample` | tests/test_usdlib.py:93-97 | selecting `color=red` changes only the colour |
| `UsdUtils.SpecifierToString` | pxr/usdQt/usdUtils.py:34-52 | fails with "Unknown specifier." exactly for a specifier other than def, over and class |
| `UsdUtils.SpecifierRoundTrip` | pxr/usdQt/usdUtils.py:34-52 | the keyword and the specifier convert into each other both ways |
| `UsdUtils.EditTargetContext.constructor` | pxr/usdQt/usdUtils.py:61-71 | keeps the stage and target; no original target saved yet |
| `UsdUtils.EditTargetContext.Enter` | pxr/usdQt/usdUtils.py:73-75 | saves the stage's target and switches it to the context's target |
| `UsdUtils.EditTargetContext.Exit` | pxr/usdQt/usdUtils.py:77-78 | puts the saved target back |
| `UsdUtils.TakeWalked` | pxr/usdQt/usdUtils.py:110-119 | keeps the first selection of each declared set met and leaves open the declared sets never met |
| `UsdUtils.ListRemaining` | pxr/usdQt/usdUtils.py:127-129 | lists every remaining set once with its current selection |
| `UsdUtils.GetPrimVariants` | pxr/usdQt/usdUtils.py:81-131 | the result is a listing of the prim's declared sets |
| `UsdUtils.ListingDistinct` | pxr/usdQt/usdUtils.py:81-131 | a listing holds each set once |
| `UsdUtils.ListingSets` | pxr/usdQt/usdUtils.py:81-131 | a listing holds exactly the declared sets |
| `UsdUtils.ListingChosen` | pxr/usdQt/usdUtils.py:81-131 | a set met in the walk carries its first selection there, any other its current selection |
| `VariantEditor.ReplaceDots` | pxr/usdQtEditors/variantEditor.py:53-66 | replaces every `.` by `_` and keeps the rest |
| `VariantEditor.Undotted` | pxr/usdQtEditors/variantEditor.py:53-66 | keeps the first character and leaves no `.` after it |
| `VariantEditor.MakeValidAsWritten` | pxr/usdQtEditors/variantEditor.py:53-66 | accepts the undotted name exactly when the pattern as written matches it |
| `VariantEditor.TrailingNewlineAccepted` | pxr/usdQtEditors/variantEditor.py:63 | the name `a` followed by a newline passes the pattern as written though it is not a valid name |
| `VariantEditor.MakeValid` | pxr/usdQtEditors/variantEditor.py:53-66 | succeeds exactly when the undotted name is valid, returning it; otherwise fails with the message naming it |
| `VariantEditor.MakeValidSpec` | pxr/usdQtEditors/variantEditor.py:53-66 | empty fails; a success is valid, as long as the input and a fixed point; a valid name comes back unchanged |
| `VariantEditor.UndottedValid` | pxr/usdQtEditors/variantEditor.py:53-66 | a valid name has nothing to undot |
| `VariantEditor.PathString` | pxr/usdQtEditors/variantEditor.py:370 | the path string of a spec begins with its prim's path string |
| `VariantEditor.StripAllVariantSelections` | pxr/usdQtEditors/variantEditor.py:370 | keeps the prim path and drops every selection |
| `VariantEditor.AppendVariantSelection` | pxr/usdQtEditors/variantEditor.py:439 | keeps the prim path and the selections and adds one |
| `VariantEditor.VariantKeyFuncSpec` | pxr/usdQtEditors/variantEditor.py:359-370 | the key is the selection key of the path's selections, and two paths of one prim get the same key exactly when they are the same path |
| `VariantEditor.GetVariantSelection` | pxr/usdQtEditors/variantEditor.py:105 | a path has a selection exactly when it has selections, and it is the innermost one |
| `VariantEditor.IterVariantSpecs` | pxr/usdQtEditors/variantEditor.py:69-85 | the spec itself comes first |
| `VariantEditor.IterVariantSpecsUnder` | pxr/usdQtEditors/variantEditor.py:69-85 | every spec yielded lies under the start path: same prim, its selections extended |
| `VariantEditor.SpecSelectionsSpec` | pxr/usdQtEditors/variantEditor.py:88-107 | each set met is listed once, with its first selection, and no set met is missed |
| `VariantEditor.ContributingStep` | pxr/usdQtEditors/variantEditor.py:103-107 | a spec with selections contributes its innermost one; the root spec none |
| `VariantEditor.GetSpecSelections` | pxr/usdQtEditors/variantEditor.py:88-107 | the loop returns that listing |
| `VariantEditor.ContributingHas` | pxr/usdQtEditors/variantEditor.py:103-107 | the innermost selection of every spec yielded below the root is among the contributions |
| `VariantEditor.DeclaredVariants` | pxr/usdQtEditors/variantEditor.py:373-378 | the prepended, added and appended names, in that order, and nothing else |
| `VariantEditor.AnyVariantSetSpec` | pxr/usdQtEditors/variantEditor.py:672-682 | the any and all tests over the items mean what they say |
| `VariantEditor.AreAllSpec` | pxr/usdQtEditors/variantEditor.py:672-682 | all-variants and all-variant-sets each need a non-empty selection, and never both hold |
| `SdfPaths.CommonPrefix` | pxr/usdQt/objectProxy.cpp:58-59 | the common prefix of two prim paths is a prim path |
| `SdfPaths.CommonPrefixIsAncestor` | pxr/usdQt/objectProxy.cpp:58-59 | a path is the common prefix of itself and another exactly when it is that path's ancestor or the path |
| `SdfPaths.ParentPath` | usdQt/primIdTable.cpp:147 | the parent is empty only for the root or the empty path; otherwise the path is its child |
| `SdfPaths.NameOf` | pxr/usdQt/hierarchyCache.cpp:74 | the name of a prim path is its last element |
| `SdfPaths.PathLessIrreflexive` | usdQt/primIdTable.cpp:271 | path order: no path precedes itself |
| `SdfPaths.PathLessTransitive` | usdQt/primIdTable.cpp:271 | path order is transitive |
| `SdfPaths.PathLessTotal` | usdQt/primIdTable.cpp:271 | any two different paths are ordered |
| `SdfPaths.PathLessAsymmetric` | usdQt/primIdTable.cpp:271 | path order never runs both ways |
| `SdfPaths.AncestorFirst` | usdQt/primIdTable.cpp:270-275 | an ancestor sorts before its descendants |
| `SdfPaths.InsertSorted` | usdQt/primIdTable.cpp:271 | inserting into a sorted list keeps it sorted |
| `SdfPaths.SortPaths` | usdQt/primIdTable.cpp:270-271 | the sort yields a sorted permutation of its input |
| `SdfPaths.Uniq` | usdQt/primIdTable.cpp:274-275 | dropping adjacent repeats keeps every element and leaves no neighbours equal |
| `SdfPaths.UniqSortedDistinct` | usdQt/primIdTable.cpp:274-275 | on a sorted list it leaves a strictly increasing one |
| `SdfPaths.FindIndex` | usdQt/primIdTable.cpp:180 | `std::find`: the first position holding the element, or the end when it is absent |
| `SdfPaths.UniqueParents` | usdQt/primIdTable.cpp:274-275 | the parents of the resynced paths, each once |
| `ProxyRules.AllOf` | pxr/usdQt/objectProxy.cpp:116-121 | `std::all_of`: holds exactly when every object passes, so on no objects |
| `ProxyRules.AnyOf` | pxr/usdQt/objectProxy.cpp:128-147 | `std::any_of`: holds exactly when some object passes, so never on no objects |
| `ProxyRules.SharedSpec` | pxr/usdQt/objectProxy.cpp:96-108 | the shared answer is empty for no objects and when two differ, and otherwise the one every object gives |
| `ProxyRules.SharedOf` | pxr/usdQt/variantSetsProxy.cpp:106-119 | the comparison loop returns that shared answer |
| `ProxyRules.SharedFetchedSpec` | pxr/usdQt/metadataProxy.cpp:49-66 | no objects give empty and success; a failure gives empty; success means every later object read the shared value, and a later failed read means failure; all reading one value is success |
| `ProxyRules.SharedFetchedOf` | pxr/usdQt/metadataProxy.cpp:49-66 | the loop returns that rule's value and flag |
| `ProxyRules.Common` | pxr/usdQt/primProxy.cpp:50-68 | the entries of the first list every other list holds, no more than the first list has |
| `ProxyRules.CommonOfAll` | pxr/usdQt/primProxy.cpp:50-68 | an entry is shared exactly when every list holds it, and the shared entries keep the first list's order |
| `ProxyRules.CommonCounts` | pxr/usdQt/primProxy.cpp:50-68 | a shared entry keeps all its repetitions from the first list |
| `ProxyRules.CommonAlone` | pxr/usdQt/primProxy.cpp:50-68 | with one object the whole first list is shared |
| `ProxyRules.FilterMembers` | pxr/usdQt/primProxy.cpp:116-120 | `remove_if` keeps exactly the entries the predicate accepts |
| `ProxyRules.FilterCounts` | pxr/usdQt/primProxy.cpp:116-120 | an accepted entry is kept with all its repetitions |
| `ProxyRules.FilterOrder` | pxr/usdQt/primProxy.cpp:116-120 | the kept entries keep their order |
| `ProxyRules.FilterAppend` | pxr/usdQt/primProxy.cpp:116-120 | filtering distributes over concatenation |
| `ProxyRules.CommonNarrow` | pxr/usdQt/primProxy.cpp:59-64 | one narrowing pass against a further list is the shared list with that list added |
| `ProxyRules.RemoveIf` | pxr/usdQt/primProxy.cpp:59-65 | the in-place `remove_if` on an array prefix leaves the filtered entries at the front and returns the new end |
| `ProxyRules.IntersectFetched` | pxr/usdQt/relationshipProxy.cpp:57-67 | the narrowing loop succeeds exactly when every later fetch does, and then returns the shared list |
| `ProxyRules.Intersect` | pxr/usdQt/primProxy.cpp:59-66 | the narrowing loop returns the shared list |
| `ProxyRules.SharedList` | pxr/usdQt/relationshipProxy.cpp:41-70 | fails exactly when some fetch fails; no lists share the empty list |
| `ProxyRules.SharedListSpec` | pxr/usdQt/relationshipProxy.cpp:41-70 | an entry is shared exactly when every list holds it, in the first list's order |
| `ProxyRules.SharedListOf` | pxr/usdQt/relationshipProxy.cpp:41-70 | the method returns that shared list |
| `ProxyRules.ApplyAll` | pxr/usdQt/metadataProxy.cpp:67-73 | writes every object and succeeds exactly when every write did |
| `ObjectProxies.PathIn` | pxr/usdQt/objectProxy.cpp:68-78 | some object has the query path, which is not the empty path |
| `ObjectProxies.ContainsPath` | pxr/usdQt/objectProxy.cpp:68-78 | holds exactly when some non-empty query path is some object's path |
| `ObjectProxies.PrefixIn` | pxr/usdQt/objectProxy.cpp:52-66 | some object lies at or under the non-empty query path |
| `ObjectProxies.ContainsPathOrDescendent` | pxr/usdQt/objectProxy.cpp:52-66 | holds exactly when some object lies at or under some non-empty query path |
| `ObjectProxies.ContainsPathImpliesDescendent` | pxr/usdQt/objectProxy.cpp:52-78 | containing a path implies containing it or a descendant |
| `ObjectProxies.GetName` | pxr/usdQt/objectProxy.cpp:96-108 | the name every object has; empty for no objects or differing names |
| `ObjectProxies.IsValid` | pxr/usdQt/objectProxy.cpp:116-121 | every object is valid, so true for no objects |
| `ObjectProxies.IsAuthored` | pxr/usdQt/objectProxy.cpp:128-133 | some object has an opinion in some layer |
| `ObjectProxies.IsAuthoredAt` | pxr/usdQt/objectProxy.cpp:135-142 | some object has an opinion in the given layer |
| `ObjectProxies.IsDefined` | pxr/usdQt/objectProxy.cpp:144-147 | some object is defined, so false for no objects |
| `ObjectProxies.AuthoredAtIsAuthored` | pxr/usdQt/objectProxy.cpp:128-142 | authored in a layer implies authored |
| `ObjectProxies.InsertTokenSorted` | pxr/usdQt/objectProxy.cpp:79-95 | inserting into sorted tokens keeps them sorted |
| `ObjectProxies.SortTokens` | pxr/usdQt/objectProxy.cpp:79-95 | the sort yields a sorted permutation of the fields |
| `ObjectProxies.NotDeprecated` | pxr/usdQt/objectProxy.cpp:86-88 | keeps exactly the fields whose display group is not deprecated |
| `ObjectProxies.GetMetadataFields` | pxr/usdQt/objectProxy.cpp:79-95 | none for no objects; otherwise the schema fields not deprecated, sorted, with their repetitions |
| `ObjectProxies.ContainsExamples` | pxr/usdQt/testenv/testUsdQtOpinionProxy.py:168-196 | the attribute paths of two prims are contained; the prim, a partial name, another property and the empty path are not; descendants of `/World` are |
| `MetadataProxies.SharedDictKeysSpec` | pxr/usdQt/metadataProxy.cpp:83-108 | for a dictionary field a key is listed exactly when every object has it, in the first object's order |
| `MetadataProxies.SetValueThenGetValue` | pxr/usdQt/testenv/testUsdQtOpinionProxy.py:96-97 | a value set on valid objects reads back from all of them |
| `MetadataProxies.ClearValueThenGetValue` | pxr/usdQt/testenv/testUsdQtOpinionProxy.py:98-99 | after a clear two or more objects read no value and fail |
| `MetadataProxies.MetadataProxy.constructor` | pxr/usdQt/metadataProxy.cpp:34-37 | keeps the objects, the field and its type |
| `MetadataProxies.MetadataProxy.GetValue` | pxr/usdQt/metadataProxy.cpp:49-66 | the shared-value rule over the field's values |
| `MetadataProxies.MetadataProxy.SetValue` | pxr/usdQt/metadataProxy.cpp:67-73 | sets the field on every object; succeeds exactly when every object is valid |
| `MetadataProxies.MetadataProxy.ClearValue` | pxr/usdQt/metadataProxy.cpp:75-81 | clears the field on every object; succeeds exactly when every object is valid |
| `MetadataProxies.MetadataProxy.GetDictKeys` | pxr/usdQt/metadataProxy.cpp:83-108 | the keys every object's dictionary has |
| `MetadataProxies.MetadataProxy.CreateMetadataDictKeyProxy` | pxr/usdQt/metadataProxy.cpp:110-121 | null when the field is not a dictionary or some object lacks the key; otherwise a new proxy over the same objects, field and key |
| `MetadataProxies.DictKeyTypeOfDisagreement` | pxr/usdQt/metadataProxy.cpp:173-177 | objects holding different values under the key leave no type |
| `MetadataProxies.SetDictKeyThenGetValue` | pxr/usdQt/metadataProxy.cpp:137-162 | a value set under the key on every object reads back as the shared value |
| `MetadataProxies.MetadataDictKeyProxy.constructor` | pxr/usdQt/metadataProxy.cpp:123-126 | keeps the objects, field and key |
| `MetadataProxies.MetadataDictKeyProxy.GetValue` | pxr/usdQt/metadataProxy.cpp:137-154 | the shared-value rule over the key's values |
| `MetadataProxies.MetadataDictKeyProxy.SetValue` | pxr/usdQt/metadataProxy.cpp:156-162 | sets under the key on every object; succeeds exactly when every set does |
| `MetadataProxies.MetadataDictKeyProxy.ClearValue` | pxr/usdQt/metadataProxy.cpp:164-170 | removes the key on every object; succeeds exactly when every object is valid |
| `MetadataProxies.MetadataDictKeyProxy.GetType` | pxr/usdQt/metadataProxy.cpp:173-177 | the type of the value the shared read returns |
| `VariantSetsProxies.NameFetches` | pxr/usdQt/variantSetsProxy.cpp:52-78 | each prim's set names, none for a prim that is not valid |
| `VariantSetsProxies.NamesIntoSpec` | pxr/usdQt/variantSetsProxy.cpp:52-78 | succeeds exactly when every prim is valid, clearing the output otherwise; then a name is listed exactly when every prim has that set, in the first prim's order |
| `VariantSetsProxies.AppendedSetIsShared` | pxr/usdQt/variantSetsProxy.cpp:80-84 | after appending a set to valid prims the set is listed as shared |
| `VariantSetsProxies.SetsNamed` | pxr/usdQt/variantSetsProxy.cpp:86-95 | one set of that name from each prim |
| `VariantSetsProxies.VariantSetsProxy.constructor` | pxr/usdQt/variantSetsProxy.cpp:35-38 | keeps the prims |
| `VariantSetsProxies.VariantSetsProxy.GetNamesInto` | pxr/usdQt/variantSetsProxy.cpp:52-78 | the shared names rule with an output parameter |
| `VariantSetsProxies.VariantSetsProxy.GetNames` | pxr/usdQt/variantSetsProxy.cpp:44-50 | the shared names, or none when they cannot be read |
| `VariantSetsProxies.VariantSetsProxy.AppendVariantSet` | pxr/usdQt/variantSetsProxy.cpp:80-84 | appends the set on every prim |
| `VariantSetsProxies.VariantSetsProxy.CreateVariantSetProxy` | pxr/usdQt/variantSetsProxy.cpp:86-95 | null exactly when some prim lacks the set; otherwise a new proxy over each prim's set |
| `VariantSetsProxies.SharedVariantNamesSpec` | pxr/usdQt/variantSetsProxy.cpp:129-144 | a variant is listed exactly when every set lists it, in the first set's order |
| `VariantSetsProxies.SelectionRoundTrip` | pxr/usdQt/testenv/testUsdQtOpinionProxy.py:71-74 | a selection made on valid sets reads back, and a cleared one reads back empty |
| `VariantSetsProxies.AppendedVariantIsShared` | pxr/usdQt/variantSetsProxy.cpp:168-174 | a variant appended to valid sets is listed as shared |
| `VariantSetsProxies.VariantSetProxy.constructor` | pxr/usdQt/variantSetsProxy.cpp:97-100 | keeps the sets |
| `VariantSetsProxies.VariantSetProxy.GetVariantSelection` | pxr/usdQt/variantSetsProxy.cpp:106-119 | the selection every set has, or empty |
| `VariantSetsProxies.VariantSetProxy.GetName` | pxr/usdQt/variantSetsProxy.cpp:146-158 | the name every set has, or empty |
| `VariantSetsProxies.VariantSetProxy.GetVariantNames` | pxr/usdQt/variantSetsProxy.cpp:129-144 | the variant names every set lists |
| `VariantSetsProxies.VariantSetProxy.SetVariantSelection` | pxr/usdQt/variantSetsProxy.cpp:160-166 | selects on every set; succeeds exactly when every set is valid |
| `VariantSetsProxies.VariantSetProxy.ClearVariantSelection` | pxr/usdQt/variantSetsProxy.cpp:121-127 | clears on every set; succeeds exactly when every set is valid |
| `VariantSetsProxies.VariantSetProxy.AppendVariant` | pxr/usdQt/variantSetsProxy.cpp:168-174 | appends on every set; succeeds exactly when every set is valid |
| `AttributeProxies.SharedTypeName` | pxr/usdQt/attributeProxy.cpp:89-100 | a non-empty type name is every attribute's; when all agree it is theirs |
| `AttributeProxies.SharedAllowedTokensSpec` | pxr/usdQt/attributeProxy.cpp:35-66 | a token is offered exactly when all attributes are token-typed and each allows it; an attribute without allowed tokens leaves none |
| `AttributeProxies.NotVaryingAsWritten` | pxr/usdQt/attributeProxy.cpp:77-87 | the negated-enumerator test holds exactly for variabilities other than varying |
| `AttributeProxies.SetThenGet` | pxr/usdQt/testenv/testUsdQtOpinionProxy.py:127-128 | a value every attribute accepts reads back at its time as the shared value |
| `AttributeProxies.BlockOrClearThenGet` | pxr/usdQt/testenv/testUsdQtOpinionProxy.py:129-132 | blocked or cleared, two or more attributes read no value and fail |
| `AttributeProxies.AttributeProxy.constructor` | pxr/usdQt/attributeProxy.cpp:68-71 | keeps the attributes |
| `AttributeProxies.AttributeProxy.GetTypeName` | pxr/usdQt/attributeProxy.cpp:89-100 | the shared type name |
| `AttributeProxies.AttributeProxy.GetVariability` | pxr/usdQt/attributeProxy.cpp:77-87 | varying exactly when there are attributes and all are varying; uniform otherwise |
| `AttributeProxies.AttributeProxy.GetAllowedTokens` | pxr/usdQt/attributeProxy.cpp:35-66 | the shared allowed tokens |
| `AttributeProxies.AttributeProxy.Get` | pxr/usdQt/attributeProxy.cpp:102-118 | the shared-value rule over the values read at the time |
| `AttributeProxies.AttributeProxy.Set` | pxr/usdQt/attributeProxy.cpp:120-126 | sets on every attribute; succeeds exactly when every attribute is valid and of the value's type |
| `AttributeProxies.AttributeProxy.Clear` | pxr/usdQt/attributeProxy.cpp:128-134 | clears every attribute; succeeds exactly when all are valid |
| `AttributeProxies.AttributeProxy.ClearAtTime` | pxr/usdQt/attributeProxy.cpp:136-142 | clears at the time on every attribute; succeeds exactly when all are valid |
| `AttributeProxies.AttributeProxy.Block` | pxr/usdQt/attributeProxy.cpp:144-148 | blocks every attribute |
| `RelationshipProxies.TargetsIntoSpec` | pxr/usdQt/relationshipProxy.cpp:41-101 | with an output, success exactly when every fetch does, clearing the output otherwise; no relationships give no targets; the targets are those every relationship has, in the first one's order |
| `RelationshipProxies.ClearedHaveNoTargets` | pxr/usdQt/relationshipProxy.cpp:103-109 | cleared valid relationships share no targets |
| `RelationshipProxies.RelationshipProxy.constructor` | pxr/usdQt/relationshipProxy.cpp:32-35 | keeps the relationships |
| `RelationshipProxies.RelationshipProxy.GetTargets` | pxr/usdQt/relationshipProxy.cpp:41-70 | the shared targets rule over the targets |
| `RelationshipProxies.RelationshipProxy.GetForwardedTargets` | pxr/usdQt/relationshipProxy.cpp:72-101 | the same rule over the forwarded targets |
| `RelationshipProxies.RelationshipProxy.ClearTargets` | pxr/usdQt/relationshipProxy.cpp:103-109 | clears every relationship; succeeds exactly when all are valid |
| `PrimProxies.SharedAttributeNamesSpec` | pxr/usdQt/primProxy.cpp:50-67 | a name is listed exactly when every prim has that attribute, in the first prim's order |
| `PrimProxies.SharedRelationshipNamesSpec` | pxr/usdQt/primProxy.cpp:69-87 | a name is listed exactly when every prim has that relationship, in the first prim's order |
| `PrimProxies.AttributesNamed` | pxr/usdQt/primProxy.cpp:105-114 | the attribute of that name from each prim |
| `PrimProxies.RelationshipsNamed` | pxr/usdQt/primProxy.cpp:89-99 | the relationship of that name from each prim |
| `PrimProxies.Live` | pxr/usdQt/primProxy.cpp:116-120 | a prim is kept exactly when its handle is valid |
| `PrimProxies.ClearExpiredSpec` | pxr/usdQt/primProxy.cpp:116-120 | the valid prims are kept with their repetitions and order; the expired ones go |
| `PrimProxies.PrimProxy.constructor` | pxr/usdQt/primProxy.cpp:33-35 | keeps the prims |
| `PrimProxies.PrimProxy.GetNames` | pxr/usdQt/primProxy.cpp:40-46 | one name per prim, in order |
| `PrimProxies.PrimProxy.GetAttributeNames` | pxr/usdQt/primProxy.cpp:50-67 | the shared attribute names |
| `PrimProxies.PrimProxy.GetRelationshipNames` | pxr/usdQt/primProxy.cpp:69-87 | the shared relationship names |
| `PrimProxies.PrimProxy.CreateAttributeProxy` | pxr/usdQt/primProxy.cpp:105-114 | null exactly when some prim lacks the attribute; otherwise a new proxy over each prim's attribute |
| `PrimProxies.PrimProxy.CreateRelationshipProxy` | pxr/usdQt/primProxy.cpp:89-99 | a new proxy over each prim's relationship, or over none when some prim lacks it |
| `PrimProxies.PrimProxy.CreateVariantSetsProxy` | pxr/usdQt/primProxy.cpp:101-103 | a new proxy over the same prims |
| `PrimProxies.PrimProxy.ClearExpired` | pxr/usdQt/primProxy.cpp:116-120 | keeps only the live prims |
| `Hooks.FirstResultSpec` | pxr/usdQt/hooks.py:62-79 | no result exactly when every hook falls back; otherwise the first hook that does not fall back decides: its value, or the exception it raised, propagated |
| `Hooks.Dispatch` | pxr/usdQt/hooks.py:62-79 | `Call` fails with a key error exactly when nothing is registered under the name; any other failure is an exception a hook raised |
| `Hooks.RegisterThenCall` | pxr/usdQt/hooks.py:51-79 | a newly registered hook is tried first, its value or exception deciding the call unless it falls back to the earlier ones; other names are unaffected |
| `Hooks.GetIdHook` | pxr/usdQt/hooks.py:100-115 | the default `GetId` never falls back and returns the layer's identifier or the text of its argument |
| `Hooks.GetReferencePathHook` | pxr/usdQt/hooks.py:82-97 | the default `GetReferencePath` never falls back and returns what the user entered |
| `Hooks.DefaultsCall` | pxr/usdQt/hooks.py:118-119 | with only the defaults registered the two names answer with their defaults and any other name is a key error |
| `Hooks.UsdQtHooks.Loaded` | pxr/usdQt/hooks.py:118-119 | the registry holds exactly the two defaults once the module is loaded |
| `Hooks.UsdQtHooks.Register` | pxr/usdQt/hooks.py:51-59 | puts the hook in front of those already under the name |
| `Hooks.UsdQtHooks.Call` | pxr/usdQt/hooks.py:62-79 | answers as `Dispatch` on the current registry, an exception other than `FallbackException` ending the loop |
| `OpinionStacks.AttributeSpecified` | pxr/usdQt/opinionStackModel.py:78-84 | at the default time an attribute is specified exactly when the spec gives it a default; at a frame also when it has time samples |
| `OpinionStacks.GetValue` | pxr/usdQt/opinionStackModel.py:86-155 | every handler but the property-metadata one finds a value where it reports an opinion |
| `OpinionStacks.StackOf` | pxr/usdQt/opinionStackModel.py:254-257 | the prim stack with the definition appended when there is one |
| `OpinionStacks.Specified` | pxr/usdQt/opinionStackModel.py:38-155 | the handler's test as a predicate on specs |
| `OpinionStacks.FirstSpecified` | pxr/usdQt/opinionStackModel.py:265-267 | the first spec holding an opinion, with none before it, or none at all |
| `OpinionStacks.FirstSpecifiedSnoc` | pxr/usdQt/opinionStackModel.py:265-267 | one more spec changes the first opinion only when there was none |
| `OpinionStacks.JoinedWellFormed` | pxr/usdQt/opinionStackModel.py:263-267 | a spec of the last row's layer joins that row and keeps it laid out right |
| `OpinionStacks.WellGroupedSnoc` | pxr/usdQt/opinionStackModel.py:261-262 | a new row for a different layer keeps the rows laid out right |
| `OpinionStacks.AddSpecPreserves` | pxr/usdQt/opinionStackModel.py:259-267 | one step keeps rows numbered in order, consecutive rows in different layers, every spec in its row's layer and each strongest opinion the first |
| `OpinionStacks.AddSpecFlatten` | pxr/usdQt/opinionStackModel.py:259-267 | one step adds exactly that spec after the others |
| `OpinionStacks.TreeSpec` | pxr/usdQt/opinionStackModel.py:253-268 | the layer rows are laid out right and hold the stack's specs in order |
| `OpinionStacks.AddSpecAsWritten` | pxr/usdQt/opinionStackModel.py:259-267 | the step as written always leaves a row |
| `OpinionStacks.TreeAsWritten` | pxr/usdQt/opinionStackModel.py:253-268 | the tree as written has a row for a non-empty stack |
| `OpinionStacks.StrongestPrimOverwritten` | pxr/usdQt/opinionStackModel.py:265-267 | as written, two specified specs of one layer mark the second as the strongest |
| `OpinionStacks.StrongestPrimKept` | pxr/usdQt/opinionStackModel.py:265-267 | with the corrected test, the first is marked |
| `OpinionStacks.OpinionShown` | pxr/usdQt/opinionStackModel.py:326-359 | a spec row shows a value exactly when its spec holds an opinion; a layer row exactly when one of its specs does |
| `OpinionStacks.OpinionStackModel.constructor` | pxr/usdQt/opinionStackModel.py:221-236 | keeps the handler; valid exactly when a prim is given; builds the corrected tree for a live prim and none otherwise |
| `OpinionStacks.OpinionStackModel.GetPrimTree` | pxr/usdQt/opinionStackModel.py:253-268 | the loop builds the layer rows of the prim's stack, each row showing its first spec with an opinion (the corrected test) |
| `OpinionStacks.OpinionStackModel.ResetPrim` | pxr/usdQt/opinionStackModel.py:270-292 | valid exactly when a prim is given; the corrected tree of a live prim or none |
| `OpinionStacks.OpinionStackFilter.constructor` | pxr/usdQt/opinionStackModel.py:187-195 | starts hiding rows without an opinion |
| `OpinionStacks.OpinionStackFilter.ToggleShowFullStack` | pxr/usdQt/opinionStackModel.py:197-199 | flips the flag and invalidates the filter once |
| `OpinionStacks.OpinionStackFilter.SetShowFullStack` | pxr/usdQt/opinionStackModel.py:201-204 | sets the flag and invalidates only when it changes |
| `OpinionStacks.OpinionStackFilter.FilterAcceptsRow` | pxr/usdQt/opinionStackModel.py:206-213 | a row is shown exactly when the full stack is shown or it shows an opinion |

## Left out

- Undo inverses are replayed through one state delegate. The source binds each inverse closure to the delegate of its own layer, so inverses spanning several layers are not modelled.
- Sdf layer storage is abstracted: a field edit is a value that is either applicable to a layer's data or not, and applying it gives the new data.
- `SdfChangeBlock` batching and `TF_DEBUG` diagnostics are not modelled; neither changes the data.
- The delegate's synchronisation of the layer's dirty state with the undo stack is not modelled.
- Copying a spec of unknown spec type is not modelled separately from the other spec types.
- Concurrency: every operation is modelled as running alone.
- ItemTreeRemoval.Unlink: on dictionaries that are already inconsistent (a parent with no children entry, or a child missing from its parent's list) the source raises `KeyError` or `ValueError`, while the model leaves that list as it is and goes on.
- ItemTreeRemoval.RemoveOf: follows the source on a tree that fetches, the pass over a fetched item using the fetched list, but its consistency lemmas are proved only for a tree that does not fetch (a plain ItemTree, or a LazyItemTree with updates blocked). A fetch may return items already placed elsewhere, and then the source itself breaks the tree (`FetchedReparent`, `FetchedDelete`).
- ItemTreeRemoval.ProcessItemDeleteWf: proved only for a tree that does not fetch, as for `RemoveOf`.
- ItemTreeRemoval.RemoveDeleteWf: proved only for a tree that does not fetch, as for `RemoveOf`.
- ItemTreeRemoval.RemoveReparentWf: proved only for a tree that does not fetch, as for `RemoveOf`.
- ItemTreeRemoval.RemoveDeleteSubtrees: proved only for a tree that does not fetch, as for `RemoveOf`.
- The iteration order of Python sets is replaced by first-occurrence order.
- The lazy tree's fetch callback is a deterministic function given to the model.
- Python's recursion limit in `ItemTree` walks is the constant `recursionLimit`.
- `IterChildren` yields the same list as `GetChildren` and is not modelled separately.
- `_ValidateItemType` and its `TypeError` are not modelled: items are typed.
- Qt signals emitted by the tree models are not modelled.
- ItemTrees.ItemTree.WalkItems: the proof covers the order and the membership of what is yielded, not that every descendant is yielded, and only for a tree that does not fetch (a plain ItemTree, or a LazyItemTree with updates blocked).
- ItemTreeQueries.WalkOrder: proved only for a tree that does not fetch; a walk that fetches changes the tree as it goes.
- ItemTreeQueries.WalkItemsOrder: proved only for a tree that does not fetch, and without completeness.
- Python object identity is modelled by an integer id per item.
- ProxyModel.ProxyTreeModel.SetSourceColumns: a `Column` object is given by its name.
- ProxyModel.ProxyTreeModel.constructor leaves the column maps empty. `__init__` then calls `setSourceColumns` (treemodel/qt/proxymodel.py:383), which the model's caller does as a separate step.
- Expiry of prim handles is not modelled: a prim is valid or not in the stage snapshot it is given.
- The hierarchy cache keeps null table entries, which the C++ dereferences without checking (undefined behaviour), and gives each use a defined outcome. `HierarchyCacheModel.InvalidateOf` deletes the subtree under a null entry, as for a rejected prim; an absent path is skipped. `HierarchyCacheModel.ResyncParent` skips a parent under a null entry. `GetChildCount` and `GetRow` answer 0 for a null proxy, and `GetRow` answers 0 when the parent's entry is null.
- Table keys are `SdfPath` values rather than strings.
- Registering a child that is not in the stage registers the empty path, as `GetChild` of an invalid prim does.
- The set of unique parents in resync is taken in ascending path order.
- The Python prim id table is modelled as functions on values, without a class.
- The C++ child index in `GetChildPath` is modelled as a natural number.
- The filter cache's parallel work dispatch is modelled as a sequential loop; the results do not depend on the order.
- The filter cache's string-keyed state map is keyed by paths.
- The example filter's test stage is built from the test's paths only.
- The default insertion by `operator[]` in `_RunFilter` is unreachable in the model, because every visited prim is entered first.
- The `includePath` option of `getPrimVariants` is not modelled.
- UsdUtils.EditTargetContext.Exit requires an earlier `Enter`, as a `with` block guarantees; a bare `__exit__` would set the edit target to None.
- The lookup of a layer and its default prim in `layerPrimHasVariantSelection` (usdlib/variants.py:250-256) is I/O and is a parameter.
- Variants.HasSelection: the search is proved sound, not complete, because the source's search is a heuristic over the order of the selections.
- The variant sets that `GetPrimVariants` lists after the composed ones come in an unspecified order in the source; the model keeps the order it is given.
- `variantKeyFunc` paths with variant selections in the middle of the path are not modelled.
- `getPrimDefaultVariants`, `VariantContext`, `SessionVariantContext` and `getSelectedVariants` author to a live stage and are not modelled.
- The Qt parts of the variant editor are not modelled: `LazyVariantTree`, `VariantModel`, the menu actions, `RemoveVariant` and `RemoveVariantSet`.
- A proxy's objects are copies: a write through one proxy is not seen through another proxy, or through the stage, that aliases the same object.
- USD value resolution and interpolation are abstracted: an attribute reads the value stored for a time code.
- A write failure is modelled as an invalid object or a value of the wrong type.
- Dictionary metadata keeps its entries in stored order rather than `VtDictionary` key order.
- `GetDocumentation` and `GetSize` of the proxies are not modelled.
- Coding-error diagnostics reported by the proxies are not modelled; only their return values are.
- The `removeSpec` argument of the clear operations is passed through but has no effect on the model's data.
- Schema fields and display groups are parameters of the model.
- `std::sort` of tokens is modelled by the `SortTokens` function on values.
- A relationship's forwarded targets are a stored field rather than computed through other relationships.
- Hooks.UsdQtHooks.Call: Python cannot tell a hook that returned None from one that did nothing, so the result is an `Option`.
- An exception a hook raises, other than `FallbackException`, is named by its class only; its arguments and traceback are not modelled.
- The reference-path dialog of `GetReferencePath` is the `entered` parameter.
- Keyword arguments passed to hooks are not modelled.
- The opinion stack's notice listener and `_OnObjectsChanged` are not modelled.
- OpinionStacks.OpinionStackModel.GetPrimTree: builds the corrected tree of the `opinionStackModel.py` Findings row, in which a layer row shows its first spec with an opinion; the source's `not strongestPrim` test lets the next spec with an opinion replace a strongest index of 0. `TreeAsWritten` models the source's tree.
- OpinionStacks.OpinionStackModel.constructor: builds the corrected tree through `ResetPrim`, as `GetPrimTree` does.
- OpinionStacks.OpinionStackModel.ResetPrim: rebuilds the corrected tree through `GetPrimTree`.
- Qt `index`, `parent`, `flags`, `headerData` and `rowCount` of the opinion stack model are not modelled.
- The opinion stack's source-column text and its tool-tip role are not modelled.
- In `_PropertyMetadataHandler.GetValue`, an unauthored key reads as None.
- `str()` of values is modelled by strings stored with the values.
- `invalidateFilter` is modelled as a counter of invalidations.
- Qt widgets, the Python bindings, the Maya integration and the value widgets are not part of this model.

## Findings

| source | as written | input that shows it | evidently intended | confidence | as-written member | corrected member |
|---|---|---|---|---|---|---|
| treemodel/qt/proxymodel.py:103-104 | `removeItem` pops the last item, then stores it at the removed item's row | removing the only item, or the one in the last row, raises `IndexError` | removing any held item succeeds and keeps the other items' order map consistent | not executed | `ProxyModel.RemoveLastFails` | `ProxyModel.RemoveSpec` |
| usdQt/primIdTable.h:129-131 | `ContainsId` returns whether the id is NOT in the table | a new table answers false for its root id 1, which it holds, and true for the unused id 0 | true exactly for ids in the table | not executed | `PrimIdTableModel.ContainsIdInverted` | `PrimIdTableModel.ContainsIdSpec` |
| usdQt/primIdTable.py:43-45 | `binarySearch` reports an insertion point as a match | `/World/a` in `[/World/b]` is reported found | found exactly when the item is in the list | not executed | `PrimIdTablePort.BinarySearchOverApproximates` | `PrimIdTablePort.BinarySearch` |
| usdQt/primIdTable.py:410-421 | the port's resync decides which new children to keep with `binarySearch` as written, so it keeps a child that neither the table nor the resynced paths hold whenever some listed path sorts at or above it | the stage lists `/W/a` and `/W/b` under `/W`, the table lists only `/W/b`, and `/W/b` is resynced: `/W/a` is kept and nothing is reported | every new child that is neither registered nor resynced is reported out of sync, as the C++ resync does | not executed | `PrimIdTablePort.PortKeepsUnsynced` | `PrimIdTableModel.UpdateParentsChildren` |
| usdQt/primIdTable.py:104-114 | `IsRoot` compares the looked-up item record, or None, with the root path | every id, the root's included, is reported as not the root | the root id is reported as the root | not executed | `PrimIdTablePort.IsRootNeverHolds` | `PrimIdTableModel.FreshTable` |
| usdQt/primIdTable.py:269-275 | `GetRow` calls `index` on the parent's `(path, children)` record instead of its children list | any registered child of the root raises `ValueError` | the child's row under its parent | not executed | `PrimIdTablePort.GetRowAsWrittenFails` | `PrimIdTablePort.PortGetRowSpec` |
| pxr/usdQtEditors/variantEditor.py:63 | `$` in the name pattern also matches before a final newline | `"a\n"` is accepted as a valid identifier | only names made of identifier characters are accepted | not executed | `VariantEditor.TrailingNewlineAccepted` | `VariantEditor.MakeValidSpec` |
| pxr/usdQt/opinionStackModel.py:265-267 | a strongest index of 0 reads as unset (`not 0` is true), so the next spec with an opinion replaces it | two specs with opinions on the same layer give the strongest index 1 instead of 0 | the first (strongest) spec with an opinion is kept | not executed | `OpinionStacks.StrongestPrimOverwritten` | `OpinionStacks.StrongestPrimKept` |
