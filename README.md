# olio tree synchronisation, modelled in Dafny

olio keeps a JavaScript object tree in sync between peers by sending patches.
This project models the core of that machinery and proves properties about it.

- **`ObjectModifier`** (src/utils/objectModifier.js) writes into a tree at a
  keypath and keeps a log of changes. Each change records a keypath, its old
  value and its new value.
- **`ensurePath`** (src/utils/ensurePath.js) creates the missing containers
  along a keypath.
- **`diff`** (src/utils/diff.js) walks a deep copy of a base tree towards a
  target tree. It then turns the compacted and compressed log of that walk
  into a patch. A patch is a list of entries: `[path, "a", new]`,
  `[path, "u", old, new]` or `[path, "d", old]`.
- **`patch`** (src/utils/patch.js) applies a patch. In strict mode it first
  checks every entry's expected old value.
- **`State`** (src/state.js) is a tree with a modifier that announces its
  changes as `"change"` events.
- **`Sync`** (src/sync.js) keeps one local `State` and a shadow `State` per
  peer. It decides what patch to send to a peer and how to take in a patch
  from one.

## How the model is built

- **The tree.** A tree is a heap of numbered objects (`Heaps.Heap`). Each
  object is a map or an array, and its slots hold primitives or references
  to other objects. A heap is well formed when:
  - every reference points to a younger object, so the graph is acyclic;
  - no object is held by two slots;
  - nothing holds the root.
- **Snapshots.** `Heaps.Resolve` reads a value as a JSON snapshot. Equality
  of snapshots is what a deep copy preserves.
- **Objects.** Objects whose fields the source updates in place are
  classes: `Heaps.Tree`, `Modifiers.ObjectModifier`, `States.State` and
  `Syncs.Sync`.
- **Methods and functions.** Every method is proved against a function of
  the old state, for example `State() == AfterSet(old(State()), ...)`.
  Lemmas about those functions state what the source promises. Where a
  lemma holds only for some inputs, "## Left out" says which inputs and
  why (for `diff`, see the lines starting with `Diffs.DiffOf`).
- **What a diff means.** `DiffFacts.DiffAtReaches` proves that `_diff`
  turns the copy's snapshot into the target. `SelfDiffs.SelfDiffEmpty`
  proves that a tree diffed against its own snapshot gives an empty patch.
  `Diffs.DiffOfAntichain` proves that the entries of a patch touch
  disjoint keypaths.
- **Errors.** Where the source throws, an operation returns `false`,
  `None`, or a list of the entries that failed.
- **Events.** Events are returned as the list of notices emitted, in order.

## Model

| member | source | states |
|---|---|---|
| Values.KeyLessIsStrictTotalOrder | src/utils/objectModifier.js:273-282 | The order in which children of the changes tree are zipped is a strict total order on keys (irreflexive, transitive, total). |
| Values.SortedKeys | src/utils/objectModifier.js:273 | The enumeration of a key set is strictly sorted, lists exactly the keys of the set, and has one entry per key. |
| Values.JsonKeys | src/utils/objectModifier.js:73 | lodash `keys` of a value being `set`: the indices 0..n-1 of an array, the keys of a map in enumeration order, nothing for anything else. |
| Heaps.Assign | src/utils/objectModifier.js:382 | `obj[k] = v` makes `k` read `v` and leaves every other key reading as before; the kind of container is kept. |
| Heaps.Store | src/utils/objectModifier.js:381-393 | The final step of a deep write: afterwards `k` reads `v` and every other key reads as before, including after the cleanup by pop or delete. |
| Heaps.StoreAbsentInArray | src/utils/objectModifier.js:384-391 | Writing `undefined` into an array pops the last slot. Any other slot becomes a hole and the length stays, except that an empty last slot is popped instead (`last(obj) === obj[k]`). |
| Heaps.GetConcat | src/utils/patch.js:70-78 | `_get` along `p + q` is `_get` along `q` from what `p` reaches. |
| Heaps.GetOfNonContainer | src/utils/patch.js:71-76 | `_get` from a non-object is that value for the empty path and `undefined` otherwise. |
| Heaps.GetLast | src/utils/patch.js:70-78 | The value at a keypath is the last key's slot in the object that the rest of the keypath reaches. |
| Heaps.GetFrame | src/utils/patch.js:70-78 | `_get` only depends on objects at or above the identity it starts from. |
| Heaps.ResolveFrame | src/state.js:70 | A snapshot (what `cloneDeep` copies) only depends on objects at or above the value's identity. |
| Heaps.ResolveEmpty | src/utils/ensurePath.js:40 | A fresh empty container reads as `[]` or `{}`. |
| Heaps.AllocValid | src/utils/ensurePath.js:40 | Creating an empty container keeps the heap well formed and leaves the new object held by no slot. |
| Heaps.StoreAtValid | src/utils/objectModifier.js:381-392 | A store of a placeable value keeps the heap well formed and keeps unheld objects unheld. |
| Heaps.CreateClosed | src/utils/ensurePath.js:40 | Creating a container and linking it under its parent keeps the heap closed. |
| Heaps.CreateFrame | src/utils/ensurePath.js:40 | Creating a container changes no existing object except the parent that links it. |
| Heaps.CloneNode | src/state.js:70 | lodash `cloneDeep` of one object: an array keeps its length and reads the same at every index but drops its named properties; a map is copied whole. |
| Heaps.CloneHeap | src/state.js:70 | A deep copy keeps every identity and the heap's allocation mark, copies each object as `CloneNode` says, and keeps the heap closed. |
| Heaps.CloneValid | src/state.js:70 | A deep copy keeps the heap well formed, and an object held by no slot stays unheld. |
| Heaps.CloneResolve | src/state.js:70 | A deep copy has the same snapshot as the original, from every value. |
| Heaps.Tree.Copy | src/state.js:69-71 | `cloneDeep(other.state)`: a new tree whose heap is `CloneHeap` of the other's (arrays copied by index only), with the same snapshot. |
| Heaps.Tree.Empty | src/state.js:24 | no initial object: a fresh tree holding one empty container whose snapshot is `{}` or `[]`. |
| EnsurePaths.Ensure | src/utils/ensurePath.js:33-50 | `ensurePath` creates fewer levels than the path is long, and the heap grows by exactly one object per reported level. |
| EnsurePaths.EnsureReport | src/utils/ensurePath.js:38-49 | The returned list names the levels from the first non-container down to the last proper prefix. The first level carries the value it replaced, the others `undefined`, and each carries its new container. |
| EnsurePaths.KeptMeaning | src/utils/ensurePath.js:38 | The levels `ensurePath` enters are those that read as containers. The first one it replaces holds the reported old value inside the reported parent. |
| EnsurePaths.EnsureFrame | src/utils/ensurePath.js:33-50 | No object disappears, and objects older than `obj` are untouched. |
| EnsurePaths.EnsureClosed | src/utils/ensurePath.js:33-50 | The heap stays closed and keeps every object. |
| EnsurePaths.EnsureValid | src/utils/ensurePath.js:33-50 | The heap stays well formed, and the root stays unheld. |
| EnsurePaths.EnsureReaches | src/utils/ensurePath.js:33-50 | Afterwards every proper prefix of the path reads as a container. |
| EnsurePaths.EnsureShape | src/utils/ensurePath.js:38-47 | Nothing changes when every level was already a container. Otherwise the parent of the first missing level links a chain of new containers, each an array exactly when the key below it is an index, and no other object changes. |
| EnsurePaths.AllContainersMeaning | src/utils/ensurePath.js:38 | The recursive "every level is a container" check agrees with reading every proper prefix. |
| EnsurePaths.EnsurePath | src/utils/ensurePath.js:33-50 | The in-place walk leaves the heap and returns the list that `Ensure` describes, and the tree stays valid. |
| EnsurePaths.CreatesArray | src/utils/ensurePath.js:40 | Whether a created level is an array: exactly when the key below it is an index. No ensures of its own; `EnsurePaths.EnsureShape` states the containers created with it. "## Left out" says which texts JavaScript also reads as indices here. |
| ChangeLogs.Filter | src/utils/objectModifier.js:212-229 | The changes filed under one keypath are never more than the log holds. |
| ChangeLogs.FilterHas | src/utils/objectModifier.js:212-229 | A keypath that some change of the log has gets a non-empty list when the log is filed. |
| ChangeLogs.FilterMember | src/utils/objectModifier.js:212-229 | A change is filed under a keypath exactly when it is in the log and has that keypath. |
| ChangeLogs.Generate | src/utils/objectModifier.js:212-229 | `_generateChangesTree`. No ensures of its own; `ChangeLogs.GenerateAt` states what each node holds. |
| ChangeLogs.Zip | src/utils/objectModifier.js:263-284 | `_zipChangesTree`. No ensures of its own; `ChangeLogs.ZipAt` and `ChangeLogs.ZipAncestorsFirst` state its content and order. |
| ChangeLogs.CompactList | src/utils/objectModifier.js:296-315 | The compaction of one node's list. No ensures of its own; `ChangeLogs.CompactShrinks`, `ChangeLogs.CompactUnmatched` and `ChangeLogs.CompactChain` state what it keeps. |
| ChangeLogs.CompactTree | src/utils/objectModifier.js:296-317 | `_compactChangesTree`. No ensures of its own; `ChangeLogs.CompactTreeAt` states what each node holds. |
| ChangeLogs.CompressTree | src/utils/objectModifier.js:325-335 | `_compressChangesTree`. No ensures of its own; `ChangeLogs.CompressTreeAt` states what each node holds. |
| ChangeLogs.CompactLog | src/utils/objectModifier.js:149-153 | `compact`. No ensures of its own; `ChangeLogs.CompactLogAt` states it keypath by keypath. |
| ChangeLogs.CompressLog | src/utils/objectModifier.js:160-164 | `compress`. No ensures of its own; `ChangeLogs.CompressLogAt` and `ChangeLogs.CompressLogAntichain` state what it keeps. |
| ChangeLogs.FilterConcat | src/utils/objectModifier.js:214-227 | Filing a log by keypath distributes over concatenation. |
| ChangeLogs.InsertAt | src/utils/objectModifier.js:215-226 | Filing one change adds it at the end of its own keypath's node and leaves every other node's list as it was. |
| ChangeLogs.GenerateAt | src/utils/objectModifier.js:212-229 | Each node of `_generateChangesTree` holds exactly its keypath's changes, in log order. |
| ChangeLogs.Own | src/utils/objectModifier.js:265-272 | A node's own changes are listed at the empty keypath with their values and `seen` flag kept. |
| ChangeLogs.Under | src/utils/objectModifier.js:274-281 | A child's changes get the child's key put in front of each keypath, with their values and `seen` flag kept. |
| ChangeLogs.ZipAt | src/utils/objectModifier.js:263-284 | `_zipChangesTree` lists, for every keypath, exactly that node's changes, in order. Together with GenerateAt, zipping the generated tree is a stable sort of the log by keypath. |
| ChangeLogs.ZipAncestorsFirst | src/utils/objectModifier.js:263-284 | In the zipped log a node's changes come before those of its descendants (preorder). |
| ChangeLogs.CompactEntries | src/utils/objectModifier.js:296-315 | The in-place splicing loop computes `CompactList` of the node's list. |
| ChangeLogs.CompactShrinks | src/utils/objectModifier.js:296-315 | Compaction never lengthens a list, and every resulting old and new value is drawn from the input. |
| ChangeLogs.CompactUnmatched | src/utils/objectModifier.js:302 | A list where no change starts at its predecessor's new value is kept as is, including a single no-op change. |
| ChangeLogs.CompactChain | src/utils/objectModifier.js:299-315 | A chain of changes compacts to at most one change, from the first old value to the last new value. It compacts to nothing only when those are equal. |
| ChangeLogs.CompactNodes | src/utils/objectModifier.js:296-317 | The recursion over the children compacts every node of the tree. |
| ChangeLogs.CompactTreeAt | src/utils/objectModifier.js:296-317 | Each node of the compacted tree holds the compaction of its own list. |
| ChangeLogs.ShadowedMeaning | src/utils/objectModifier.js:326-334 | A node is cut off by compression exactly when some proper prefix of its keypath holds a change. |
| ChangeLogs.CompressTreeAt | src/utils/objectModifier.js:325-335 | After `_compressChangesTree` a keypath holds one change (first old value, last new value, not seen) unless it held none or an ancestor held one, in which case it holds nothing. |
| ChangeLogs.CompactLogAt | src/utils/objectModifier.js:149-153 | `compact` works keypath by keypath: the compacted log's changes at `p` are the compaction of the log's changes at `p`. |
| ChangeLogs.CompressLogAt | src/utils/objectModifier.js:160-164 | After `compress` a keypath keeps exactly one change, from its first old value to its last new value, when it changed and no ancestor changed. Otherwise it keeps none. |
| ChangeLogs.CompressLogAntichain | src/utils/objectModifier.js:160-164 | A compressed log never has two changes at the same keypath, nor one below another. |
| ChangeLogs.LogsAncestorsFirst | src/utils/objectModifier.js:149-164 | Both `compact` and `compress` produce logs where ancestors precede descendants. |
| Modifiers.SetDeep | src/utils/objectModifier.js:379-397 | A successful deep write keeps the set of objects (no object is created or freed). |
| Modifiers.SetDeepMeaning | src/utils/objectModifier.js:379-397 | `_setPrimitiveDeep` succeeds exactly when the keypath is non-empty and its holder is an object. It then stores into the holder alone and returns the old value at the keypath. |
| Modifiers.SetDeepLands | src/utils/objectModifier.js:379-397 | After a successful deep write the keypath reads the value written. |
| Modifiers.SetDeepClosed | src/utils/objectModifier.js:379-397 | A deep write into an existing holder succeeds and keeps the heap closed. |
| Modifiers.SetPrimitiveDeep | src/utils/objectModifier.js:379-397 | The recursive in-place write agrees with `SetDeep` and leaves the heap alone where it throws. |
| Modifiers.NodeKeysComplete | src/utils/objectModifier.js:349 | lodash `keys` of an object lists every property it holds. |
| Modifiers.RemovalChanges | src/utils/objectModifier.js:345-363 | `_generateRemovalChanges` is empty exactly for `undefined`, and otherwise ends with the removal of the value itself at the empty keypath. |
| Modifiers.RemovalCovers | src/utils/objectModifier.js:345-363 | Every value of the removed subtree gets a removal change at its keypath. |
| Modifiers.RemovalDescendantsFirst | src/utils/objectModifier.js:345-363 | Removal changes list children before their parents (post-order). |
| Modifiers.Rebase | src/utils/objectModifier.js:58-61 | Each removal change gets the written keypath put in front, with nothing else changed. |
| Modifiers.Creations | src/utils/objectModifier.js:245-251 | One log entry per level `ensurePath` created, with its path, old value and new value, not seen. |
| Modifiers.Clear | src/utils/objectModifier.js:51-63 | The removal step of `set` keeps the heap well formed, creates no object, and only appends to the log. |
| Modifiers.Place | src/utils/objectModifier.js:243 | An empty map or array written whole becomes one new empty container. Anything else changes no object. |
| Modifiers.PutLeaf | src/utils/objectModifier.js:238-254 | `_setPrimitive` keeps the heap well formed, only creates objects, and only appends to the log. |
| Modifiers.SetLeaf | src/utils/objectModifier.js:51-78 | `set` of a value written whole keeps the heap well formed and only appends to the log. |
| Modifiers.AfterSet | src/utils/objectModifier.js:50-80 | `set` keeps the heap well formed and only appends to the log. |
| Modifiers.SetKeys | src/utils/objectModifier.js:73-76 | The per-key recursion of `set` keeps the heap well formed and only appends to the log. |
| Modifiers.SetKeysStep | src/utils/objectModifier.js:73-76 | The keys are written one after another, in the order `keys` lists them. |
| Modifiers.WalkGet | src/utils/objectModifier.js:101-105 | When the `push`/`pop` walk ends at an object or at `undefined`, it found what the keypath holds. |
| Modifiers.Walk | src/utils/objectModifier.js:101-105 | The target the `push`/`pop` walk finds. No ensures of its own; `Modifiers.WalkGet` states what it finds. |
| Modifiers.AfterPush | src/utils/objectModifier.js:99-114 | `push` keeps the heap well formed. |
| Modifiers.AfterPop | src/utils/objectModifier.js:123-138 | A `pop` that goes through keeps the heap well formed. |
| Modifiers.MarkSeen | src/utils/objectModifier.js:183-187 | Every change is marked seen, nothing else changes. |
| Modifiers.Unseen | src/utils/objectModifier.js:196 | The changes not yet seen are a sub-list of the log holding exactly the unseen changes. |
| Modifiers.UnseenOfMarked | src/utils/objectModifier.js:195-201 | After every change is marked seen there is nothing new to report. |
| Modifiers.ClearValid | src/utils/objectModifier.js:51-63 | The removal step keeps the wrapped tree's invariant. |
| Modifiers.PlaceValid | src/utils/objectModifier.js:238-254 | Placing a leaf value and writing it keeps the wrapped tree's invariant. |
| Modifiers.ObjectModifier.constructor | src/utils/objectModifier.js:32-35 | A modifier over the given tree with an empty log. |
| Modifiers.ObjectModifier.ClearAt | src/utils/objectModifier.js:51-63 | The in-place removal step gives the state `Clear` describes. |
| Modifiers.ObjectModifier.SetPrimitive | src/utils/objectModifier.js:238-254 | The in-place `_setPrimitive` gives the state `PutLeaf` describes. |
| Modifiers.ObjectModifier.SetValue | src/utils/objectModifier.js:50-80 | The in-place recursive `set` gives the state `AfterSet` describes. |
| Modifiers.ObjectModifier.SetKeysAt | src/utils/objectModifier.js:73-76 | The `forEach` over the keys gives the state `SetKeys` describes. |
| Modifiers.ObjectModifier.Set | src/utils/objectModifier.js:50-80 | `set` goes through exactly when the keypath is non-empty or the value is written key by key. It then gives `AfterSet`; otherwise nothing changes. |
| Modifiers.ObjectModifier.Remove | src/utils/objectModifier.js:86-88 | `remove` is `set(keypath, undefined)`, refused only at the empty keypath. |
| Modifiers.ObjectModifier.WalkTo | src/utils/objectModifier.js:101-105 | The loop stops at the first non-object on the keypath. |
| Modifiers.ObjectModifier.Push | src/utils/objectModifier.js:99-114 | `push` gives the state and success flag `AfterPush` describes. |
| Modifiers.ObjectModifier.Pop | src/utils/objectModifier.js:123-138 | `pop` succeeds exactly when `AfterPop` does, and otherwise changes nothing. |
| Modifiers.ObjectModifier.Reset | src/utils/objectModifier.js:140-142 | The log is emptied. |
| Modifiers.ObjectModifier.GenerateTree | src/utils/objectModifier.js:212-229 | Builds the changes tree of the log and marks every change seen. |
| Modifiers.ObjectModifier.Compact | src/utils/objectModifier.js:149-153 | The log becomes `CompactLog` of the old log. |
| Modifiers.ObjectModifier.Compress | src/utils/objectModifier.js:160-164 | The log becomes `CompressLog` of the old log. |
| Modifiers.ObjectModifier.ForEachChange | src/utils/objectModifier.js:182-188 | One callback per change, in log order, with the `seen` flag the change had. Afterwards every change is seen. |
| Modifiers.ObjectModifier.ForEachNewChange | src/utils/objectModifier.js:195-201 | One callback per unseen change, in log order, reported as not seen. Afterwards every change is seen. |
| ModifierFacts.RemovalSound | src/utils/objectModifier.js:345-363 | Every removal change goes from the value found at its keypath (never `undefined`) to `undefined`, and is not seen. |
| ModifierFacts.ClearLands | src/utils/objectModifier.js:51-63 | After the removal step a reachable keypath holds nothing. |
| ModifierFacts.ClearAdded | src/utils/objectModifier.js:52-63 | The removal step appends nothing when the keypath cannot be reached. Otherwise it appends the rebased removal changes of the old value. |
| ModifierFacts.ClearLog | src/utils/objectModifier.js:51-63 | The removal step logs nothing exactly when the keypath is unreachable or holds nothing. Otherwise its last entry removes the keypath's own value. |
| ModifierFacts.ClearSound | src/utils/objectModifier.js:51-63 | Each entry of the removal step takes a value the old tree held at that keypath, at or below the written keypath, to `undefined`. |
| ModifierFacts.ClearCovers | src/utils/objectModifier.js:51-63 | Every value of the removed subtree is listed by the removal step. |
| ModifierFacts.ClearDescendantsFirst | src/utils/objectModifier.js:51-63 | The removal step lists children before parents. |
| ModifierFacts.PutLeafLands | src/utils/objectModifier.js:238-254 | After `_setPrimitive` the keypath reads as the value given. |
| ModifierFacts.PutLeafLog | src/utils/objectModifier.js:238-254 | `_setPrimitive` logs one entry per created level, outermost first. The first carries the value it replaced and the rest `undefined`. A final entry goes from `undefined` to the written value. |
| ModifierFacts.PutLeafAdded | src/utils/objectModifier.js:239-253 | The entries `_setPrimitive` appends are exactly `ensurePath`'s report, then the write. |
| ModifierFacts.SetLeafLands | src/utils/objectModifier.js:50-80 | `set` of a value written whole leaves that value at the keypath. |
| ModifierFacts.RemoveLands | src/utils/objectModifier.js:86-88 | After `remove` the keypath holds nothing. |
| ModifierFacts.RemoveEndsLog | src/utils/objectModifier.js:86-88 | `remove` always ends the log with an `undefined`-to-`undefined` entry at the keypath. |
| ModifierFacts.PushLands | src/utils/objectModifier.js:99-114 | Pushing one value written whole onto an array succeeds, and the value lands at the array's old length. |
| ModifierFacts.PopLands | src/utils/objectModifier.js:123-138 | Popping an array succeeds, and its last index holds nothing afterwards. |
| Diffs.Keys | src/utils/diff.js:60-69 | lodash `keys` of a tree value: the object's keys, none for a non-container. |
| Diffs.Common | src/utils/diff.js:60 | `intersection`: exactly the keys in both lists, in the first list's order. |
| Diffs.Minus | src/utils/diff.js:66-69 | `difference`: exactly the keys of the first list missing from the second. |
| Diffs.DiffCommon | src/utils/diff.js:60-65 | The first stage of `_diff` keeps the copy closed with its root, and only appends to the log. `DiffFacts.DiffCommonReaches` states where it leaves the copy. |
| Diffs.DiffKey | src/utils/diff.js:61-64 | One shared key: overwritten first when the copy holds no object there, then walked. It keeps the copy closed with its root, and only appends to the log; `DiffFacts.DiffKeyReaches` states its effect. |
| Diffs.RemoveKeys | src/utils/diff.js:66-68 | The removals keep the copy closed with its root, and only append to the log. `DiffFacts.RemoveKeysReaches` states their effect. |
| Diffs.SetMissing | src/utils/diff.js:69-71 | The additions keep the copy closed with its root, and only append to the log. `DiffFacts.SetMissingReaches` states their effect. |
| Diffs.DiffAt | src/utils/diff.js:55-72 | `_diff` keeps the copy closed with its root, and only appends to the modifier's log. Where the walk leaves the copy is stated by `DiffFacts.DiffAtReaches`. |
| Diffs.DiffCommonStep | src/utils/diff.js:60-65 | The shared keys are handled one after another. |
| Diffs.RemoveKeysStep | src/utils/diff.js:66-68 | Each key missing from the target is removed in turn. |
| Diffs.SetMissingStep | src/utils/diff.js:69-71 | Each key missing from the base is set to the target's value in turn. |
| Diffs.Translate | src/utils/diff.js:40-48 | One patch entry per change, in order, each encoded from its change. |
| Diffs.Encode | src/utils/diff.js:41-47 | One patch entry. No ensures of its own; `Patches.DecodeEncode` states that decoding gives back the change. |
| Diffs.Encoded | src/utils/diff.js:38-48 | Compact, compress, translate. No ensures of its own; `Diffs.EncodedAntichain` and `Diffs.EncodeLog` state its properties. |
| Diffs.EncodedAntichain | src/utils/diff.js:38-48 | The entries of an encoded log are at distinct keypaths, and none is below another. |
| Diffs.DiffOfAntichain | src/utils/diff.js:33-50 | The entries of `diff(base, target)` are at distinct keypaths, and none is below another. |
| Diffs.DiffCommonAt | src/utils/diff.js:60-65 | The `forEach` over the shared keys gives the state `DiffCommon` describes. |
| Diffs.DiffKeyAt | src/utils/diff.js:61-64 | One turn of that `forEach` gives the state `DiffKey` describes. |
| Diffs.DiffEntries | src/utils/diff.js:34-49 | For a container target, the entries are the encoding of `DiffAt` run on a deep copy of the base. |
| Diffs.DiffOf | src/utils/diff.js:33-50 | `diff` throws exactly when the target is not an object or array. Its result is characterised by `DiffFacts.DiffWalkReaches`, `SelfDiffs.SelfDiffEmpty` and `Diffs.DiffOfAntichain`. |
| Diffs.DiffRec | src/utils/diff.js:55-72 | The recursive in-place `_diff` gives the state `DiffAt` describes. |
| Diffs.RemoveKeysAt | src/utils/diff.js:66-68 | The `forEach` of removals gives the state `RemoveKeys` describes. |
| Diffs.SetMissingAt | src/utils/diff.js:69-71 | The `forEach` of additions gives the state `SetMissing` describes. |
| Diffs.EncodeAll | src/utils/diff.js:40-48 | The callback pushes one entry per call, in call order. |
| Diffs.EncodeNotices | src/utils/diff.js:40-48 | The entries built from the `forEachChange` calls are the translation of the log. |
| Diffs.Diff | src/utils/diff.js:33-50 | `diff` returns `DiffOf` of the base. It walks a deep copy, so the base tree is left as it was. |
| Diffs.DiffState | src/utils/diff.js:34-37 | A fresh modifier over `CloneHeap` of the base (arrays copied by index only), walked towards the target as `DiffAt` describes. |
| Diffs.EncodeLog | src/utils/diff.js:38-48 | Compact, compress, then encode each change in order. |
| DiffFacts.FitsSelf | src/utils/diff.js:55-72 | Every value fits itself: a base with no array where the target has an object. |
| DiffFacts.OverlayMeaning | src/utils/diff.js:60-71 | After the keys `ks` are handled, each of them holds the target's value (or is gone where the target has none), and every other key holds what it held before. |
| DiffFacts.DiffAtReaches | src/utils/diff.js:55-72 | `_diff(path, o1, o2)` leaves `o2` at `path`: the copy's snapshot is the old one with `o2` written at `path`, and `path` reads a value whose snapshot is `o2`. The levels above `path` keep their objects, and so does `path` when `o2` is an object. |
| DiffFacts.DiffCommonReaches | src/utils/diff.js:60-65 | After the shared keys `ks` are walked, each holds the target's value; the other keys and the objects along `path` are kept. |
| DiffFacts.DiffKeyReaches | src/utils/diff.js:61-64 | After one shared key is handled it holds the target's value, and nothing else in the snapshot changes. |
| DiffFacts.KeyRewritten | src/utils/diff.js:61-64 | A shared key holding no object is overwritten with the target's value, and the walk below it leaves that value there. |
| DiffFacts.WriteKey | src/utils/diff.js:62 | Overwriting a shared key writes the target's value into the snapshot at that key. |
| DiffFacts.RemoveKeysReaches | src/utils/diff.js:66-68 | After the removals each removed key is absent from the snapshot, and every other key is kept. |
| DiffFacts.SetMissingReaches | src/utils/diff.js:69-71 | After the additions each added key holds the target's value, and every other key is kept. |
| DiffFacts.DiffWalkReaches | src/utils/diff.js:34-37 | The walk `diff` makes on a deep copy of the base ends with the copy's snapshot equal to the target. |
| SelfDiffs.SelfDiffEmpty | src/utils/diff.js:33-50 | `diff` of a tree against its own snapshot is the empty patch, for a tree whose arrays have a defined element at every index. |
| SelfDiffs.SelfDiffAt | src/utils/diff.js:55-72 | `_diff` of a value against its own snapshot leaves the copy as it was, and logs only changes that come in undoing pairs. |
| SelfDiffs.LeafTwice | src/utils/objectModifier.js:50-80 | `set` of the primitive a keypath already holds logs its removal and its write back, and leaves the tree as it was. |
| SelfDiffs.CancellingCompacts | src/utils/objectModifier.js:149-164 | A log made of undoing pairs compacts to the empty log, and compressing that leaves it empty. |
| SelfDiffs.ClonePlain | src/state.js:70 | A deep copy of a tree without holes has no holes and no named array properties. |
| Snapshots.PutGet | src/utils/objectModifier.js:50-80 | Writing `v` at a keypath through objects reads `v` back, and the levels above stay objects. |
| Snapshots.PutTwice | src/utils/objectModifier.js:50-80 | A second write at the same keypath overrides the first. |
| Snapshots.PutSame | src/utils/objectModifier.js:50-80 | Writing the value already at a keypath changes nothing. |
| Snapshots.SetFrame | src/utils/objectModifier.js:50-80 | `set` below containers at every level stores the new value under the last key of the holder, after the removal step stored `undefined` there. That value's snapshot is the one written, and no other old object changes. |
| Snapshots.SetSnapshot | src/utils/objectModifier.js:50-80 | `set(q, v)` through objects makes the tree's snapshot the old one with `v` written at `q`, and the walks to the levels above `q` reach the same objects. |
| Landings.SetLands | src/utils/objectModifier.js:50-80 | After `set(q, v)` at a non-empty keypath, for a `v` whose maps have name keys only and which holds no `undefined`, `q` reads a value whose snapshot is `v`, whether `v` was written whole or key by key. |
| Patches.DecodeEncode | src/utils/patch.js:34-49 | Decoding an entry made by `diff` gives back its keypath, the snapshot of its old value as the expected value, and the snapshot of its new value. |
| Patches.Decode | src/utils/patch.js:34-49 | The expected old value and the new value of an entry, none for an unknown code. No ensures of its own; `Patches.DecodeEncode` states it undoes `Encode`. |
| Patches.Matches | src/utils/patch.js:51-52 | lodash `eq` against a snapshot. No ensures of its own; `Patches.MatchesMeaning` states when it holds. |
| Patches.PatchOf | src/utils/patch.js:20-25 | `patch`: the entries in turn, then `compact`. No ensures of its own; `Patches.PatchRunStops`, `Patches.PatchRunAll` and `Patches.Patch` state its result. |
| Patches.MatchesMeaning | src/utils/patch.js:51-52 | The strict check passes exactly when the expected value is not a container and equals the snapshot of what the keypath holds. |
| Patches.PatchStep | src/utils/patch.js:30-57 | A successful `_patchEntry` keeps the tree well formed and only appends to the log. |
| Patches.StrictContainerFails | src/utils/patch.js:39-54 | In strict mode a `"u"` or `"d"` entry whose old value is an object or array always throws. |
| Patches.LenientFailures | src/utils/patch.js:30-57 | In lenient mode an entry throws exactly for an unknown code or a value written whole at the empty keypath. |
| Patches.LenientLands | src/utils/patch.js:56 | A lenient `"a"`, `"u"` or `"d"` entry at a non-empty keypath, whose new value has only name keys in maps and no `undefined` inside, succeeds. The keypath then holds a value whose snapshot is the entry's new value, whether it was written whole or key by key. |
| Patches.PatchRun | src/utils/patch.js:22 | The `forEach` keeps the tree well formed and only appends to the log. |
| Patches.PatchRunStops | src/utils/patch.js:22 | A run that throws applied every entry before the failing one and none after it. |
| Patches.PatchRunAll | src/utils/patch.js:22 | A run that does not throw applied each entry in turn successfully. |
| Patches.GetAt | src/utils/patch.js:70-78 | The recursive `_get` reads the value `Get` describes. |
| Patches.PatchEntryAt | src/utils/patch.js:30-57 | `_patchEntry` succeeds exactly when `PatchStep` does. It then gives that state; otherwise nothing changes. |
| Patches.PatchEntries | src/utils/patch.js:22 | The `forEach` gives the state and success flag `PatchRun` describes. |
| Patches.Patch | src/utils/patch.js:20-25 | `patch` returns a fresh modifier over the target in the state `PatchOf` describes. |
| States.Split | src/state.js:29-31 | `split(".")` gives at least one piece, and no piece contains the delimiter. |
| States.JoinSplit | src/state.js:29-31 | Joining the pieces with `.` gives back the text. |
| States.SplitJoin | src/state.js:29-31 | Splitting a join of delimiter-free pieces gives back the pieces. |
| States.NatText | src/state.js:29-31 | The decimal text of a number has no leading zeros. |
| States.KeyOf | src/state.js:29-31 | A piece is an index exactly when it is canonical decimal text, and otherwise a name with that text. |
| States.KeyTextOf | src/state.js:29-31 | A piece reads back as the same text from its key. |
| States.KeypathOf | src/state.js:28-31 | A dotted keypath has one key per piece. |
| States.NewNotices | src/state.js:34-36 | One `"change"` event per unseen change, in log order. |
| States.NothingNewAfterAnnounce | src/state.js:32-36 | After the events are emitted nothing is left to announce. |
| States.EmptyLogs | src/utils/objectModifier.js:149-164 | The empty log compacts and compresses to the empty log. |
| States.ApplyFrom | src/state.js:41-47 | The loop of `applyPatch` keeps the tree well formed and only reports indices of entries it tried. |
| States.Applied | src/state.js:39-51 | `applyPatch` keeps the tree well formed. |
| States.LenientApplyFailures | src/state.js:41-47 | In lenient mode the only entries that fail are unknown codes and values written whole at the empty keypath. |
| States.LatestPatchOfEmpty | src/state.js:59-63 | Once the log is emptied, the next latest patch is empty. |
| States.LatestPatch | src/state.js:59-63 | `getLatestPatch` of a log. No ensures of its own; `States.LatestPatchOfEmpty` and `Diffs.EncodedAntichain` state its properties. |
| States.State.constructor | src/state.js:19-26 | A State over the given tree, with a fresh modifier and an empty log. |
| States.State.Set | src/state.js:28-37 | `set` succeeds exactly when the keypath is non-empty or the value is written key by key. It then writes, compacts, emits one event per unseen change and leaves every change seen. On failure nothing changes and no event is emitted. |
| States.State.ApplyPatch | src/state.js:39-57 | Every entry is tried and the failing ones are collected. The log is compacted and announced. The call throws exactly when strict and some entry failed. |
| States.State.ApplyEntries | src/state.js:41-47 | The loop tries every entry, whether or not an earlier one threw. The indices collected are those of `ApplyFrom`. |
| States.State.ApplyEntry | src/state.js:42-46 | One turn of the loop: the entry is applied, or its index is recorded when it throws. |
| States.State.GetLatestPatch | src/state.js:59-63 | The patch of the old log, compacted, compressed and encoded. Afterwards the log is empty and the tree unchanged. |
| States.NewState | src/state.js:19-26 | The constructor throws exactly for a primitive or an array. No argument gives a fresh `{}`, and a plain object is used without copying. |
| States.Clone | src/state.js:69-71 | A new State over `CloneHeap` of the other's tree (arrays copied by index only), with an empty log. |
| Syncs.Invalidated | src/sync.js:9-11 | Every peer is marked stale, and nothing else about it changes. |
| Syncs.InvalidatedTwice | src/sync.js:9-11 | Marking every peer stale twice is the same as once. |
| Syncs.Taken | src/sync.js:40-53 | A non-empty patch is applied to the sender's shadow, and every peer becomes stale. An empty patch changes nothing. |
| Syncs.TakenInvalidated | src/sync.js:40-53 | Taking a patch is applying it to the shadow, then invalidating all peers. |
| Syncs.Sent | src/sync.js:29-33 | The stale-peer branch keeps the shadow well formed. |
| Syncs.SentToContainer | src/sync.js:29-33 | For an object or array local state, the diff exists and is applied strictly to the shadow. It is returned exactly when that apply throws nothing. |
| Syncs.SendTo | src/sync.js:30-33 | `diff` then a strict `applyPatch` on a shadow State object gives the shadow state and answer `Sent` describes. |
| Syncs.SendDiff | src/sync.js:31-33 | A strict apply to the shadow, returning the patch unless it throws. |
| Syncs.Reply | src/sync.js:55-70 | An expected answer is consumed and gets `[]`, and so does an up-to-date peer. A stale peer gets the diff from `Sent`, and is up to date afterwards exactly when the diff was sent. The peer never expects an answer afterwards. |
| Syncs.StrictApplyFails | src/sync.js:29-33 | A strict `applyPatch` of a patch holding a `"u"` or `"d"` entry whose old value is an object or array always throws. |
| Syncs.StrictApplyFailsFrom | src/state.js:41-47 | Such an entry is always among the failed entries collected by the loop. |
| Syncs.FailureReported | src/state.js:42-46 | An entry that throws is collected. |
| Syncs.FailureKept | src/state.js:41-47 | A collected failure is never dropped by later turns. |
| Syncs.Tried | src/state.js:42-46 | Trying an entry keeps the tree well formed and only appends to the log. |
| Syncs.Sync.constructor | src/sync.js:6-12 | A Sync over the local State with no peers. |
| Syncs.Sync.InvalidateAll | src/sync.js:9-11 | The change listener marks every peer stale. |
| Syncs.Sync.SetLocal | src/sync.js:9-11 | A local `set` behaves as `State.Set`, and it marks every peer stale exactly when an event was emitted. |
| Syncs.Sync.AddPeer | src/sync.js:14-20 | The peer gets a shadow over `CloneHeap` of the local tree (arrays copied by index only) with an empty log, stale and not expecting an answer. A known peer is replaced. |
| Syncs.Sync.PatchPeer | src/sync.js:22-36 | Throws for an unknown peer or one already expecting an answer, changing nothing. Otherwise the peer expects an answer and gets its `Reply` to the local snapshot. |
| Syncs.Sync.Receive | src/sync.js:38-71 | A non-empty patch is applied to the sender's shadow and to the local state, strictly exactly when remote is not preferred, and all peers become stale. Then the sender gets its `Reply`. An unknown sender throws, after the local apply in strict mode. |
| Syncs.Sync.Take | src/sync.js:40-53 | The first half of `receive` for a known peer gives `Taken` and the local `Applied`. |
| Syncs.Sync.TakeIn | src/sync.js:44-52 | The local apply of a non-empty patch, after which all peers are stale. |
| Syncs.Sync.Respond | src/sync.js:55-70 | The second half of `receive` gives the peer its `Reply`. |

## Left out

- **Broken imports.** src/sync.js imports `{ diff }` and src/state.js imports
  `generateDiffFromChanges` and `patchEntry`, none of which src/utils/diff.js
  or src/utils/patch.js exports. The model uses the evidently intended
  functions instead:
  - `diff` for the first;
  - compact, compress and translate (`Diffs.Encoded`) for
    `generateDiffFromChanges`;
  - `Patches.PatchStep` for `patchEntry`.
- **Peer shadows.** Inside `Sync` a peer's shadow `State` is held as a value
  (its tree and log), not as a separate object. In-place update and aliasing
  of the peers' `State` objects are therefore not captured. `Syncs.SendTo`
  shows the stale-peer step on a shadow kept as a `State` object.
- **Key order.** Object keys are enumerated in sorted order (indices first),
  not JavaScript insertion order.
- **Index keys.** A key is an index (`Index(n)`) or a name (`Name(s)`). A
  piece of a dotted keypath becomes an index exactly when it is canonical
  decimal text, such as "0" or "12" (`States.KeyOf`). Conversely, a
  `Name` whose text is canonical decimal stands for no JavaScript key. The
  model's operations never make one from keypath text. A `Json` value given
  to `set`, `diff` or `patch` is taken to hold none, and `Landings.Landable`
  does not check for them.
- EnsurePaths.CreatesArray: creates an array exactly for an index key.
  src/utils/ensurePath.js:40 tests `+next === parseInt(next) && +next >= 0`,
  which also holds for other texts that name a non-negative integer, such
  as "01", "1.0", "1e0", "0x1", " 1" and "-0". For those texts JavaScript
  creates an array holding the key as a named property. The model creates
  a map holding the key as a name. For example, `set("a.01", v)` on `{}`
  gives `{a: {"01": v}}` in the model.
- **Containers in patch entries.** Objects and arrays in patch entries and in
  written values are snapshots, never objects of the tree. So lodash `eq` by
  identity never matches them, and a written object is copied rather than
  shared. Aliasing of written objects, including empty ones, is not
  modelled.
- **Set at the empty keypath.** `set` of a value written whole at the empty
  keypath recurses without end in JavaScript. Before the stack overflows,
  `ensurePath` keeps storing a fresh `{}` under the key "undefined" and
  recursing into it (src/utils/ensurePath.js:34-47), so the tree gains a
  nested chain. The model returns failure and leaves the state unchanged.
- **Errors.** `Error` objects and their messages are not modelled:
  `failedPatches` is the list of indices of the entries that threw.
- **Events.** The event emitter is modelled as the returned list of notices.
  Listeners other than `Sync`'s are not modelled.
- **Not modelled:** `toJSON` (it returns the tree itself), the examples, and
  the `collab_app` demo.
- Diffs.DiffOf: the round trip "leniently patching a copy of the base with
  `diff(base, target)` gives `target`" is not proved. What is proved is
  that the walk turns the copy into the target (`DiffFacts.DiffWalkReaches`),
  that the entries touch disjoint keypaths (`Diffs.DiffOfAntichain`), and
  that each entry decodes to its change (`Patches.DecodeEncode`). The
  missing step is that every keypath where the walk changed the copy is
  covered by exactly one entry of the compacted and compressed log.
- Diffs.DiffOf: the walk is proved to reach the target only for targets
  whose maps have name keys only and hold no arrays and no `undefined`, over
  a base with no array where the target has an object
  (`DiffFacts.DiffWalkReaches`, `DiffFacts.DiffAtReaches`). Some other
  targets are reached too, such as `{a: [1, 2]}` from `{}`, but the lemma
  does not cover them. For some other targets the copy does not become the
  target, in JavaScript as in the model:
  - a map with index keys, written key by key, becomes an array
    (src/utils/ensurePath.js:40);
  - an `undefined` element written into an array is popped or leaves a hole
    (src/utils/objectModifier.js:384-391);
  - on a base array `_diff` removes the indices and adds the target's names
    as named properties of that array.
- Diffs.DiffOf: the empty self-diff (`SelfDiffs.SelfDiffEmpty`) is proved
  only for a base whose arrays have a defined element at every index. A
  hole or an `undefined` element can give a non-empty patch, in JavaScript
  as in the model. For example, the base `[1, <hole>]` gives `[[[1], "a"]]`:
  - the walk writes `undefined` at index 1 three times: as a shared key,
    in its own `_diff`, and as the key that the first write's pop made
    missing (src/utils/diff.js:60-71);
  - writing `undefined` at the last index pops it
    (src/utils/objectModifier.js:384-391);
  - compaction cancels changes in pairs, so one of the three
    `undefined`-to-`undefined` changes stays
    (src/utils/objectModifier.js:296-315).
- Diffs.Diff: the target is a snapshot (`Json`), so an array in the target
  cannot carry named properties. lodash `keys` would list such properties
  (src/utils/diff.js:60-69), and the model never sees them.
- Syncs.SendTo: the diff target is the snapshot of the local tree, which
  leaves out named properties of arrays. JavaScript's diff would list them
  and send them. A change to such a property alone sends `[]`.
- Syncs.Sync.PatchPeer: the diff target is the snapshot of the local tree,
  so named properties of arrays are not sent (see `Syncs.SendTo`).
- Syncs.Sync.Receive: the reply's diff target is the snapshot of the local
  tree, so named properties of arrays are not sent (see `Syncs.SendTo`).
- Syncs.Sync.Respond: the diff target is the snapshot of the local tree, so
  named properties of arrays are not sent (see `Syncs.SendTo`).
- Patches.LenientLands: proved only for new values whose maps have name
  keys only and which hold no `undefined`. Written key by key, a map with
  index keys becomes an array (src/utils/ensurePath.js:40), and an
  `undefined` element is popped or leaves a hole
  (src/utils/objectModifier.js:384-391). The same bound holds for
  `Landings.SetLands` and `ModifierFacts.SetLeafLands`.
- Syncs.StrictApplyFails: a strict `applyPatch` of a diff that updates or
  deletes an object or array always throws, because `eq` compares objects by
  identity and the entry carries a copy. The model states this behaviour as
  it is, rather than a successful sync.
- **Integers.** Numbers are unbounded integers. Floating point is not
  modelled.
