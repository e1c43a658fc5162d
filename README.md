# key-value-pointer in Dafny

A model of `lib/kvp.js` of key-value-pointer. `kvp(obj)` wraps a parsed JSON tree in an object with four methods:
- `select(pointer)` reads a JSON Pointer (RFC 6901).
- `query(cb)` walks the tree breadth first and calls `cb` on every property until it returns a truthy value.
- `replace(pointer, value)` and `remove(pointer)` change the tree in place.

The model consists of these files:

- `js_objects.dfy` is the JavaScript heap. Objects and arrays are containers referred to by identity in a `Store`. Their own keys are kept in enumeration order: array indices ascending first, then other keys in insertion order.
- `js_strings.dfy` holds `String.prototype.replace` with a string pattern (first occurrence only), `split('/')` and `join('/')`.
- `pointer.dfy` is the resolver `select(obj, sel)`. It keeps two departures from RFC 6901:
  - An empty segment sends the cursor back to the root.
  - Only the first `~1` and then the first `~0` of a segment are decoded.

  A pointer of plain keys is proved to read exactly the path it names.
- `traverse.dfy` states the walk `traverse` as functions over the store. These cover:
  - the `_xvq_pointer` marker, which the walk writes into every queued object and removes from the match;
  - the index `idx`, written before each callback;
  - the value read again after the callback.

  Lemmas state what the whole walk does: which visits it makes, in level order; what it records; and which visit decides the result.
- `resolution.dfy` proves that on a tree whose keys are non-empty and contain neither '/' nor '~', every pointer a query hands to its callback resolves through `select` to the value handed over with it. It also shows why the empty key is excluded: its property gets the pointer "/", which `select` reads as the root.
- `kvp.dfy` is the object `kvp(obj)` returns. It is a class whose fields are:
  - the heap;
  - the closure's `collection`;
  - the closure's `idx`.

  `query` runs as nested loops, proved equal to the walk functions. On an acyclic tree the walk ends within as many levels as the tree is high, so any larger bound gives the same outcome. `select`, `replace` and `remove` go through `idx` for pointers a query has met.
- `frame.dfy` proves that a query whose callback only answers writes nothing but `_xvq_pointer` markers, and only on the objects it hands over. Hence after the query, `select` through `idx` reads each recorded pointer's value as the callback saw it.
- `coverage.dfy` proves the other half of "calls `cb` on every property": a query that matches nothing on an acyclic tree, with a callback that only answers, has handed every property of every object reachable from the root to the callback.
- `scenarios.dfy` holds the sample object of `test/index.js`, with what the model gives for the pointers and queries its tests use.

Behaviour of the source that the model keeps:
- `query` with a callback that never matches does not return. `traverse` calls itself on an empty list until the stack overflows; the model reports this as `Exhausted`.
- For a pointer no query has met, `replace` and `remove` use the last segment exactly as written, while `select` decodes it. `Kvp.LocateLast` states this.
- `replace` and `remove` always return `undefined`, or throw a TypeError when the parent is undefined or null.

## Model

| member | source | states |
|---|---|---|
| JsStrings.IndexFrom | lib/kvp.js:35 | the position found is the first occurrence of the pattern at or after the start, and None means the pattern does not occur there |
| JsStrings.ReplaceFirst | lib/kvp.js:35 | `String.prototype.replace` with a string pattern: the text before the first occurrence, the replacement, then the rest; `ReplaceFirstSpec` states that only that occurrence changes |
| JsStrings.ReplaceFirstSpec | lib/kvp.js:35 | `replace` with a string pattern changes only the first occurrence, and leaves a string without the pattern unchanged |
| JsStrings.Split | lib/kvp.js:27 | `split('/')`: at least one piece and no piece holds '/'; `JoinSplit`, `SplitJoin`, `SplitAppend` and `SplitHead` state that the pieces are exactly the text between the slashes |
| JsStrings.JoinSplit | lib/kvp.js:27 | joining the pieces of `split('/')` with '/' gives the string back |
| JsStrings.SplitJoin | lib/kvp.js:27 | splitting the join of slash-free pieces gives the pieces back |
| JsStrings.SplitAppend | lib/kvp.js:106-107 | appending "/" and a slash-free piece to a string appends exactly one segment, the one `pop` removes |
| JsStrings.SplitHead | lib/kvp.js:27 | the first segment is a prefix of the string, followed by '/' unless it is the whole string |
| JsObjects.Lookup | lib/kvp.js:39-43 | `obj[key]` on an object of the heap: its own property, or nothing when the object has no such key (prototype properties are left out); `Assign` and `Delete` state how it changes |
| JsObjects.InsertKey | lib/kvp.js:82 | adding a new key adds exactly that key, keeps the keys distinct, and keeps array indices first and ascending |
| JsObjects.InsertIndex | lib/kvp.js:104 | an array-index key is placed among the indices in ascending order, adding exactly that key |
| JsObjects.Assign | lib/kvp.js:104 | after `obj[k] = v` the property reads v, and no other property of any object changes; an existing key keeps its place and a new one goes where enumeration order puts it |
| JsObjects.Delete | lib/kvp.js:114 | after `delete obj[k]` the property is gone from the values, the key order is the old order with that one key taken out (the other keys keep their relative order), nothing else changes, and deleting a missing key changes nothing |
| JsObjects.RemoveInsertKey | lib/kvp.js:104-114 | deleting a key that was just added restores the key order exactly |
| JsObjects.RemoveKey | lib/kvp.js:114 | the key order after `delete`: exactly the keys other than the deleted one, no longer than before, and unchanged when the key was absent; `RemoveKeyAppend` and `RemoveKeyOrdered` state that the order is kept |
| JsObjects.RemoveKeyAppend | lib/kvp.js:114 | taking a key out of two joined runs of keys takes it out of each, so the keys left keep their enumeration order |
| JsObjects.RemoveKeyOrdered | lib/kvp.js:114 | removing a key keeps array indices first and ascending |
| JsObjects.IndexLessTotal | lib/kvp.js:65 | two distinct array indices are ordered one way or the other, so the enumeration order is determined |
| JsObjects.IndexLessNumeric | lib/kvp.js:65 | on canonical array indices the for-in order is ascending numeric order: one index comes before another exactly when its value is smaller |
| Pointer.Decode | lib/kvp.js:35 | `key.replace('~1','/').replace('~0','~')`; `DecodeWithoutTilde`, `DecodeNonEmpty` and `DecodeReplacesOnce` state what it does and does not decode |
| Pointer.Step | lib/kvp.js:33-46 | one turn of the `forEach` callback: nothing after `done` or a throw; an empty key sets the cursor to the root; a key read on undefined or null throws; a missing property or a step through a scalar sets `done` and undefined; `EmptySegmentRestarts`, `StopsAtFirstMissing` and `NoLeadingSlashThrows` state these |
| Pointer.Run | lib/kvp.js:33-46 | the `forEach` over all segments in order; `RunAppend`, `RunAfterExit` and `RunPlain` state that it is a left fold which nothing changes once stopped, and that over plain keys it is the descent `Descend` |
| Pointer.Finish | lib/kvp.js:47 | `return r` after the loop: the cursor's value, undefined before any assignment or after `done`, or the TypeError that left the loop |
| Pointer.Select | lib/kvp.js:23-32 | a value that is not of type 'object', or a selector that is neither a string nor an array, gives undefined |
| Pointer.RunAppend | lib/kvp.js:33-46 | the `forEach` over two runs of segments is the `forEach` over the first and then over the second |
| Pointer.RunAfterExit | lib/kvp.js:34 | once `done` is set or an exception has been thrown, no later segment changes the result |
| Pointer.DecodeWithoutTilde | lib/kvp.js:35 | a segment without '~' is used as it is |
| Pointer.DecodeNonEmpty | lib/kvp.js:35-36 | a non-empty segment never decodes to the empty key, so only an empty segment resets the cursor |
| Pointer.DecodeReplacesOnce | lib/kvp.js:35 | "~1~1" decodes to "/~1" and "~0~0" to "~~0": only the first escape of each kind is decoded |
| Pointer.StopsAtFirstMissing | lib/kvp.js:39-41 | once a segment names an undefined property, or a property of a scalar, `select` returns undefined whatever follows |
| Pointer.EmptySegmentRestarts | lib/kvp.js:36-37 | an empty segment sends the cursor back to the root, whatever was read before it |
| Pointer.RootPointers | lib/kvp.js:36-37 | both "" and "/" select the root itself |
| Pointer.NoLeadingSlashThrows | lib/kvp.js:39 | a pointer not starting with '/' makes the first read happen on the still undefined cursor, which throws a TypeError |
| Pointer.SplitPointerOf | lib/kvp.js:27 | the pointer built from a path of slash-free keys splits into "" followed by those keys |
| Pointer.RunPlain | lib/kvp.js:33-46 | from an object, running over plain keys reads them one after the other as the reference descent `Descend` does |
| Pointer.SelectPlainPointer | lib/kvp.js:16-48 | for non-empty keys containing neither '/' nor '~', `select` on "/k1/.../kn" reads k1, ..., kn from the root as RFC 6901 evaluates it |
| Traverse.Marker | lib/kvp.js:66 | `target._xvq_pointer`, or '' when it is unset: the pointer string written into the object when it was queued, or '' for the root; `Resolution.QueuedChild` states that it resolves to the object |
| Traverse.VisitKey | lib/kvp.js:66-84 | one for-in turn: a key deleted before its turn is skipped; otherwise the pointer is the marker plus '/' plus the key, `idx` records it, the callback is called, the value is read again, null throws, a match ends the query after removing the child's marker, and an unmatched object child is marked and queued; `VisitKeySound`, `VisitKeyPresent` and `Resolution.VisitKeyResolves` state this |
| Traverse.VisitKeys | lib/kvp.js:65-85 | the for-in over the keys the object had when it began, ending at the first turn that ends the query; `VisitKeysSound` and `VisitKeysCovers` state this |
| Traverse.VisitTargets | lib/kvp.js:63-86 | the loop over one level, reading each target's keys when its turn comes and collecting `list`; `VisitTargetsSound` and `VisitTargetsCovers` state this |
| Traverse.VisitLevels | lib/kvp.js:61-88 | `traverse(collection, cb)` and its recursive call on `list`, one level per call within a bound on the levels; `VisitLevelsSound` and `Coverage.ExhaustedVisitsReachable` state what it does, and `Kvp.FuelSuffices` that the bound does not matter on an acyclic tree |
| Traverse.RecordAppend | lib/kvp.js:70 | recording the visits of two runs is recording the first run and then the second |
| Traverse.QueuedAppend | lib/kvp.js:83 | the objects queued by two runs are those of the first run followed by those of the second |
| Traverse.RecordOthers | lib/kvp.js:70 | index entries of pointers no visit had are kept, and no entry appears without a visit |
| Traverse.RecordVisited | lib/kvp.js:70 | after a run every visited pointer is in `idx` and names the container and key of its last visit |
| Traverse.VisitKeySound | lib/kvp.js:66-84 | one turn of the for-in either goes on or ends the query, with these effects: the pointer is the marker plus '/' plus the key; the value handed over is the stored one; `idx` records the turn; the result is the value read after the callback, or a TypeError on null; an unmatched object child is queued; no property is lost |
| Traverse.VisitKeysSound | lib/kvp.js:65-85 | the for-in over the keys of one object has those properties for all its turns, and only its last turn may end the query |
| Traverse.VisitTargetsSound | lib/kvp.js:63-86 | the loop over one level has those properties, and the next level is the list of queued children in visit order |
| Traverse.GrowsOutcome | lib/kvp.js:87 | a level that goes on followed by the walk of the levels below is a walk from that level, with visits ordered by depth |
| Traverse.VisitLevelsSound | lib/kvp.js:61-88 | the whole walk records each visit in `idx`; every visit is faithful; the levels come in breadth-first order; an ending result is decided by the last visit (matched value, or TypeError on null) after all earlier visits passed; an exhausted walk matched nothing |
| Traverse.VisitKeyPresent | lib/kvp.js:65-71 | a key still present when its turn comes is visited exactly once, on its container |
| Traverse.VisitKeysCovers | lib/kvp.js:65 | unless the query ends first, the for-in visits every key the object had when the loop began, in enumeration order |
| Traverse.VisitTargetsCovers | lib/kvp.js:63-86 | unless the query ends first, one level visits every key each of its targets had when the level began, on that target |
| Resolution.MarkerWrite | lib/kvp.js:82 | writing a string marker keeps the tree prepared, changes no edge to an object, and changes no other object's marker |
| Resolution.QueuedChild | lib/kvp.js:82-83 | a child marked with its parent's marker plus '/' plus its key resolves from the root through that new marker |
| Resolution.QueueStep | lib/kvp.js:81-84 | marking and queueing a child keeps every object reachable as it was, and every queued object resolvable |
| Resolution.VisitKeyResolves | lib/kvp.js:66-84 | the pointer of a turn resolves through `select` to the value handed to the callback, and queued children carry markers that resolve to them |
| Resolution.VisitKeysResolves | lib/kvp.js:65-85 | every pointer handed over during the for-in over one object resolves to its value |
| Resolution.VisitTargetsResolves | lib/kvp.js:63-86 | every pointer handed over during one level resolves to its value, and the next level's markers resolve |
| Resolution.VisitLevelsResolves | lib/kvp.js:61-88 | every pointer handed over during the walk resolves to its value |
| Resolution.QueryPointersResolve | lib/kvp.js:61-88 | for a callback that only answers, on a tree whose keys are non-empty and free of '/' and '~' and whose root is unmarked, every pointer a query hands over, read by `select` from the root in the store of that moment, gives the value handed over with it |
| Frame.VisitKeyFrame | lib/kvp.js:65-84 | under a callback that only answers, one turn of `for (x in target)` changes no property but the marker `_xvq_pointer`, and that only on the value it handed over (set when queued, deleted when returned) |
| Frame.VisitKeysFrame | lib/kvp.js:65-84 | the key loop over one target changes only markers of objects its visits handed over, and each visit saw a store that differs from the final one only in markers of objects handed over from that visit on |
| Frame.VisitTargetsFrame | lib/kvp.js:63-85 | the same for the target loop over one level |
| Frame.VisitLevelsFrame | lib/kvp.js:61-88 | the same for the whole walk; in particular every property other than `_xvq_pointer` ends as it began, and a marker differs only on an object some visit handed over |
| Frame.QueryIndexReadsBack | lib/kvp.js:94-100 | after a query whose callback only answers, `f.select` on a pointer the query recorded returns the value the callback was given with its last visit (for the marker key itself, provided that object was not handed over again) |
| Resolution.EmptyKeyPointsAtRoot | lib/kvp.js:66-74 | a property with the empty key of an unmarked object is handed over with the pointer "/", which `select` reads as that object itself (lib/kvp.js:36-37), so the pointer does not resolve to the value unless the value is the object |
| Kvp.ReplaceAt | lib/kvp.js:104-108 | assigning on a located property makes it read the value and changes no other property; assigning on a primitive changes nothing |
| Kvp.RemoveAt | lib/kvp.js:114-118 | deleting a located property makes it undefined and changes no other property |
| Kvp.RemoveUndoesReplace | lib/kvp.js:102-120 | `remove` after a `replace` that created a property restores the tree exactly, key order included |
| Kvp.ReplaceIdempotent | lib/kvp.js:102-110 | replacing twice with one value is replacing once |
| Kvp.RemoveIdempotent | lib/kvp.js:112-120 | removing twice is removing once |
| Kvp.Roots | lib/kvp.js:56-57 | the first level `[obj]` of `query`, where the for-in over null finds no keys; `Coverage.ExhaustedVisitsReachable` and `Kvp.QueryFuelSuffices` start from it |
| Kvp.RankedAssign | lib/kvp.js:82 | writing a scalar, such as a marker, keeps the tree acyclic |
| Kvp.RankedDelete | lib/kvp.js:78 | deleting a property keeps the tree acyclic |
| Kvp.VisitKeyRanked | lib/kvp.js:66-84 | on an acyclic tree, with a callback that never stores an object, a turn that goes on keeps the tree acyclic and queues only children ranking below their parent |
| Kvp.VisitKeysRanked | lib/kvp.js:65-85 | the for-in over one object keeps the tree acyclic and queues only objects ranking below it |
| Kvp.VisitTargetsRanked | lib/kvp.js:63-86 | a level that goes on keeps the tree acyclic and queues only objects ranking below the level's bound less one |
| Kvp.FuelSuffices | lib/kvp.js:61-88 | on an acyclic tree, a walk from a level ranking below the bound gives the same result and final state under any larger bound, so the bound never cuts the recursion short |
| Kvp.QueryFuelSuffices | lib/kvp.js:90-92 | from the root, the levels `Kvp.Query` allows give the same outcome as any larger number: the query's result is that of the unbounded `traverse` |
| Kvp.LocateLast | lib/kvp.js:106-108 | for a pointer no query has met, `replace` and `remove` act on the undecoded last segment of what `select` gives for the rest: a property of an object, an ignored primitive, or a TypeError on undefined or null |
| Kvp.Kvp.constructor | lib/kvp.js:50-60 | a value of type 'object' becomes the collection with an empty index; anything else leaves the collection unset |
| Kvp.Kvp.Select | lib/kvp.js:94-100 | a pointer met by a query reads the value now stored under its recorded container and key, and undefined exactly when that property is gone; any other pointer is resolved by `select` from the collection, and throws without one |
| Kvp.Kvp.Locate | lib/kvp.js:103-108 | an indexed pointer acts on its recorded slot; otherwise on the raw last segment of the split pointer |
| Kvp.Kvp.Replace | lib/kvp.js:102-110 | keeps the object's invariant; the tree becomes `ReplaceAt` of the located target, everything else is unchanged, the result is undefined or a TypeError when there is no parent, and `select` of an indexed pointer then gives the value |
| Kvp.Kvp.Remove | lib/kvp.js:112-120 | keeps the object's invariant; the tree becomes `RemoveAt` of the located target, everything else is unchanged, the result is undefined or a TypeError when there is no parent, and `select` of an indexed pointer then gives undefined |
| Kvp.Kvp.VisitProperty | lib/kvp.js:66-84 | one for-in turn, run in place on the heap and index, does what `VisitKey` says and keeps the tree acyclic |
| Kvp.Kvp.VisitTarget | lib/kvp.js:65-85 | the for-in over one object, run in place, does what `VisitKeys` says |
| Kvp.Kvp.Query | lib/kvp.js:61-92 | the query, run in place, returns and leaves behind what `VisitLevels` gives with `Fuel` levels, and what it gives with any larger number of levels, so on an acyclic tree the result is that of the unbounded recursion |
| Coverage.VisitKeyCarries | lib/kvp.js:81-84 | a turn that goes on, with a callback that only answers, keeps the tree well formed and acyclic, cuts no edge to an object, and queues the object it met |
| Coverage.VisitKeysCarries | lib/kvp.js:65-85 | the for-in over one object, if it goes on, queues the object under each of the keys it had |
| Coverage.VisitTargetsCarries | lib/kvp.js:63-86 | one level, if it goes on, queues the object under every key of every target, each of lower rank than its target |
| Coverage.LevelGoesOn | lib/kvp.js:61-88 | a non-empty level of a walk that matches nothing goes on to the recursive call on the queued list, after visiting every key of every target and queueing every object child |
| Coverage.VisitLevelsCovers | lib/kvp.js:61-88 | a walk that matches nothing visits every key of every object reachable from a target of its first level |
| Coverage.ExhaustedVisitsReachable | lib/kvp.js:61-92 | a query from the root that matches nothing has handed every property of every object reachable from the root to the callback |
| Scenarios.SampleRanked | test/index.js:4-15 | the sample object is an acyclic tree |
| Scenarios.SampleTame | test/index.js:4-15 | the sample object is well formed, acyclic and free of `_xvq_pointer`, so the coverage theorem applies to it |
| Scenarios.SampleMissVisitsNested | lib/kvp.js:61-92 | on the sample, a query whose callback matches nothing hands "y" of `aa.aaa`, two levels down, to the callback before it runs out of levels |
| Scenarios.SelectNested | test/index.js:72-75 | `select('/aa/aaa/x')` on the sample is 'ex' |
| Scenarios.SelectArrayElement | test/index.js:76-79 | `select('/d/4')` on the sample is 5 |
| Scenarios.SelectMissing | test/index.js:84-86 | `select('/dummy')` is undefined and does not throw |
| Scenarios.SelectThroughScalar | test/tests.js:20-23 | `select('/a/b/c')` is undefined and does not throw |
| Scenarios.TargetMissingKey | test/tests.js:31-34 | `remove('/aa/aaa/z')` deletes a missing key of an existing object, so it returns undefined |
| Scenarios.TargetBelowScalar | test/tests.js:27-38 | `remove('/a/b/c')` and `replace('/a/b/c')` find no parent, so in lib/kvp.js they throw a TypeError where these tests of a later build expect undefined |
| Scenarios.SampleQueryFirst | test/index.js:39-46 | the query for key 'a' returns 100 |
| Scenarios.SampleQueryReplace | test/index.js:47-55 | the query that replaces "c" with 'doggy' inside its callback returns 'doggy', and leaves it in the tree |
| Scenarios.SampleFacadeQuery | test/index.js:17-46 | `kvp(o).query(...)`, run by the class, returns 100 |

## Left out

- Parsing a JSON string argument (lib/kvp.js:20-22, 53-55) and the module wrapper (lib/kvp.js:3-11) are not modelled: the model starts from a parsed tree. A `Str` value given to `Kvp.Kvp.constructor` or `Pointer.Select` is taken as an already parsed string primitive; the source would first `JSON.parse` it. `console.error` (lib/kvp.js:59) is output only. build.js is not part of this model.
- `Exhausted` stands for a query that finds nothing. The source recurses forever on an empty list there and ends in a stack overflow. The "original object" expectation of test/index.js:65-68 belongs to a later build, as do the `insert`, `getObject`, `getJSON`, `dirname` and `basename` tests and the expectation that `remove('/a/b/c')` and `replace('/a/b/c')` do not throw (test/tests.js:27-38).
- Callbacks are modelled as a pure answer plus an optional `this.replace(node.pointer, v)` on the node being visited. Callbacks that call `query`, `remove` or `replace` on other pointers are not modelled, and neither are callbacks that mutate `node.value` directly (test/index.js:56-64).
- Kvp.Kvp.Query: requires an acyclic heap (`Ranked`) and scalar replacements (`ScalarReplies`). This is how termination is proved. The source accepts any tree. On a cyclic tree a query that matches nothing keeps walking the cycle, and the model cannot state this. A query that matches returns on any tree.
- Resolution.QueryPointersResolve: holds for callbacks that only answer, on trees whose keys are non-empty, contain neither '/' nor '~', and hold no object under `_xvq_pointer`. Replacements inside the callback and keys containing '/' or '~' are not covered. For the empty key the property is false, as `Resolution.EmptyKeyPointsAtRoot` shows.
- Frame.QueryIndexReadsBack: holds for callbacks that only answer; a callback that replaces values may overwrite what a recorded pointer reads. For a visit of the `_xvq_pointer` key it also assumes the object was not handed over again later, which on a tree holds but is not proved.
- Coverage.ExhaustedVisitsReachable: holds for callbacks that only answer, on well-formed acyclic trees with no object under `_xvq_pointer`. A replacing callback changes what is reachable. An object stored under `_xvq_pointer` is overwritten by a marker before its keys are read. Coverage is stated as membership in the trace, not as an exact sequence, because each target's keys are read when its turn comes.
- Traverse.Marker: a non-string `_xvq_pointer` value is read as absent, giving ''. The source does the same for a falsy value (0, false, null) through `|| ''` (lib/kvp.js:66), but concatenates the string conversion of a truthy non-string.
- Property reads through the prototype chain are not modelled. For example, `'abc'[0]`, an array's `length`, or an `idx` lookup of "constructor" give undefined or nothing in the model. Scalars have no properties.
- Pointers given to `select`, `replace` and `remove` are strings, or segment arrays for the internal `select`. Other pointer types, assigning `undefined`, and array holes are not modelled.
- Numbers are mathematical integers: no floating point.
- Keys added to an object while its for-in runs are not visited. A key deleted before its turn is skipped.
