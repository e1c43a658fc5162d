/**
 * The level-by-level walk `traverse(collection, cb)` of lib/kvp.js, as functions
 * over the store. `Kvp.Query` runs the same walk with loops and is proved equal to
 * `VisitLevels`; this module states what the walk does.
 *
 * A walk records every callback call as a `Visit`. The trace is specification
 * only: the source keeps no such list.
 */
module Traverse {
  import opened Wrappers
  import opened JsObjects

  /** The property `traverse` writes into every object it queues. */
  const MARKER := "_xvq_pointer"

  /** The `{key, value, pointer}` object handed to the callback. */
  datatype Node = Node(key: string, value: Value, pointer: string)

  /**
   * What the callback does: whether it returns a truthy value, and the value it
   * assigns with `this.replace(node.pointer, v)` before returning, if it does.
   */
  datatype Reply = Reply(matched: bool, replaceWith: Option<Value>)

  type Callback = Node -> Reply

  /** An entry of `idx`: the container and the key under which a pointer was met. */
  datatype Slot = Slot(node: Ref, key: string)

  type Index = map<string, Slot>

  /**
   * One callback call: the level it happened on, the container and key visited,
   * the pointer built for it, the value handed over, and the store at that moment.
   */
  datatype Visit = Visit(depth: nat, parent: Ref, key: string, pointer: string, value: Value, seen: Store)

  /** The state a walk changes: the store, the closure's `idx`, and the trace so far. */
  datatype Walk = Walk(store: Store, idx: Index, trace: seq<Visit>)

  /**
   * How a query ends: the value of the first matching node, a thrown TypeError,
   * or no match at all. In the source that last case never returns: `traverse`
   * calls itself on an empty list until the stack overflows.
   */
  datatype QueryResult = Found(v: Value) | Exhausted | Threw

  /** A partial walk either continues with the list of queued objects, or has ended the query. */
  datatype Progress = Continue(w: Walk, next: seq<Ref>) | Stop(w: Walk, result: QueryResult)

  /** `target._xvq_pointer || ''`. */
  function Marker(store: Store, t: Ref): string {
    match Lookup(store, t, MARKER)
    case Some(Str(s)) => s
    case _ => ""
  }

  function NodeOf(v: Visit): Node {
    Node(v.key, v.value, v.pointer)
  }

  predicate Matched(cb: Callback, v: Visit) {
    cb(NodeOf(v)).matched
  }

  /** The callback only answers; it never replaces a value. */
  ghost predicate Pure(cb: Callback) {
    forall n :: cb(n).replaceWith.None?
  }

  /** `target[x]` read again after the callback returned. */
  function After(cb: Callback, v: Visit): Value {
    match cb(NodeOf(v)).replaceWith
    case Some(x) => x
    case None => v.value
  }

  /** One turn of `for (x in target)`. */
  function VisitKey(w: Walk, depth: nat, t: Ref, x: string, next: seq<Ref>, cb: Callback): Progress {
    match Lookup(w.store, t, x)
    // for-in does not reach a property deleted before its turn
    case None => Continue(w, next)
    case Some(v) =>
      var p := Marker(w.store, t) + "/" + x;
      var visit := Visit(depth, t, x, p, v, w.store);
      var reply := cb(NodeOf(visit));
      var idx := w.idx[p := Slot(t, x)];
      var trace := w.trace + [visit];
      var store := if reply.replaceWith.Some? then Assign(w.store, t, x, reply.replaceWith.value) else w.store;
      var cur := After(cb, visit);
      if cur.Null? then
        // typeof null === 'object': reading or writing its marker throws
        Stop(Walk(store, idx, trace), Threw)
      else if reply.matched then
        Stop(Walk(if cur.Obj? then Delete(store, cur.ref, MARKER) else store, idx, trace), Found(cur))
      else if cur.Obj? then
        Continue(Walk(Assign(store, cur.ref, MARKER, Str(p)), idx, trace), next + [cur.ref])
      else
        Continue(Walk(store, idx, trace), next)
  }

  /** The whole `for (x in target)` over the keys `target` had when the loop began. */
  function VisitKeys(w: Walk, depth: nat, t: Ref, keys: seq<string>, next: seq<Ref>, cb: Callback): Progress
    decreases |keys|
  {
    if keys == [] then Continue(w, next)
    else
      match VisitKey(w, depth, t, keys[0], next, cb)
      case Stop(w', r) => Stop(w', r)
      case Continue(w', n') => VisitKeys(w', depth, t, keys[1..], n', cb)
  }

  function KeysOf(store: Store, t: Ref): seq<string> {
    if t in store then store[t].keys else []
  }

  /** The loop over the targets of one level, collecting the next level in `next`. */
  function VisitTargets(w: Walk, depth: nat, level: seq<Ref>, next: seq<Ref>, cb: Callback): Progress
    decreases |level|
  {
    if level == [] then Continue(w, next)
    else
      match VisitKeys(w, depth, level[0], KeysOf(w.store, level[0]), next, cb)
      case Stop(w', r) => Stop(w', r)
      case Continue(w', n') => VisitTargets(w', depth, level[1..], n', cb)
  }

  /**
   * `traverse(level, cb)` and its recursive calls on the next levels. `fuel`
   * bounds the number of levels; `Kvp.FuelSuffices` shows that on an acyclic
   * store the height of the root is enough, so the bound is never what ends a
   * walk there.
   */
  function VisitLevels(w: Walk, depth: nat, level: seq<Ref>, cb: Callback, fuel: nat): (QueryResult, Walk)
    decreases fuel
  {
    if level == [] || fuel == 0 then (Exhausted, w)
    else
      match VisitTargets(w, depth, level, [], cb)
      case Stop(w', r) => (r, w')
      case Continue(w', n') => VisitLevels(w', depth + 1, n', cb, fuel - 1)
  }

  /** What is left of one level once the current target is done: the remaining targets. */
  function AfterTarget(p: Progress, depth: nat, rest: seq<Ref>, cb: Callback): Progress {
    match p
    case Stop(_, _) => p
    case Continue(w, next) => VisitTargets(w, depth, rest, next, cb)
  }

  /** What is left of the query once a level is done: the levels below it. */
  function Resume(p: Progress, depth: nat, cb: Callback, fuel: nat): (QueryResult, Walk) {
    match p
    case Stop(w, r) => (r, w)
    case Continue(w, next) => VisitLevels(w, depth + 1, next, cb, fuel)
  }

  // ---------------------------------------------------------------------------
  // Bookkeeping over a sequence of visits.
  // ---------------------------------------------------------------------------

  /** `idx[pointer] = {node, key}` for each visit in turn. */
  function Record(idx: Index, vs: seq<Visit>): Index
    decreases |vs|
  {
    if vs == [] then idx
    else Record(idx[vs[0].pointer := Slot(vs[0].parent, vs[0].key)], vs[1..])
  }

  /** The objects `list.push` receives: the object-typed values of the visits that did not match. */
  function Queued(cb: Callback, vs: seq<Visit>): seq<Ref>
    decreases |vs|
  {
    if vs == [] then []
    else
      var v := vs[0];
      (if !Matched(cb, v) && After(cb, v).Obj? then [After(cb, v).ref] else []) + Queued(cb, vs[1..])
  }

  lemma {:induction false} RecordAppend(idx: Index, a: seq<Visit>, b: seq<Visit>)
    ensures Record(idx, a + b) == Record(Record(idx, a), b)
    decreases |a|
  {
    if a == [] {
      assert a + b == b;
    } else {
      assert (a + b)[0] == a[0] && (a + b)[1..] == a[1..] + b;
      RecordAppend(idx[a[0].pointer := Slot(a[0].parent, a[0].key)], a[1..], b);
    }
  }

  lemma {:induction false} QueuedAppend(cb: Callback, a: seq<Visit>, b: seq<Visit>)
    ensures Queued(cb, a + b) == Queued(cb, a) + Queued(cb, b)
    decreases |a|
  {
    if a == [] {
      assert a + b == b;
    } else {
      assert (a + b)[0] == a[0] && (a + b)[1..] == a[1..] + b;
      QueuedAppend(cb, a[1..], b);
    }
  }

  /** No later visit than the `i`-th has the same pointer. */
  predicate LastWith(vs: seq<Visit>, i: nat)
    requires i < |vs|
  {
    forall j :: i < j < |vs| ==> vs[j].pointer != vs[i].pointer
  }

  predicate Unvisited(vs: seq<Visit>, p: string) {
    forall i :: 0 <= i < |vs| ==> vs[i].pointer != p
  }

  /** Entries of pointers no visit had are kept, and no other entry appears. */
  lemma {:induction false} RecordOthers(idx: Index, vs: seq<Visit>)
    ensures forall p :: p in idx ==> p in Record(idx, vs)
    ensures forall p :: p in idx && Unvisited(vs, p) ==> Record(idx, vs)[p] == idx[p]
    ensures forall p :: p in Record(idx, vs) ==> p in idx || !Unvisited(vs, p)
    decreases |vs|
  {
    if vs != [] {
      var idx' := idx[vs[0].pointer := Slot(vs[0].parent, vs[0].key)];
      var rest := vs[1..];
      RecordOthers(idx', rest);
      forall p | p in idx && Unvisited(vs, p) ensures p in Record(idx, vs) && Record(idx, vs)[p] == idx[p] {
        forall j | 0 <= j < |rest| ensures rest[j].pointer != p {
          assert rest[j] == vs[j + 1];
        }
      }
      forall p | p in Record(idx, vs) ensures p in idx || !Unvisited(vs, p) {
        if !Unvisited(rest, p) {
          var j :| 0 <= j < |rest| && rest[j].pointer == p;
          assert vs[j + 1].pointer == p;
        } else if p !in idx {
          assert vs[0].pointer == p;
        }
      }
    }
  }

  /**
   * After `Record`, every visited pointer is in the index and names the slot of
   * the last visit that had that pointer.
   */
  lemma {:induction false} RecordVisited(idx: Index, vs: seq<Visit>)
    ensures forall i :: 0 <= i < |vs| ==> vs[i].pointer in Record(idx, vs)
    ensures forall i :: 0 <= i < |vs| && LastWith(vs, i) ==>
      Record(idx, vs)[vs[i].pointer] == Slot(vs[i].parent, vs[i].key)
    decreases |vs|
  {
    if vs != [] {
      var idx' := idx[vs[0].pointer := Slot(vs[0].parent, vs[0].key)];
      var rest := vs[1..];
      RecordVisited(idx', rest);
      RecordOthers(idx', rest);
      forall i | 0 < i < |vs| ensures vs[i].pointer in Record(idx, vs) {
        assert rest[i - 1] == vs[i];
      }
      forall i | 0 <= i < |vs| && LastWith(vs, i)
        ensures vs[i].pointer in Record(idx, vs) && Record(idx, vs)[vs[i].pointer] == Slot(vs[i].parent, vs[i].key)
      {
        if i > 0 {
          assert rest[i - 1] == vs[i];
          forall j | i - 1 < j < |rest| ensures rest[j].pointer != rest[i - 1].pointer {
            assert rest[j] == vs[j + 1];
          }
          assert LastWith(rest, i - 1);
        } else {
          forall j | 0 <= j < |rest| ensures rest[j].pointer != vs[0].pointer {
            assert rest[j] == vs[j + 1];
          }
          assert Unvisited(rest, vs[0].pointer);
        }
      }
    }
  }

  // ---------------------------------------------------------------------------
  // What a partial walk does.
  // ---------------------------------------------------------------------------

  /** The visits a walk added. */
  function NewVisits(w: Walk, w': Walk): seq<Visit>
    requires |w.trace| <= |w'.trace|
  {
    w'.trace[|w.trace|..]
  }

  predicate Prefix(w: Walk, w': Walk) {
    |w.trace| <= |w'.trace| && w'.trace[..|w.trace|] == w.trace
  }

  /** The callback got the value stored under the key, and the pointer its parent's marker plus '/' and the key. */
  predicate Faithful(v: Visit) {
    Lookup(v.seen, v.parent, v.key) == Some(v.value) &&
    v.pointer == Marker(v.seen, v.parent) + "/" + v.key
  }

  predicate AllFaithful(vs: seq<Visit>) {
    forall i :: 0 <= i < |vs| ==> Faithful(vs[i])
  }

  predicate AllAt(depth: nat, vs: seq<Visit>) {
    forall i :: 0 <= i < |vs| ==> vs[i].depth == depth
  }

  /** None of these visits ended the query. */
  predicate AllPass(cb: Callback, vs: seq<Visit>) {
    forall i :: 0 <= i < |vs| ==> !Matched(cb, vs[i]) && !After(cb, vs[i]).Null?
  }

  /** None of the first `n` visits ended the query. */
  predicate PassBefore(cb: Callback, vs: seq<Visit>, n: int) {
    forall i :: 0 <= i < n && i < |vs| ==> !Matched(cb, vs[i]) && !After(cb, vs[i]).Null?
  }

  /** The query result a visit decides: a thrown TypeError on null, else the matched value. */
  predicate Decides(cb: Callback, v: Visit, r: QueryResult) {
    if After(cb, v).Null? then r == Threw else Matched(cb, v) && r == Found(After(cb, v))
  }

  /** No property present before is missing afterwards. */
  ghost predicate Keeps(s: Store, s': Store) {
    forall r, k :: Lookup(s, r, k).Some? ==> Lookup(s', r, k).Some?
  }

  /** A walk on level `depth` that goes on. */
  ghost predicate Grows(w: Walk, next: seq<Ref>, w': Walk, next': seq<Ref>, depth: nat, cb: Callback) {
    Prefix(w, w') &&
    var vs := NewVisits(w, w');
    w'.idx == Record(w.idx, vs) &&
    next' == next + Queued(cb, vs) &&
    Keeps(w.store, w'.store) &&
    AllAt(depth, vs) && AllFaithful(vs) && AllPass(cb, vs)
  }

  /** A walk on level `depth` that ended the query with `r`, decided by its last visit. */
  ghost predicate Ends(w: Walk, w': Walk, depth: nat, cb: Callback, r: QueryResult) {
    Prefix(w, w') && |w.trace| < |w'.trace| &&
    var vs := NewVisits(w, w');
    w'.idx == Record(w.idx, vs) &&
    AllAt(depth, vs) && AllFaithful(vs) &&
    PassBefore(cb, vs, |vs| - 1) && Decides(cb, vs[|vs| - 1], r)
  }

  ghost predicate Sound(w: Walk, next: seq<Ref>, p: Progress, depth: nat, cb: Callback) {
    match p
    case Continue(w', n') => Grows(w, next, w', n', depth, cb)
    case Stop(w', r) => Ends(w, w', depth, cb, r)
  }

  lemma PrefixTrans(w: Walk, w1: Walk, w2: Walk)
    requires Prefix(w, w1) && Prefix(w1, w2)
    ensures Prefix(w, w2)
    ensures NewVisits(w, w2) == NewVisits(w, w1) + NewVisits(w1, w2)
  {
    assert w2.trace[..|w.trace|] == w2.trace[..|w1.trace|][..|w.trace|];
    assert w2.trace[|w.trace|..] == w2.trace[|w.trace|..|w1.trace|] + w2.trace[|w1.trace|..];
    assert w2.trace[|w.trace|..|w1.trace|] == w1.trace[|w.trace|..];
  }

  lemma AllConcat(depth: nat, cb: Callback, a: seq<Visit>, b: seq<Visit>)
    requires AllAt(depth, a) && AllAt(depth, b) && AllFaithful(a) && AllFaithful(b) && AllPass(cb, a)
    ensures AllAt(depth, a + b) && AllFaithful(a + b)
    ensures AllPass(cb, b) ==> AllPass(cb, a + b)
    ensures PassBefore(cb, b, |b| - 1) ==> PassBefore(cb, a + b, |a + b| - 1)
  {
  }

  lemma LastOfConcat(a: seq<Visit>, b: seq<Visit>)
    requires |b| > 0
    ensures (a + b)[|a + b| - 1] == b[|b| - 1]
  {
  }

  lemma KeepsTrans(s: Store, s1: Store, s2: Store)
    requires Keeps(s, s1) && Keeps(s1, s2)
    ensures Keeps(s, s2)
  {
  }

  lemma GrowsGrows(w: Walk, next: seq<Ref>, w1: Walk, n1: seq<Ref>, w2: Walk, n2: seq<Ref>, depth: nat, cb: Callback)
    requires Grows(w, next, w1, n1, depth, cb)
    requires Grows(w1, n1, w2, n2, depth, cb)
    ensures Grows(w, next, w2, n2, depth, cb)
  {
    var a := NewVisits(w, w1);
    var b := NewVisits(w1, w2);
    PrefixTrans(w, w1, w2);
    RecordAppend(w.idx, a, b);
    AllConcat(depth, cb, a, b);
    QueuedAppend(cb, a, b);
    KeepsTrans(w.store, w1.store, w2.store);
  }

  lemma GrowsEnds(w: Walk, next: seq<Ref>, w1: Walk, n1: seq<Ref>, w2: Walk, depth: nat, cb: Callback, r: QueryResult)
    requires Grows(w, next, w1, n1, depth, cb)
    requires Ends(w1, w2, depth, cb, r)
    ensures Ends(w, w2, depth, cb, r)
  {
    var a := NewVisits(w, w1);
    var b := NewVisits(w1, w2);
    PrefixTrans(w, w1, w2);
    RecordAppend(w.idx, a, b);
    AllConcat(depth, cb, a, b);
    LastOfConcat(a, b);
  }

  lemma GrowsThen(w: Walk, next: seq<Ref>, w1: Walk, n1: seq<Ref>, p: Progress, depth: nat, cb: Callback)
    requires Grows(w, next, w1, n1, depth, cb)
    requires Sound(w1, n1, p, depth, cb)
    ensures Sound(w, next, p, depth, cb)
  {
    match p
    case Continue(w2, n2) => GrowsGrows(w, next, w1, n1, w2, n2, depth, cb);
    case Stop(w2, r) => GrowsEnds(w, next, w1, n1, w2, depth, cb, r);
  }

  /** One turn of the key loop. */
  lemma VisitKeySound(w: Walk, depth: nat, t: Ref, x: string, next: seq<Ref>, cb: Callback)
    ensures Sound(w, next, VisitKey(w, depth, t, x, next, cb), depth, cb)
  {
    match Lookup(w.store, t, x)
    case None =>
      assert NewVisits(w, w) == [];
    case Some(v) =>
      var p := VisitKey(w, depth, t, x, next, cb);
      var visit := Visit(depth, t, x, Marker(w.store, t) + "/" + x, v, w.store);
      assert NewVisits(w, p.w) == [visit];
      assert Record(w.idx, [visit]) == Record(w.idx[visit.pointer := Slot(t, x)], []);
      if p.Continue? {
        assert Queued(cb, [visit][1..]) == [];
      } else {
        assert [visit][..0] == [];
      }
  }

  /** The key loop over one target. */
  lemma {:induction false} VisitKeysSound(w: Walk, depth: nat, t: Ref, keys: seq<string>, next: seq<Ref>, cb: Callback)
    ensures Sound(w, next, VisitKeys(w, depth, t, keys, next, cb), depth, cb)
    decreases |keys|
  {
    if keys == [] {
      assert NewVisits(w, w) == [];
    } else {
      VisitKeySound(w, depth, t, keys[0], next, cb);
      match VisitKey(w, depth, t, keys[0], next, cb)
      case Stop(w', r) =>
      case Continue(w', n') =>
        VisitKeysSound(w', depth, t, keys[1..], n', cb);
        GrowsThen(w, next, w', n', VisitKeys(w', depth, t, keys[1..], n', cb), depth, cb);
    }
  }

  /** The target loop over one level. */
  lemma {:induction false} VisitTargetsSound(w: Walk, depth: nat, level: seq<Ref>, next: seq<Ref>, cb: Callback)
    ensures Sound(w, next, VisitTargets(w, depth, level, next, cb), depth, cb)
    decreases |level|
  {
    if level == [] {
      assert NewVisits(w, w) == [];
    } else {
      VisitKeysSound(w, depth, level[0], KeysOf(w.store, level[0]), next, cb);
      match VisitKeys(w, depth, level[0], KeysOf(w.store, level[0]), next, cb)
      case Stop(w', r) =>
      case Continue(w', n') =>
        VisitTargetsSound(w', depth, level[1..], n', cb);
        GrowsThen(w, next, w', n', VisitTargets(w', depth, level[1..], n', cb), depth, cb);
    }
  }

  // ---------------------------------------------------------------------------
  // What a whole walk does.
  // ---------------------------------------------------------------------------

  predicate AllFrom(depth: nat, vs: seq<Visit>) {
    forall i :: 0 <= i < |vs| ==> vs[i].depth >= depth
  }

  /** Breadth first: no visit is on a shallower level than one before it. */
  predicate DepthOrdered(vs: seq<Visit>) {
    forall i, j :: 0 <= i < j < |vs| ==> vs[i].depth <= vs[j].depth
  }

  /**
   * What the walk from level `depth` on did: it recorded each visit in the index,
   * every visit was faithful, levels came in order, and the result is decided by
   * the last visit, every earlier one having neither matched nor met null. When
   * no visit decided anything, the result is Exhausted.
   */
  ghost predicate Outcome(w: Walk, w': Walk, depth: nat, cb: Callback, r: QueryResult) {
    Prefix(w, w') &&
    var vs := NewVisits(w, w');
    w'.idx == Record(w.idx, vs) &&
    AllFaithful(vs) && AllFrom(depth, vs) && DepthOrdered(vs) &&
    (r.Exhausted? ==> AllPass(cb, vs)) &&
    (!r.Exhausted? ==> |vs| > 0 && PassBefore(cb, vs, |vs| - 1) && Decides(cb, vs[|vs| - 1], r))
  }

  lemma EndsOutcome(w: Walk, w': Walk, depth: nat, cb: Callback, r: QueryResult)
    requires Ends(w, w', depth, cb, r)
    ensures Outcome(w, w', depth, cb, r)
  {
    var vs := NewVisits(w, w');
    assert !r.Exhausted? by {
      if After(cb, vs[|vs| - 1]).Null? {
        assert r == Threw;
      } else {
        assert r.Found?;
      }
    }
  }

  lemma ConcatOrdered(depth: nat, cb: Callback, a: seq<Visit>, b: seq<Visit>)
    requires AllAt(depth, a) && AllFrom(depth + 1, b) && DepthOrdered(b)
    ensures AllFrom(depth, a + b) && DepthOrdered(a + b)
  {
    forall i, j | 0 <= i < j < |a + b| ensures (a + b)[i].depth <= (a + b)[j].depth {
      if j < |a| {
        assert (a + b)[i] == a[i] && (a + b)[j] == a[j];
      } else if i < |a| {
        assert (a + b)[i] == a[i] && (a + b)[j] == b[j - |a|];
      } else {
        assert (a + b)[i] == b[i - |a|] && (a + b)[j] == b[j - |a|];
      }
    }
  }

  lemma GrowsOutcome(w: Walk, w1: Walk, n1: seq<Ref>, w2: Walk, depth: nat, cb: Callback, r: QueryResult)
    requires Grows(w, [], w1, n1, depth, cb)
    requires Outcome(w1, w2, depth + 1, cb, r)
    ensures Outcome(w, w2, depth, cb, r)
  {
    var a := NewVisits(w, w1);
    var b := NewVisits(w1, w2);
    PrefixTrans(w, w1, w2);
    RecordAppend(w.idx, a, b);
    ConcatOrdered(depth, cb, a, b);
    PassConcat(cb, a, b);
    if !r.Exhausted? {
      LastOfConcat(a, b);
    }
  }

  lemma PassConcat(cb: Callback, a: seq<Visit>, b: seq<Visit>)
    requires AllFaithful(a) && AllFaithful(b) && AllPass(cb, a)
    ensures AllFaithful(a + b)
    ensures AllPass(cb, b) ==> AllPass(cb, a + b)
    ensures PassBefore(cb, b, |b| - 1) ==> PassBefore(cb, a + b, |a + b| - 1)
  {
  }

  /** The walk from one level down to the last: `traverse(level, cb)`. */
  lemma {:induction false} VisitLevelsSound(w: Walk, depth: nat, level: seq<Ref>, cb: Callback, fuel: nat)
    ensures Outcome(w, VisitLevels(w, depth, level, cb, fuel).1, depth, cb, VisitLevels(w, depth, level, cb, fuel).0)
    decreases fuel
  {
    if level == [] || fuel == 0 {
      assert NewVisits(w, w) == [];
    } else {
      VisitTargetsSound(w, depth, level, [], cb);
      match VisitTargets(w, depth, level, [], cb)
      case Stop(w', r) =>
        EndsOutcome(w, w', depth, cb, r);
      case Continue(w', n') =>
        VisitLevelsSound(w', depth + 1, n', cb, fuel - 1);
        var (r, w'') := VisitLevels(w', depth + 1, n', cb, fuel - 1);
        GrowsOutcome(w, w', n', w'', depth, cb, r);
    }
  }

  /** The visits are one per key of `keys`, in that order, all on container `t`. */
  predicate VisitsOf(vs: seq<Visit>, t: Ref, keys: seq<string>) {
    |vs| == |keys| && forall i :: 0 <= i < |vs| ==> vs[i].parent == t && vs[i].key == keys[i]
  }

  lemma VisitsOfCons(v: Visit, vs: seq<Visit>, t: Ref, keys: seq<string>)
    requires |keys| > 0 && v.parent == t && v.key == keys[0] && VisitsOf(vs, t, keys[1..])
    ensures VisitsOf([v] + vs, t, keys)
  {
    forall i | 0 < i < |keys| ensures ([v] + vs)[i].key == keys[i] {
      assert ([v] + vs)[i] == vs[i - 1] && keys[1..][i - 1] == keys[i];
    }
  }

  /** A key that is present is visited: the trace grows by exactly one visit, on that key. */
  lemma VisitKeyPresent(w: Walk, depth: nat, t: Ref, x: string, next: seq<Ref>, cb: Callback)
    requires Lookup(w.store, t, x).Some?
    ensures var w' := VisitKey(w, depth, t, x, next, cb).w;
      Prefix(w, w') && |NewVisits(w, w')| == 1 && NewVisits(w, w')[0].parent == t && NewVisits(w, w')[0].key == x
  {
  }

  /**
   * `for (x in target)` reaches every key it started with, in enumeration order,
   * unless the query ends first: the callback only replaces values, so no key is
   * removed before its turn.
   */
  lemma {:induction false} VisitKeysCovers(w: Walk, depth: nat, t: Ref, keys: seq<string>, next: seq<Ref>, cb: Callback)
    requires forall i :: 0 <= i < |keys| ==> Lookup(w.store, t, keys[i]).Some?
    ensures var p := VisitKeys(w, depth, t, keys, next, cb);
      p.Continue? ==> Prefix(w, p.w) && VisitsOf(NewVisits(w, p.w), t, keys)
    decreases |keys|
  {
    if keys == [] {
      assert NewVisits(w, w) == [];
    } else {
      VisitKeySound(w, depth, t, keys[0], next, cb);
      VisitKeyPresent(w, depth, t, keys[0], next, cb);
      match VisitKey(w, depth, t, keys[0], next, cb)
      case Stop(_, _) =>
      case Continue(w', n') =>
        forall i | 0 <= i < |keys[1..]| ensures Lookup(w'.store, t, keys[1..][i]).Some? {
          assert keys[1..][i] == keys[i + 1];
        }
        VisitKeysCovers(w', depth, t, keys[1..], n', cb);
        var p := VisitKeys(w', depth, t, keys[1..], n', cb);
        if p.Continue? {
          PrefixTrans(w, w', p.w);
          var v := NewVisits(w, w')[0];
          assert NewVisits(w, w') == [v];
          VisitsOfCons(v, NewVisits(w', p.w), t, keys);
        }
    }
  }

  /** Every container lists exactly the keys it has values for, once each. */
  ghost predicate AllWellFormed(store: Store) {
    forall r :: r in store ==> WellFormed(store[r])
  }

  /** Some visit was on key `k` of container `t`. */
  predicate Visited(vs: seq<Visit>, t: Ref, k: string) {
    exists j :: 0 <= j < |vs| && vs[j].parent == t && vs[j].key == k
  }

  lemma VisitedConcat(a: seq<Visit>, b: seq<Visit>, t: Ref, k: string)
    requires Visited(a, t, k) || Visited(b, t, k)
    ensures Visited(a + b, t, k)
  {
    if Visited(a, t, k) {
      var j :| 0 <= j < |a| && a[j].parent == t && a[j].key == k;
      assert (a + b)[j] == a[j];
    } else {
      var j :| 0 <= j < |b| && b[j].parent == t && b[j].key == k;
      assert (a + b)[|a| + j] == b[j];
    }
  }

  /** On well-formed stores, a key listed before is still listed once no property was lost. */
  lemma KeysKept(s: Store, s': Store, t: Ref, k: string)
    requires AllWellFormed(s) && AllWellFormed(s') && Keeps(s, s')
    requires k in KeysOf(s, t)
    ensures k in KeysOf(s', t)
  {
    assert Lookup(s, t, k).Some?;
    assert Lookup(s', t, k).Some?;
  }

  /** Assignments and deletions keep every container well formed. */
  lemma VisitKeyWellFormed(w: Walk, depth: nat, t: Ref, x: string, next: seq<Ref>, cb: Callback)
    requires AllWellFormed(w.store)
    ensures AllWellFormed(VisitKey(w, depth, t, x, next, cb).w.store)
  {
    if Lookup(w.store, t, x).Some? {
      var v := Lookup(w.store, t, x).value;
      var visit := Visit(depth, t, x, Marker(w.store, t) + "/" + x, v, w.store);
      var reply := cb(NodeOf(visit));
      var store := if reply.replaceWith.Some? then Assign(w.store, t, x, reply.replaceWith.value) else w.store;
      assert AllWellFormed(store);
    }
  }

  lemma {:induction false} VisitKeysWellFormed(w: Walk, depth: nat, t: Ref, keys: seq<string>, next: seq<Ref>, cb: Callback)
    requires AllWellFormed(w.store)
    ensures AllWellFormed(VisitKeys(w, depth, t, keys, next, cb).w.store)
    decreases |keys|
  {
    if keys != [] {
      VisitKeyWellFormed(w, depth, t, keys[0], next, cb);
      match VisitKey(w, depth, t, keys[0], next, cb)
      case Stop(_, _) =>
      case Continue(w', n') => VisitKeysWellFormed(w', depth, t, keys[1..], n', cb);
    }
  }

  /**
   * One level reaches every key each of its targets had when the level began,
   * unless the query ends first: a key is only ever added or overwritten before
   * its target's turn, never removed.
   */
  lemma {:induction false} VisitTargetsCovers(w: Walk, depth: nat, level: seq<Ref>, next: seq<Ref>, cb: Callback)
    requires AllWellFormed(w.store)
    ensures var p := VisitTargets(w, depth, level, next, cb);
      p.Continue? ==> (Prefix(w, p.w) && AllWellFormed(p.w.store) &&
        forall i, k :: 0 <= i < |level| && k in KeysOf(w.store, level[i]) ==> Visited(NewVisits(w, p.w), level[i], k))
    decreases |level|
  {
    if level == [] {
      assert NewVisits(w, w) == [];
    } else {
      var t := level[0];
      var keys := KeysOf(w.store, t);
      VisitKeysCovers(w, depth, t, keys, next, cb);
      VisitKeysWellFormed(w, depth, t, keys, next, cb);
      VisitKeysSound(w, depth, t, keys, next, cb);
      match VisitKeys(w, depth, t, keys, next, cb)
      case Stop(_, _) =>
      case Continue(w1, n1) =>
        VisitTargetsCovers(w1, depth, level[1..], n1, cb);
        var p := VisitTargets(w1, depth, level[1..], n1, cb);
        if p.Continue? {
          PrefixTrans(w, w1, p.w);
          var a, b := NewVisits(w, w1), NewVisits(w1, p.w);
          forall i, k | 0 <= i < |level| && k in KeysOf(w.store, level[i])
            ensures Visited(NewVisits(w, p.w), level[i], k)
          {
            if i == 0 {
              var m :| 0 <= m < |keys| && keys[m] == k;
              assert a[m].parent == t && a[m].key == k;
            } else {
              assert level[1..][i - 1] == level[i];
              KeysKept(w.store, w1.store, level[i], k);
            }
            VisitedConcat(a, b, level[i], k);
          }
        }
    }
  }
}
