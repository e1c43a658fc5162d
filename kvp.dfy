/**
 * The object `kvp(obj)` returns (lib/kvp.js:50-123): the closure state
 * `collection` and `idx`, the heap holding the tree it was built on, and the
 * methods `query`, `select`, `replace` and `remove`.
 */
module Kvp {
  import opened Wrappers
  import opened JsObjects
  import opened JsStrings
  import opened Pointer
  import opened Traverse

  /** What `replace` or `remove` acts on: a property of an object, a primitive, or nothing it can reach. */
  datatype Target = Property(node: Ref, key: string) | Primitive | Invalid

  /** `parent[key] = value` on a located target; assigning on a primitive is silently ignored. */
  function ReplaceAt(store: Store, target: Target, value: Value): (s: Store)
    ensures s.Keys == store.Keys
    ensures target.Property? && target.node in store ==> Lookup(s, target.node, target.key) == Some(value)
    ensures forall r, k :: (target.Property? ==> r != target.node || k != target.key) ==>
      Lookup(s, r, k) == Lookup(store, r, k)
  {
    if target.Property? then Assign(store, target.node, target.key, value) else store
  }

  /** `delete parent[key]` on a located target; deleting on a primitive does nothing. */
  function RemoveAt(store: Store, target: Target): (s: Store)
    ensures s.Keys == store.Keys
    ensures target.Property? ==> Lookup(s, target.node, target.key) == None
    ensures forall r, k :: (target.Property? ==> r != target.node || k != target.key) ==>
      Lookup(s, r, k) == Lookup(store, r, k)
  {
    if target.Property? then Delete(store, target.node, target.key) else store
  }

  /** Removing a property that a replace has just created gives back the store as it was. */
  lemma RemoveUndoesReplace(store: Store, target: Target, value: Value)
    requires target.Property? && target.node in store && WellFormed(store[target.node])
    requires Lookup(store, target.node, target.key) == None
    ensures RemoveAt(ReplaceAt(store, target, value), target) == store
  {
    var c := store[target.node];
    var k := target.key;
    assert k !in c.vals && k !in c.keys;
    RemoveInsertKey(c.keys, k);
    assert c.vals[k := value] - {k} == c.vals;
  }

  /** Replacing twice with one value is replacing once. */
  lemma ReplaceIdempotent(store: Store, target: Target, value: Value)
    ensures ReplaceAt(ReplaceAt(store, target, value), target, value) == ReplaceAt(store, target, value)
  {
    if target.Property? && target.node in store {
      var s := ReplaceAt(store, target, value);
      var c := s[target.node];
      assert target.key in c.keys;
      assert c.vals[target.key := value] == c.vals;
    }
  }

  /** Removing twice is removing once. */
  lemma RemoveIdempotent(store: Store, target: Target)
    requires target.Property? ==> target.node !in store || NoDup(store[target.node].keys)
    ensures RemoveAt(RemoveAt(store, target), target) == RemoveAt(store, target)
  {
    if target.Property? && target.node in store {
      var s := RemoveAt(store, target);
      var c := s[target.node];
      assert target.key !in c.keys;
      assert c.vals - {target.key} == c.vals;
    }
  }

  /** Every edge between objects goes to a strictly lower rank: the tree is acyclic. */
  ghost predicate Ranked(store: Store, rank: map<Ref, nat>) {
    (forall r :: r in store ==> r in rank) &&
    forall r, k :: Lookup(store, r, k).Some? && Lookup(store, r, k).value.Obj? ==>
      r in rank && Lookup(store, r, k).value.ref in rank && rank[Lookup(store, r, k).value.ref] < rank[r]
  }

  /** The callback never puts an object into the tree, so it cannot create a cycle. */
  ghost predicate ScalarReplies(cb: Callback) {
    forall n :: cb(n).replaceWith.Some? ==> !cb(n).replaceWith.value.Obj?
  }

  /** The first level of the walk: `[obj]`, where `for (x in null)` finds no keys. */
  function Roots(collection: Option<Value>): seq<Ref> {
    if collection.Some? && collection.value.Obj? then [collection.value.ref] else []
  }

  /** Enough levels for an acyclic tree: one more than the rank of the root. */
  function Fuel(rank: map<Ref, nat>, collection: Option<Value>): nat {
    if collection.Some? && collection.value.Obj? && collection.value.ref in rank then rank[collection.value.ref] + 1 else 0
  }

  lemma RankedAssign(store: Store, rank: map<Ref, nat>, r: Ref, k: string, v: Value)
    requires Ranked(store, rank) && !v.Obj?
    ensures Ranked(Assign(store, r, k, v), rank)
  {
    var s := Assign(store, r, k, v);
    forall r', k' | Lookup(s, r', k').Some? && Lookup(s, r', k').value.Obj?
      ensures r' in rank && Lookup(s, r', k').value.ref in rank && rank[Lookup(s, r', k').value.ref] < rank[r']
    {
      assert Lookup(s, r', k') == Lookup(store, r', k');
    }
  }

  lemma RankedDelete(store: Store, rank: map<Ref, nat>, r: Ref, k: string)
    requires Ranked(store, rank)
    ensures Ranked(Delete(store, r, k), rank)
  {
    var s := Delete(store, r, k);
    forall r', k' | Lookup(s, r', k').Some? && Lookup(s, r', k').value.Obj?
      ensures r' in rank && Lookup(s, r', k').value.ref in rank && rank[Lookup(s, r', k').value.ref] < rank[r']
    {
      assert Lookup(s, r', k') == Lookup(store, r', k');
    }
  }

  /** Every listed object has a rank below `b`. */
  predicate Below(rank: map<Ref, nat>, refs: seq<Ref>, b: int) {
    forall i :: 0 <= i < |refs| ==> refs[i] in rank && rank[refs[i]] < b
  }

  /**
   * One turn on an acyclic tree, with a callback that never stores an object,
   * keeps the tree acyclic and queues only the object under `x`, which ranks
   * below `t`.
   */
  lemma VisitKeyRanked(w: Walk, depth: nat, t: Ref, x: string, next: seq<Ref>, cb: Callback, rank: map<Ref, nat>, b: int)
    requires Ranked(w.store, rank) && ScalarReplies(cb) && t in rank && rank[t] < b && Below(rank, next, b - 1)
    ensures var p := VisitKey(w, depth, t, x, next, cb);
      p.Continue? ==> Ranked(p.w.store, rank) && Below(rank, p.next, b - 1)
  {
    match Lookup(w.store, t, x)
    case None =>
    case Some(v) =>
      var visit := Visit(depth, t, x, Marker(w.store, t) + "/" + x, v, w.store);
      var reply := cb(NodeOf(visit));
      var store := if reply.replaceWith.Some? then Assign(w.store, t, x, reply.replaceWith.value) else w.store;
      if reply.replaceWith.Some? {
        RankedAssign(w.store, rank, t, x, reply.replaceWith.value);
      }
      var cur := After(cb, visit);
      if cur.Obj? && !reply.matched {
        assert Lookup(w.store, t, x) == Some(cur);
        RankedAssign(store, rank, cur.ref, MARKER, Str(visit.pointer));
      }
  }

  lemma {:induction false} VisitKeysRanked(w: Walk, depth: nat, t: Ref, keys: seq<string>, next: seq<Ref>, cb: Callback,
                                          rank: map<Ref, nat>, b: int)
    requires Ranked(w.store, rank) && ScalarReplies(cb) && t in rank && rank[t] < b && Below(rank, next, b - 1)
    ensures var p := VisitKeys(w, depth, t, keys, next, cb);
      p.Continue? ==> Ranked(p.w.store, rank) && Below(rank, p.next, b - 1)
    decreases |keys|
  {
    if keys != [] {
      VisitKeyRanked(w, depth, t, keys[0], next, cb, rank, b);
      match VisitKey(w, depth, t, keys[0], next, cb)
      case Stop(_, _) =>
      case Continue(w', n') => VisitKeysRanked(w', depth, t, keys[1..], n', cb, rank, b);
    }
  }

  /** One level on an acyclic tree queues only objects ranking below all of its targets' bound. */
  lemma {:induction false} VisitTargetsRanked(w: Walk, depth: nat, level: seq<Ref>, next: seq<Ref>, cb: Callback,
                                             rank: map<Ref, nat>, b: int)
    requires Ranked(w.store, rank) && ScalarReplies(cb) && Below(rank, level, b) && Below(rank, next, b - 1)
    ensures var p := VisitTargets(w, depth, level, next, cb);
      p.Continue? ==> Ranked(p.w.store, rank) && Below(rank, p.next, b - 1)
    decreases |level|
  {
    if level != [] {
      var t := level[0];
      assert t in rank && rank[t] < b;
      VisitKeysRanked(w, depth, t, KeysOf(w.store, t), next, cb, rank, b);
      match VisitKeys(w, depth, t, KeysOf(w.store, t), next, cb)
      case Stop(_, _) =>
      case Continue(w', n') =>
        assert Below(rank, level[1..], b) by {
          forall i | 0 <= i < |level[1..]| ensures level[1..][i] in rank && rank[level[1..][i]] < b {
            assert level[1..][i] == level[i + 1];
          }
        }
        VisitTargetsRanked(w', depth, level[1..], n', cb, rank, b);
    }
  }

  /**
   * On an acyclic tree, with a callback that never stores an object, a walk
   * from targets ranking below `fuel` ends within `fuel` levels: any larger
   * bound gives the same result and the same final state.
   */
  lemma {:induction false} FuelSuffices(w: Walk, depth: nat, level: seq<Ref>, cb: Callback, fuel: nat, more: nat,
                                       rank: map<Ref, nat>)
    requires Ranked(w.store, rank) && ScalarReplies(cb) && Below(rank, level, fuel) && fuel <= more
    ensures VisitLevels(w, depth, level, cb, more) == VisitLevels(w, depth, level, cb, fuel)
    decreases fuel
  {
    if level != [] {
      assert level[0] in rank && rank[level[0]] < fuel;
      VisitTargetsRanked(w, depth, level, [], cb, rank, fuel);
      match VisitTargets(w, depth, level, [], cb)
      case Stop(_, _) =>
      case Continue(w', n') => FuelSuffices(w', depth + 1, n', cb, fuel - 1, more - 1, rank);
    }
  }

  class Kvp {
    /** The heap holding the tree; the library changes its objects in place. */
    var store: Store
    /** `f.collection[0]`: set only when `obj` was of type 'object'. */
    var collection: Option<Value>
    /** The closure's `idx`: pointer to the (node, key) it was met at by a query. */
    var idx: Index

    ghost predicate Valid()
      reads this
    {
      (forall p :: p in idx ==> idx[p].node in store) &&
      (collection.Some? ==> IsObjectType(collection.value)) &&
      (collection.Some? && collection.value.Obj? ==> collection.value.ref in store)
    }

    /** `kvp(obj)` on an already parsed `obj`; a primitive is refused and leaves `collection` unset. */
    constructor (obj: Value, heap: Store)
      requires obj.Obj? ==> obj.ref in heap
      ensures Valid()
      ensures store == heap && idx == map[]
      ensures collection == if IsObjectType(obj) then Some(obj) else None
    {
      store := heap;
      idx := map[];
      collection := if IsObjectType(obj) then Some(obj) else None;
    }

    /**
     * `f.select(pointer)`: a pointer a query has met is read through its
     * recorded (node, key); any other is resolved from the root by `select`.
     */
    function Select(pointer: string): (r: JsResult)
      reads this
      ensures pointer in idx ==> (r == Undefined <==> Lookup(store, idx[pointer].node, idx[pointer].key).None?)
      ensures pointer in idx ==> (r.Val? <==> Lookup(store, idx[pointer].node, idx[pointer].key).Some?)
      ensures pointer in idx && Lookup(store, idx[pointer].node, idx[pointer].key).Some? ==>
        r == Val(Lookup(store, idx[pointer].node, idx[pointer].key).value)
      ensures pointer !in idx && collection.None? ==> r == TypeError
      ensures pointer !in idx && collection.Some? ==> r == Pointer.Select(store, collection.value, Text(pointer))
    {
      if pointer in idx then
        match Lookup(store, idx[pointer].node, idx[pointer].key)
        case None => Undefined
        case Some(v) => Val(v)
      else if collection.None? then TypeError
      else Pointer.Select(store, collection.value, Text(pointer))
    }

    /**
     * What `replace` and `remove` act on: the recorded (node, key) of an indexed
     * pointer; otherwise the raw last segment of the pointer on whatever `select`
     * gives for the segments before it.
     */
    function Locate(pointer: string): (t: Target)
      reads this
      ensures pointer in idx ==> t == Property(idx[pointer].node, idx[pointer].key)
      ensures pointer !in idx && t.Property? ==> t.key == Split(pointer)[|Split(pointer)| - 1]
    {
      if pointer in idx then Property(idx[pointer].node, idx[pointer].key)
      else if collection.None? then Invalid
      else
        var segs := Split(pointer);
        match Pointer.Select(store, collection.value, Segments(segs[..|segs| - 1]))
        case Val(Obj(r)) => Property(r, segs[|segs| - 1])
        case Val(Null) => Invalid
        case Val(_) => Primitive
        case _ => Invalid
    }

    /** `f.replace(pointer, value)`: returns undefined, or throws a TypeError when there is no parent. */
    method Replace(pointer: string, value: Value) returns (r: JsResult)
      requires Valid()
      modifies this
      ensures Valid()
      ensures idx == old(idx) && collection == old(collection)
      ensures store == ReplaceAt(old(store), old(Locate(pointer)), value)
      ensures r == if old(Locate(pointer)).Invalid? then TypeError else Undefined
      ensures pointer in idx && idx[pointer].node in store ==> Select(pointer) == Val(value)
    {
      if pointer in idx {
        store := Assign(store, idx[pointer].node, idx[pointer].key, value);
        return Undefined;
      }
      if collection.None? {
        return TypeError;
      }
      var sel := Split(pointer);
      var key := sel[|sel| - 1];
      match Pointer.Select(store, collection.value, Segments(sel[..|sel| - 1])) {
        case Val(Obj(n)) =>
          store := Assign(store, n, key, value);
          r := Undefined;
        case Val(Null) =>
          r := TypeError;
        case Val(_) =>
          r := Undefined;
        case _ =>
          r := TypeError;
      }
    }

    /** `f.remove(pointer)`: returns undefined, or throws a TypeError when there is no parent. */
    method Remove(pointer: string) returns (r: JsResult)
      requires Valid()
      modifies this
      ensures Valid()
      ensures idx == old(idx) && collection == old(collection)
      ensures store == RemoveAt(old(store), old(Locate(pointer)))
      ensures r == if old(Locate(pointer)).Invalid? then TypeError else Undefined
      ensures pointer in idx ==> Select(pointer) == Undefined
    {
      if pointer in idx {
        store := Delete(store, idx[pointer].node, idx[pointer].key);
        return Undefined;
      }
      if collection.None? {
        return TypeError;
      }
      var sel := Split(pointer);
      var key := sel[|sel| - 1];
      match Pointer.Select(store, collection.value, Segments(sel[..|sel| - 1])) {
        case Val(Obj(n)) =>
          store := Delete(store, n, key);
          r := Undefined;
        case Val(Null) =>
          r := TypeError;
        case Val(_) =>
          r := Undefined;
        case _ =>
          r := TypeError;
      }
    }

    /**
     * One turn of `for (x in target)` (lib/kvp.js:66-84): record the pointer,
     * call back, and either end the query with the value read again after the
     * callback or mark and queue an object child. It does what `VisitKey` says.
     */
    method VisitProperty(t: Ref, x: string, next: seq<Ref>, cb: Callback, ghost depth: nat, ghost trace: seq<Visit>,
                         ghost rank: map<Ref, nat>, ghost bound: nat)
      returns (stop: Option<QueryResult>, next': seq<Ref>, ghost trace': seq<Visit>)
      requires Valid() && Ranked(store, rank) && ScalarReplies(cb)
      requires t in rank && rank[t] < bound
      requires forall m :: 0 <= m < |next| ==> next[m] in rank && rank[next[m]] < bound - 1
      modifies this
      ensures Valid() && Ranked(store, rank) && collection == old(collection)
      ensures forall m :: 0 <= m < |next'| ==> next'[m] in rank && rank[next'[m]] < bound - 1
      ensures var p := VisitKey(Walk(old(store), old(idx), trace), depth, t, x, next, cb);
        p.w == Walk(store, idx, trace') &&
        (match p
         case Stop(_, result) => stop == Some(result)
         case Continue(_, n) => stop == None && next' == n)
    {
      ghost var w := Walk(store, idx, trace);
      next', trace' := next, trace;
      match Lookup(store, t, x) {
        case None =>
          stop := None;
        case Some(v) =>
          var pointer := Marker(store, t) + "/" + x;
          idx := idx[pointer := Slot(t, x)];
          trace' := trace + [Visit(depth, t, x, pointer, v, store)];
          var reply := cb(Node(x, v, pointer));
          if reply.replaceWith.Some? {
            assert Locate(pointer) == Property(t, x);
            var _ := Replace(pointer, reply.replaceWith.value);
            RankedAssign(w.store, rank, t, x, reply.replaceWith.value);
          }
          var cur := Lookup(store, t, x).value;
          assert cur == After(cb, Visit(depth, t, x, pointer, v, w.store));
          if cur.Null? {
            // `typeof null === 'object'`: reading its marker throws
            return Some(Threw), next', trace';
          }
          if reply.matched {
            if cur.Obj? {
              RankedDelete(store, rank, cur.ref, MARKER);
              store := Delete(store, cur.ref, MARKER);
            }
            return Some(Found(cur)), next', trace';
          }
          stop := None;
          if cur.Obj? {
            RankedAssign(store, rank, cur.ref, MARKER, Str(pointer));
            store := Assign(store, cur.ref, MARKER, Str(pointer));
            next' := next + [cur.ref];
          }
      }
    }

    /**
     * The whole `for (x in target)` of lib/kvp.js:65-85 over the keys `target`
     * has when it begins. It does what `VisitKeys` says.
     */
    method VisitTarget(t: Ref, next: seq<Ref>, cb: Callback, ghost depth: nat, ghost trace: seq<Visit>,
                       ghost rank: map<Ref, nat>, ghost bound: nat)
      returns (stop: Option<QueryResult>, next': seq<Ref>, ghost trace': seq<Visit>)
      requires Valid() && Ranked(store, rank) && ScalarReplies(cb)
      requires t in rank && rank[t] < bound
      requires forall m :: 0 <= m < |next| ==> next[m] in rank && rank[next[m]] < bound - 1
      modifies this
      ensures Valid() && Ranked(store, rank) && collection == old(collection)
      ensures forall m :: 0 <= m < |next'| ==> next'[m] in rank && rank[next'[m]] < bound - 1
      ensures var p := VisitKeys(Walk(old(store), old(idx), trace), depth, t, KeysOf(old(store), t), next, cb);
        p.w == Walk(store, idx, trace') &&
        (match p
         case Stop(_, result) => stop == Some(result)
         case Continue(_, n) => stop == None && next' == n)
    {
      var keys := KeysOf(store, t);
      ghost var goal := VisitKeys(Walk(store, idx, trace), depth, t, keys, next, cb);
      next', trace' := next, trace;
      var j := 0;
      while j < |keys|
        invariant 0 <= j <= |keys|
        invariant Valid() && Ranked(store, rank) && collection == old(collection)
        invariant forall m :: 0 <= m < |next'| ==> next'[m] in rank && rank[next'[m]] < bound - 1
        invariant goal == VisitKeys(Walk(store, idx, trace'), depth, t, keys[j..], next', cb)
      {
        assert keys[j..][1..] == keys[j + 1..];
        stop, next', trace' := VisitProperty(t, keys[j], next', cb, depth, trace', rank, bound);
        if stop.Some? {
          return;
        }
        j := j + 1;
      }
      stop := None;
    }

    /**
     * `f.query(cb)`: the level-by-level walk of `traverse`. It returns what
     * `VisitLevels` gives and leaves the store and index as `VisitLevels` does;
     * `trace` lists the callback calls. On an acyclic tree the walk needs no more
     * levels than `Fuel` allows: any larger bound gives the same outcome, so that
     * bound never cuts it short.
     */
    method Query(cb: Callback, ghost rank: map<Ref, nat>) returns (r: QueryResult, ghost trace: seq<Visit>)
      requires Valid() && Ranked(store, rank) && ScalarReplies(cb)
      modifies this
      ensures Valid() && collection == old(collection)
      ensures old(collection).None? ==> r == Threw && store == old(store) && idx == old(idx) && trace == []
      ensures old(collection).Some? ==>
        (r, Walk(store, idx, trace)) ==
        VisitLevels(Walk(old(store), old(idx), []), 0, Roots(old(collection)), cb, Fuel(rank, old(collection)))
      ensures old(collection).Some? ==> forall more: nat :: Fuel(rank, old(collection)) <= more ==>
        (r, Walk(store, idx, trace)) == VisitLevels(Walk(old(store), old(idx), []), 0, Roots(old(collection)), cb, more)
    {
      trace := [];
      if collection.None? {
        // `traverse(undefined, cb)` reads `collection.length`
        return Threw, trace;
      }
      var level := Roots(collection);
      ghost var bound: nat := Fuel(rank, collection);
      ghost var depth: nat := 0;
      ghost var goal := VisitLevels(Walk(store, idx, trace), depth, level, cb, bound);
      while level != []
        invariant Valid() && Ranked(store, rank) && collection == old(collection)
        invariant forall i :: 0 <= i < |level| ==> level[i] in rank && rank[level[i]] < bound
        invariant goal == VisitLevels(Walk(store, idx, trace), depth, level, cb, bound)
        decreases bound
      {
        assert level[0] in rank && rank[level[0]] < bound;
        var next: seq<Ref> := [];
        var i := 0;
        while i < |level|
          invariant 0 <= i <= |level| && bound > 0
          invariant Valid() && Ranked(store, rank) && collection == old(collection)
          invariant forall j :: i <= j < |level| ==> level[j] in rank && rank[level[j]] < bound
          invariant forall j :: 0 <= j < |next| ==> next[j] in rank && rank[next[j]] < bound - 1
          invariant goal == Resume(VisitTargets(Walk(store, idx, trace), depth, level[i..], next, cb), depth, cb, bound - 1)
        {
          assert level[i..][1..] == level[i + 1..];
          var stop;
          stop, next, trace := VisitTarget(level[i], next, cb, depth, trace, rank, bound);
          if stop.Some? {
            QueryFuelSuffices(old(store), old(idx), collection, cb, rank);
            return stop.value, trace;
          }
          i := i + 1;
        }
        level := next;
        depth := depth + 1;
        bound := bound - 1;
      }
      QueryFuelSuffices(old(store), old(idx), collection, cb, rank);
      return Exhausted, trace;
    }
  }

  /**
   * The levels `Kvp.Query` allows are enough: with more, the query on an
   * acyclic tree gives the same result and leaves the same state, so its
   * result is that of `traverse` with no bound at all.
   */
  lemma QueryFuelSuffices(store: Store, idx: Index, collection: Option<Value>, cb: Callback, rank: map<Ref, nat>)
    requires Ranked(store, rank) && ScalarReplies(cb)
    requires collection.Some? && collection.value.Obj? ==> collection.value.ref in store
    ensures forall more: nat :: Fuel(rank, collection) <= more ==>
      VisitLevels(Walk(store, idx, []), 0, Roots(collection), cb, more) ==
      VisitLevels(Walk(store, idx, []), 0, Roots(collection), cb, Fuel(rank, collection))
  {
    forall more: nat | Fuel(rank, collection) <= more
      ensures VisitLevels(Walk(store, idx, []), 0, Roots(collection), cb, more) ==
              VisitLevels(Walk(store, idx, []), 0, Roots(collection), cb, Fuel(rank, collection))
    {
      FuelSuffices(Walk(store, idx, []), 0, Roots(collection), cb, Fuel(rank, collection), more, rank);
    }
  }

  /**
   * For a pointer no query has met, `replace` and `remove` act on the last
   * segment exactly as written (no "~1"/"~0" decoding) of whatever `select`
   * gives for the pointer without that segment: a property of an object, a
   * silently ignored primitive, or a TypeError when that is undefined or null.
   */
  lemma LocateLast(k: Kvp, q: string, x: string)
    requires k.collection.Some? && '/' !in x && q + "/" + x !in k.idx
    ensures var parent := Pointer.Select(k.store, k.collection.value, Text(q));
      k.Locate(q + "/" + x) ==
        if parent.Val? && parent.v.Obj? then Property(parent.v.ref, x)
        else if parent.Val? && !parent.v.Null? then Primitive
        else Invalid
  {
    SplitAppend(q, x);
    var segs := Split(q + "/" + x);
    assert segs[..|segs| - 1] == Split(q) && segs[|segs| - 1] == x;
  }
}
