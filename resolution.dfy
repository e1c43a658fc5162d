/**
 * The pointers `traverse` hands to its callback agree with the resolver
 * `select`: on a tree whose keys are non-empty and contain neither '/' nor '~',
 * every pointer a query builds resolves, from the root and in the store the
 * callback saw at that visit, to exactly the value the callback was given
 * (`QueryPointersResolve`). This is what makes the marker scheme of lib/kvp.js
 * correct. That the same pointer still reads that value through `idx` once the
 * query is over is `Frame.QueryIndexReadsBack`.
 */
module Resolution {
  import opened Wrappers
  import opened JsObjects
  import opened JsStrings
  import opened Pointer
  import opened Traverse

  predicate AllPlain(keys: seq<string>) {
    forall i :: 0 <= i < |keys| ==> Plain(keys[i])
  }

  /** Every object reference leads to a container in the store. */
  ghost predicate Closed(store: Store) {
    forall r, k :: Lookup(store, r, k).Some? && Lookup(store, r, k).value.Obj? ==> Lookup(store, r, k).value.ref in store
  }

  /** No data object sits under the marker key, so overwriting a marker cuts no path. */
  ghost predicate NoObjectMarkers(store: Store) {
    forall r :: Lookup(store, r, MARKER).Some? ==> !Lookup(store, r, MARKER).value.Obj?
  }

  ghost predicate PlainKeys(store: Store) {
    forall r :: r in store ==> AllPlain(store[r].keys)
  }

  /** The trees the agreement holds for. */
  ghost predicate Prepared(store: Store) {
    Closed(store) && NoObjectMarkers(store) && PlainKeys(store)
  }

  /** The marker of `u` is a pointer of plain keys leading from the root to `u`. */
  ghost predicate Resolves(store: Store, root: Ref, u: Ref) {
    var segs := Split(Marker(store, u));
    segs[0] == "" && AllPlain(segs[1..]) && Descend(store, Obj(root), segs[1..]) == Val(Obj(u))
  }

  ghost predicate AllResolve(store: Store, root: Ref, refs: seq<Ref>) {
    forall i :: 0 <= i < |refs| ==> Resolves(store, root, refs[i])
  }

  /** Every object reachable before is reachable the same way afterwards. */
  ghost predicate Preserves(s: Store, s': Store, root: Ref) {
    forall u :: Resolves(s, root, u) ==> Resolves(s', root, u)
  }

  /** An edge to an object is never changed. */
  ghost predicate ObjEdgesKept(s: Store, s': Store) {
    forall r, k :: Lookup(s, r, k).Some? && Lookup(s, r, k).value.Obj? ==> Lookup(s', r, k) == Lookup(s, r, k)
  }

  /** The pointer given to the callback resolves to the value given to it. */
  predicate Consistent(root: Ref, v: Visit) {
    Select(v.seen, Obj(root), Text(v.pointer)) == Val(v.value)
  }

  predicate AllConsistent(root: Ref, vs: seq<Visit>) {
    forall i :: 0 <= i < |vs| ==> Consistent(root, vs[i])
  }

  // ---------------------------------------------------------------------------
  // Paths.
  // ---------------------------------------------------------------------------

  lemma {:induction false} DescendKept(s: Store, s': Store, v: Value, keys: seq<string>, u: Ref)
    requires ObjEdgesKept(s, s')
    requires Descend(s, v, keys) == Val(Obj(u))
    ensures Descend(s', v, keys) == Val(Obj(u))
    decreases |keys|
  {
    if keys != [] {
      DescendKept(s, s', Lookup(s, v.ref, keys[0]).value, keys[1..], u);
    }
  }

  lemma {:induction false} DescendSnoc(s: Store, v: Value, keys: seq<string>, x: string, t: Ref, w: Value)
    requires Descend(s, v, keys) == Val(Obj(t))
    requires Lookup(s, t, x) == Some(w)
    ensures Descend(s, v, keys + [x]) == Val(w)
    decreases |keys|
  {
    if keys == [] {
      assert keys + [x] == [x];
    } else {
      assert (keys + [x])[0] == keys[0] && (keys + [x])[1..] == keys[1..] + [x];
      DescendSnoc(s, Lookup(s, v.ref, keys[0]).value, keys[1..], x, t, w);
    }
  }

  lemma AllPlainSnoc(keys: seq<string>, x: string)
    requires AllPlain(keys) && Plain(x)
    ensures AllPlain(keys + [x])
  {
    forall i | 0 <= i < |keys + [x]| ensures Plain((keys + [x])[i]) {
      if i < |keys| {
        assert (keys + [x])[i] == keys[i];
      }
    }
  }

  /** A marker that splits into "" and a path of plain keys to `u` makes `u` resolvable. */
  lemma ResolvesVia(s: Store, root: Ref, u: Ref, keys: seq<string>)
    requires Split(Marker(s, u)) == [""] + keys && AllPlain(keys)
    requires Descend(s, Obj(root), keys) == Val(Obj(u))
    ensures Resolves(s, root, u)
  {
    assert ([""] + keys)[1..] == keys;
  }

  /** The path of a resolvable object: its marker split, without the leading "". */
  function PathOf(s: Store, u: Ref): seq<string> {
    Split(Marker(s, u))[1..]
  }

  lemma PathOfResolves(s: Store, root: Ref, u: Ref)
    requires Resolves(s, root, u)
    ensures Split(Marker(s, u)) == [""] + PathOf(s, u)
    ensures AllPlain(PathOf(s, u)) && Descend(s, Obj(root), PathOf(s, u)) == Val(Obj(u))
  {
  }

  /** The pointer built for key `x` of a resolvable `t` leads, key by key, to `t[x]`. */
  lemma ChildPath(s: Store, root: Ref, t: Ref, x: string, w: Value)
    requires Resolves(s, root, t) && Plain(x) && Lookup(s, t, x) == Some(w)
    ensures Split(Marker(s, t) + "/" + x) == [""] + (PathOf(s, t) + [x])
    ensures AllPlain(PathOf(s, t) + [x])
    ensures Descend(s, Obj(root), PathOf(s, t) + [x]) == Val(w)
  {
    var keys := PathOf(s, t);
    PathOfResolves(s, root, t);
    SplitAppend(Marker(s, t), x);
    AllPlainSnoc(keys, x);
    DescendSnoc(s, Obj(root), keys, x, t, w);
  }

  /** The pointer built for key `x` of a resolvable `t` resolves to `t[x]`. */
  lemma ChildPointer(s: Store, root: Ref, t: Ref, x: string, w: Value)
    requires Resolves(s, root, t) && Plain(x) && Lookup(s, t, x) == Some(w)
    ensures Select(s, Obj(root), Text(Marker(s, t) + "/" + x)) == Val(w)
  {
    ChildPath(s, root, t, x, w);
    SelectSplit(s, Obj(root), Marker(s, t) + "/" + x, PathOf(s, t) + [x]);
  }

  lemma MarkerPlain()
    ensures Plain(MARKER)
  {
  }

  /** Writing a string marker changes no edge to an object. */
  lemma MarkerEdgesKept(s: Store, c: Ref, p: string)
    requires NoObjectMarkers(s)
    ensures ObjEdgesKept(s, Assign(s, c, MARKER, Str(p)))
  {
  }

  /** Writing a string marker keeps the tree prepared and cuts no path to an object. */
  lemma MarkerWrite(s: Store, c: Ref, p: string)
    requires Prepared(s)
    ensures var s' := Assign(s, c, MARKER, Str(p));
      Prepared(s') && ObjEdgesKept(s, s') && (forall u :: u != c ==> Marker(s', u) == Marker(s, u))
  {
    var s' := Assign(s, c, MARKER, Str(p));
    MarkerPlain();
    forall r | r in s' ensures AllPlain(s'[r].keys) {
      if r == c {
        forall i | 0 <= i < |s'[r].keys| ensures Plain(s'[r].keys[i]) {
          var k := s'[r].keys[i];
          if k != MARKER {
            assert k in s[r].keys;
            var j :| 0 <= j < |s[r].keys| && s[r].keys[j] == k;
          }
        }
      }
    }
    assert Closed(s') by {
      forall r, k | Lookup(s', r, k).Some? && Lookup(s', r, k).value.Obj? ensures Lookup(s', r, k).value.ref in s' {
        assert Lookup(s, r, k) == Lookup(s', r, k);
      }
    }
  }

  lemma NewMarker(s: Store, c: Ref, p: string)
    requires c in s
    ensures Marker(Assign(s, c, MARKER, Str(p)), c) == p
  {
  }

  /** The child queued under the new pointer resolves through its new marker. */
  lemma QueuedChild(s: Store, root: Ref, t: Ref, x: string, c: Ref)
    requires Prepared(s) && Resolves(s, root, t) && Plain(x) && Lookup(s, t, x) == Some(Obj(c))
    ensures Resolves(Assign(s, c, MARKER, Str(Marker(s, t) + "/" + x)), root, c)
  {
    var p := Marker(s, t) + "/" + x;
    var s' := Assign(s, c, MARKER, Str(p));
    var keys := PathOf(s, t) + [x];
    ChildPath(s, root, t, x, Obj(c));
    MarkerEdgesKept(s, c, p);
    DescendKept(s, s', Obj(root), keys, c);
    NewMarker(s, c, p);
    ResolvesVia(s', root, c, keys);
  }

  /** Every other object keeps its marker and its path, so it still resolves. */
  lemma OthersResolve(s: Store, root: Ref, c: Ref, p: string)
    requires Prepared(s)
    ensures var s' := Assign(s, c, MARKER, Str(p));
      forall u :: u != c && Resolves(s, root, u) ==> Resolves(s', root, u)
  {
    var s' := Assign(s, c, MARKER, Str(p));
    MarkerWrite(s, c, p);
    forall u | u != c && Resolves(s, root, u) ensures Resolves(s', root, u) {
      DescendKept(s, s', Obj(root), Split(Marker(s, u))[1..], u);
    }
  }

  /** Marking and queueing a child keeps every queued object resolvable. */
  lemma QueueStep(s: Store, root: Ref, t: Ref, x: string, c: Ref, next: seq<Ref>)
    requires Prepared(s) && Resolves(s, root, t) && Plain(x) && Lookup(s, t, x) == Some(Obj(c))
    requires AllResolve(s, root, next)
    ensures var s' := Assign(s, c, MARKER, Str(Marker(s, t) + "/" + x));
      Prepared(s') && Preserves(s, s', root) && AllResolve(s', root, next + [c])
  {
    var s' := Assign(s, c, MARKER, Str(Marker(s, t) + "/" + x));
    MarkerWrite(s, c, Marker(s, t) + "/" + x);
    QueuedChild(s, root, t, x, c);
    OthersResolve(s, root, c, Marker(s, t) + "/" + x);
    assert Preserves(s, s', root);
    assert AllResolve(s', root, next + [c]) by {
      forall i | 0 <= i < |next + [c]| ensures Resolves(s', root, (next + [c])[i]) {
        if i < |next| {
          assert (next + [c])[i] == next[i];
          assert Resolves(s, root, next[i]);
        }
      }
    }
  }

  // ---------------------------------------------------------------------------
  // The walk.
  // ---------------------------------------------------------------------------

  lemma VisitKeyResolves(w: Walk, depth: nat, t: Ref, x: string, next: seq<Ref>, cb: Callback, root: Ref)
    requires Pure(cb) && Prepared(w.store) && Plain(x)
    requires Resolves(w.store, root, t) && AllResolve(w.store, root, next)
    ensures var p := VisitKey(w, depth, t, x, next, cb);
      Prefix(w, p.w) && AllConsistent(root, NewVisits(w, p.w)) &&
      (p.Continue? ==> Prepared(p.w.store) && Preserves(w.store, p.w.store, root) && AllResolve(p.w.store, root, p.next))
  {
    var p := VisitKey(w, depth, t, x, next, cb);
    match Lookup(w.store, t, x)
    case None =>
      assert NewVisits(w, p.w) == [];
    case Some(v) =>
      var visit := Visit(depth, t, x, Marker(w.store, t) + "/" + x, v, w.store);
      assert cb(NodeOf(visit)).replaceWith.None?;
      assert NewVisits(w, p.w) == [visit];
      ChildPointer(w.store, root, t, x, v);
      if p.Continue? && v.Obj? && !Matched(cb, visit) {
        QueueStep(w.store, root, t, x, v.ref, next);
      }
  }

  lemma PreservesTrans(s: Store, s1: Store, s2: Store, root: Ref)
    requires Preserves(s, s1, root) && Preserves(s1, s2, root)
    ensures Preserves(s, s2, root)
  {
  }

  lemma ConsistentConcat(root: Ref, w: Walk, w1: Walk, w2: Walk)
    requires Prefix(w, w1) && Prefix(w1, w2)
    requires AllConsistent(root, NewVisits(w, w1)) && AllConsistent(root, NewVisits(w1, w2))
    ensures Prefix(w, w2) && AllConsistent(root, NewVisits(w, w2))
  {
    PrefixTrans(w, w1, w2);
  }

  lemma {:induction false} VisitKeysResolves(w: Walk, depth: nat, t: Ref, keys: seq<string>, next: seq<Ref>, cb: Callback, root: Ref)
    requires Pure(cb) && Prepared(w.store) && AllPlain(keys)
    requires Resolves(w.store, root, t) && AllResolve(w.store, root, next)
    ensures var p := VisitKeys(w, depth, t, keys, next, cb);
      Prefix(w, p.w) && AllConsistent(root, NewVisits(w, p.w)) &&
      (p.Continue? ==> Prepared(p.w.store) && Preserves(w.store, p.w.store, root) && AllResolve(p.w.store, root, p.next))
    decreases |keys|
  {
    if keys == [] {
      assert NewVisits(w, w) == [];
    } else {
      VisitKeyResolves(w, depth, t, keys[0], next, cb, root);
      match VisitKey(w, depth, t, keys[0], next, cb)
      case Stop(_, _) =>
      case Continue(w', n') =>
        assert AllPlain(keys[1..]) by {
          forall i | 0 <= i < |keys| - 1 ensures Plain(keys[1..][i]) {
            assert keys[1..][i] == keys[i + 1];
          }
        }
        VisitKeysResolves(w', depth, t, keys[1..], n', cb, root);
        var p := VisitKeys(w', depth, t, keys[1..], n', cb);
        ConsistentConcat(root, w, w', p.w);
        if p.Continue? {
          PreservesTrans(w.store, w'.store, p.w.store, root);
        }
    }
  }

  lemma {:induction false} VisitTargetsResolves(w: Walk, depth: nat, level: seq<Ref>, next: seq<Ref>, cb: Callback, root: Ref)
    requires Pure(cb) && Prepared(w.store)
    requires AllResolve(w.store, root, level) && AllResolve(w.store, root, next)
    ensures var p := VisitTargets(w, depth, level, next, cb);
      Prefix(w, p.w) && AllConsistent(root, NewVisits(w, p.w)) &&
      (p.Continue? ==> Prepared(p.w.store) && Preserves(w.store, p.w.store, root) && AllResolve(p.w.store, root, p.next))
    decreases |level|
  {
    if level == [] {
      assert NewVisits(w, w) == [];
    } else {
      var t := level[0];
      assert Resolves(w.store, root, t);
      VisitKeysResolves(w, depth, t, KeysOf(w.store, t), next, cb, root);
      match VisitKeys(w, depth, t, KeysOf(w.store, t), next, cb)
      case Stop(_, _) =>
      case Continue(w', n') =>
        assert AllResolve(w'.store, root, level[1..]) by {
          forall i | 0 <= i < |level| - 1 ensures Resolves(w'.store, root, level[1..][i]) {
            assert level[1..][i] == level[i + 1];
            assert Resolves(w.store, root, level[i + 1]);
          }
        }
        VisitTargetsResolves(w', depth, level[1..], n', cb, root);
        var p := VisitTargets(w', depth, level[1..], n', cb);
        ConsistentConcat(root, w, w', p.w);
        if p.Continue? {
          PreservesTrans(w.store, w'.store, p.w.store, root);
        }
    }
  }

  lemma {:induction false} VisitLevelsResolves(w: Walk, depth: nat, level: seq<Ref>, cb: Callback, fuel: nat, root: Ref)
    requires Pure(cb) && Prepared(w.store) && AllResolve(w.store, root, level)
    ensures var w' := VisitLevels(w, depth, level, cb, fuel).1;
      Prefix(w, w') && AllConsistent(root, NewVisits(w, w'))
    decreases fuel
  {
    if level == [] || fuel == 0 {
      assert NewVisits(w, w) == [];
    } else {
      VisitTargetsResolves(w, depth, level, [], cb, root);
      match VisitTargets(w, depth, level, [], cb)
      case Stop(_, _) =>
      case Continue(w', n') =>
        VisitLevelsResolves(w', depth + 1, n', cb, fuel - 1, root);
        ConsistentConcat(root, w, w', VisitLevels(w', depth + 1, n', cb, fuel - 1).1);
    }
  }

  /**
   * A query with a callback that only answers, on a prepared tree whose root
   * carries no marker: every pointer handed to the callback, resolved by
   * `select` from the root in the store of that moment, gives the value handed
   * over with it.
   */
  lemma QueryPointersResolve(store: Store, idx: Index, root: Ref, cb: Callback, fuel: nat)
    requires Pure(cb) && Prepared(store) && Marker(store, root) == ""
    ensures var trace := VisitLevels(Walk(store, idx, []), 0, [root], cb, fuel).1.trace;
      forall i :: 0 <= i < |trace| ==> Select(trace[i].seen, Obj(root), Text(trace[i].pointer)) == Val(trace[i].value)
  {
    var w := Walk(store, idx, []);
    assert LastSlash("").None?;
    assert Split("") == [""];
    assert Resolves(store, root, root);
    VisitLevelsResolves(w, 0, [root], cb, fuel, root);
    var w' := VisitLevels(w, 0, [root], cb, fuel).1;
    assert NewVisits(w, w') == w'.trace;
  }

  /**
   * Why the agreement needs non-empty keys. A property under the empty key of an
   * unmarked root is handed over with pointer "/", but `select` reads "/" as the
   * root itself, so unless that property holds the root, the pointer resolves to
   * something other than the value the callback got.
   */
  lemma EmptyKeyPointsAtRoot(w: Walk, depth: nat, root: Ref, next: seq<Ref>, cb: Callback)
    requires Marker(w.store, root) == "" && Lookup(w.store, root, "").Some?
    ensures var vs := NewVisits(w, VisitKey(w, depth, root, "", next, cb).w);
      |vs| == 1 && vs[0].pointer == "/" && vs[0].value == Lookup(w.store, root, "").value &&
      Select(vs[0].seen, Obj(root), Text("/")) == Val(Obj(root)) &&
      (vs[0].value != Obj(root) ==> !Consistent(root, vs[0]))
  {
    RootPointers(w.store, Obj(root));
    assert "" + "/" + "" == "/";
  }
}
