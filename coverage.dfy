/**
 * What a query that matches nothing has seen. On an acyclic tree, with a
 * callback that only answers, the walk of lib/kvp.js:61-92 hands every property
 * of every object reachable from the root to the callback before it runs out of
 * levels: breadth first, one level per recursive `traverse` call.
 */
module Coverage {
  import opened Wrappers
  import opened JsObjects
  import opened Pointer
  import opened Traverse
  import opened Resolution
  import opened Kvp

  /** Property `x` of `t` holds an object. */
  predicate HasChild(s: Store, t: Ref, x: string) {
    Lookup(s, t, x).Some? && Lookup(s, t, x).value.Obj?
  }

  /** The stores the argument is about: well formed, acyclic, and no object under the marker key. */
  ghost predicate Tame(s: Store, rank: map<Ref, nat>) {
    AllWellFormed(s) && NoObjectMarkers(s) && Ranked(s, rank)
  }

  /**
   * A walk on a level whose targets rank below `b` that goes on: the store stays
   * tame, no edge to an object is cut, what was queued stays queued, and all that
   * is queued ranks below `b - 1`.
   */
  ghost predicate Carries(w: Walk, next: seq<Ref>, w': Walk, next': seq<Ref>, rank: map<Ref, nat>, b: int) {
    Tame(w'.store, rank) && ObjEdgesKept(w.store, w'.store) && Below(rank, next', b - 1) &&
    forall c :: c in next ==> c in next'
  }

  lemma EdgesKeptTrans(s: Store, s1: Store, s2: Store)
    requires ObjEdgesKept(s, s1) && ObjEdgesKept(s1, s2)
    ensures ObjEdgesKept(s, s2)
  {
    forall r, k | Lookup(s, r, k).Some? && Lookup(s, r, k).value.Obj? ensures Lookup(s2, r, k) == Lookup(s, r, k) {
      assert Lookup(s1, r, k) == Lookup(s, r, k);
    }
  }

  /** One turn that goes on queues the object it met, and only writes its marker. */
  lemma VisitKeyCarries(w: Walk, depth: nat, t: Ref, x: string, next: seq<Ref>, cb: Callback, rank: map<Ref, nat>, b: int)
    requires Pure(cb) && Tame(w.store, rank) && t in rank && rank[t] < b && Below(rank, next, b - 1)
    ensures var p := VisitKey(w, depth, t, x, next, cb);
      p.Continue? ==> (Carries(w, next, p.w, p.next, rank, b) &&
        (HasChild(w.store, t, x) ==> Lookup(w.store, t, x).value.ref in p.next))
  {
    match Lookup(w.store, t, x)
    case None =>
    case Some(v) =>
      var p := VisitKey(w, depth, t, x, next, cb);
      var pointer := Marker(w.store, t) + "/" + x;
      var visit := Visit(depth, t, x, pointer, v, w.store);
      assert cb(NodeOf(visit)).replaceWith.None?;
      if p.Continue? && v.Obj? {
        var s' := Assign(w.store, v.ref, MARKER, Str(pointer));
        assert p.w.store == s' && p.next == next + [v.ref];
        MarkerEdgesKept(w.store, v.ref, pointer);
        RankedAssign(w.store, rank, v.ref, MARKER, Str(pointer));
        forall r | Lookup(s', r, MARKER).Some? ensures !Lookup(s', r, MARKER).value.Obj? {
          if r != v.ref {
            assert Lookup(s', r, MARKER) == Lookup(w.store, r, MARKER);
          }
        }
        assert Below(rank, p.next, b - 1) by {
          forall i | 0 <= i < |p.next| ensures p.next[i] in rank && rank[p.next[i]] < b - 1 {
            if i < |next| {
              assert p.next[i] == next[i];
            }
          }
        }
      }
  }

  /** The key loop over `t` queues the object under each of its keys. */
  lemma {:induction false} VisitKeysCarries(w: Walk, depth: nat, t: Ref, keys: seq<string>, next: seq<Ref>, cb: Callback, rank: map<Ref, nat>, b: int)
    requires Pure(cb) && Tame(w.store, rank) && t in rank && rank[t] < b && Below(rank, next, b - 1)
    ensures var p := VisitKeys(w, depth, t, keys, next, cb);
      p.Continue? ==> (Carries(w, next, p.w, p.next, rank, b) &&
        forall k :: k in keys && HasChild(w.store, t, k) ==> Lookup(w.store, t, k).value.ref in p.next)
    decreases |keys|
  {
    if keys != [] {
      VisitKeyCarries(w, depth, t, keys[0], next, cb, rank, b);
      match VisitKey(w, depth, t, keys[0], next, cb)
      case Stop(_, _) =>
      case Continue(w1, n1) =>
        VisitKeysCarries(w1, depth, t, keys[1..], n1, cb, rank, b);
        var p := VisitKeys(w1, depth, t, keys[1..], n1, cb);
        if p.Continue? {
          EdgesKeptTrans(w.store, w1.store, p.w.store);
          forall k | k in keys && HasChild(w.store, t, k) ensures Lookup(w.store, t, k).value.ref in p.next {
            if k != keys[0] {
              assert k in keys[1..];
              assert Lookup(w1.store, t, k) == Lookup(w.store, t, k);
            }
          }
        }
    }
  }

  /** One level queues the object under every key of every target. */
  lemma {:induction false} VisitTargetsCarries(w: Walk, depth: nat, level: seq<Ref>, next: seq<Ref>, cb: Callback, rank: map<Ref, nat>, b: int)
    requires Pure(cb) && Tame(w.store, rank) && Below(rank, level, b) && Below(rank, next, b - 1)
    ensures var p := VisitTargets(w, depth, level, next, cb);
      p.Continue? ==> (Carries(w, next, p.w, p.next, rank, b) &&
        forall i, k :: 0 <= i < |level| && HasChild(w.store, level[i], k) ==> Lookup(w.store, level[i], k).value.ref in p.next)
    decreases |level|
  {
    if level != [] {
      var t := level[0];
      VisitKeysCarries(w, depth, t, KeysOf(w.store, t), next, cb, rank, b);
      match VisitKeys(w, depth, t, KeysOf(w.store, t), next, cb)
      case Stop(_, _) =>
      case Continue(w1, n1) =>
        assert Below(rank, level[1..], b) by {
          forall i | 0 <= i < |level[1..]| ensures level[1..][i] in rank && rank[level[1..][i]] < b {
            assert level[1..][i] == level[i + 1];
          }
        }
        VisitTargetsCarries(w1, depth, level[1..], n1, cb, rank, b);
        var p := VisitTargets(w1, depth, level[1..], n1, cb);
        if p.Continue? {
          EdgesKeptTrans(w.store, w1.store, p.w.store);
          forall i, k | 0 <= i < |level| && HasChild(w.store, level[i], k)
            ensures Lookup(w.store, level[i], k).value.ref in p.next
          {
            if i == 0 {
              assert k in w.store[t].vals;
              assert k in KeysOf(w.store, t);
            } else {
              assert level[1..][i - 1] == level[i];
              assert Lookup(w1.store, level[i], k) == Lookup(w.store, level[i], k);
            }
          }
        }
    }
  }

  /**
   * What a level of a walk that matches nothing leaves for the levels below: it
   * went on, visited every key of every target, and queued the object under each.
   */
  lemma LevelGoesOn(w: Walk, depth: nat, level: seq<Ref>, cb: Callback, fuel: nat, rank: map<Ref, nat>, end: Walk)
    returns (w1: Walk, n1: seq<Ref>)
    requires Pure(cb) && Tame(w.store, rank) && Below(rank, level, fuel)
    requires level != [] && fuel > 0 && VisitLevels(w, depth, level, cb, fuel) == (Exhausted, end)
    ensures VisitLevels(w1, depth + 1, n1, cb, fuel - 1) == (Exhausted, end)
    ensures Prefix(w, w1) && Keeps(w.store, w1.store) && Carries(w, [], w1, n1, rank, fuel)
    ensures forall i, k :: 0 <= i < |level| && k in KeysOf(w.store, level[i]) ==> Visited(NewVisits(w, w1), level[i], k)
    ensures forall i, k :: 0 <= i < |level| && HasChild(w.store, level[i], k) ==> Lookup(w.store, level[i], k).value.ref in n1
  {
    // a level that ends the query decides a match or a throw
    VisitTargetsSound(w, depth, level, [], cb);
    VisitTargetsCovers(w, depth, level, [], cb);
    VisitTargetsCarries(w, depth, level, [], cb, rank, fuel);
    w1, n1 := VisitTargets(w, depth, level, [], cb).w, VisitTargets(w, depth, level, [], cb).next;
  }

  /**
   * One level of the induction: the key is visited on this level when the path
   * is empty, and otherwise the rest of the path starts at an object the level
   * queued, in the store the level leaves.
   */
  lemma LevelStep(w: Walk, depth: nat, level: seq<Ref>, cb: Callback, fuel: nat,
                  rank: map<Ref, nat>, i: nat, path: seq<string>, u: Ref, k: string, end: Walk)
    returns (w1: Walk, n1: seq<Ref>, j: nat)
    requires Pure(cb) && Tame(w.store, rank) && Below(rank, level, fuel)
    requires i < |level| && Descend(w.store, Obj(level[i]), path) == Val(Obj(u)) && k in KeysOf(w.store, u)
    requires VisitLevels(w, depth, level, cb, fuel) == (Exhausted, end)
    ensures fuel > 0 && VisitLevels(w1, depth + 1, n1, cb, fuel - 1) == (Exhausted, end)
    ensures Prefix(w, w1) && Tame(w1.store, rank) && Below(rank, n1, fuel - 1)
    ensures path == [] ==> Visited(NewVisits(w, w1), u, k)
    ensures path != [] ==> j < |n1| && Descend(w1.store, Obj(n1[j]), path[1..]) == Val(Obj(u)) && k in KeysOf(w1.store, u)
  {
    w1, n1 := LevelGoesOn(w, depth, level, cb, fuel, rank, end);
    j := 0;
    if path != [] {
      j := ChildStep(w, level, w1, n1, rank, fuel, i, path, u, k);
    }
  }

  /**
   * A path of at least one key from a target of a level continues, in the store
   * the level leaves, from the object queued for its first key.
   */
  lemma ChildStep(w: Walk, level: seq<Ref>, w1: Walk, n1: seq<Ref>, rank: map<Ref, nat>, fuel: nat,
                  i: nat, path: seq<string>, u: Ref, k: string) returns (j: nat)
    requires Tame(w.store, rank) && Keeps(w.store, w1.store) && Carries(w, [], w1, n1, rank, fuel)
    requires forall i, k :: 0 <= i < |level| && HasChild(w.store, level[i], k) ==> Lookup(w.store, level[i], k).value.ref in n1
    requires i < |level| && path != [] && Descend(w.store, Obj(level[i]), path) == Val(Obj(u)) && k in KeysOf(w.store, u)
    ensures j < |n1| && Descend(w1.store, Obj(n1[j]), path[1..]) == Val(Obj(u)) && k in KeysOf(w1.store, u)
  {
    var c := Lookup(w.store, level[i], path[0]).value;
    assert HasChild(w.store, level[i], path[0]);
    j :| 0 <= j < |n1| && n1[j] == c.ref;
    DescendKept(w.store, w1.store, c, path[1..], u);
    KeysKept(w.store, w1.store, u, k);
  }

  /**
   * A walk from `level` that matches nothing, ending in `end`, visits every key
   * of every object reachable from one of the level's targets, as long as the
   * levels left outnumber the ranks.
   */
  lemma {:induction false} VisitLevelsCovers(w: Walk, depth: nat, level: seq<Ref>, cb: Callback, fuel: nat,
                                            rank: map<Ref, nat>, i: nat, path: seq<string>, u: Ref, k: string, end: Walk)
    requires Pure(cb) && Tame(w.store, rank) && Below(rank, level, fuel)
    requires i < |level| && Descend(w.store, Obj(level[i]), path) == Val(Obj(u)) && k in KeysOf(w.store, u)
    requires VisitLevels(w, depth, level, cb, fuel) == (Exhausted, end)
    ensures Prefix(w, end) && Visited(NewVisits(w, end), u, k)
    decreases fuel
  {
    var w1, n1, j := LevelStep(w, depth, level, cb, fuel, rank, i, path, u, k, end);
    if path == [] {
      VisitLevelsSound(w1, depth + 1, n1, cb, fuel - 1);
      VisitedEarlier(w, w1, end, u, k);
    } else {
      VisitLevelsCovers(w1, depth + 1, n1, cb, fuel - 1, rank, j, path[1..], u, k, end);
      VisitedLater(w, w1, end, u, k);
    }
  }

  /** A key visited in the first of two consecutive stretches of a walk is visited in the two together. */
  lemma VisitedEarlier(w: Walk, w1: Walk, w2: Walk, u: Ref, k: string)
    requires Prefix(w, w1) && Prefix(w1, w2) && Visited(NewVisits(w, w1), u, k)
    ensures Prefix(w, w2) && Visited(NewVisits(w, w2), u, k)
  {
    PrefixTrans(w, w1, w2);
    VisitedConcat(NewVisits(w, w1), NewVisits(w1, w2), u, k);
  }

  /** A key visited in the second of two consecutive stretches of a walk is visited in the two together. */
  lemma VisitedLater(w: Walk, w1: Walk, w2: Walk, u: Ref, k: string)
    requires Prefix(w, w1) && Prefix(w1, w2) && Visited(NewVisits(w1, w2), u, k)
    ensures Prefix(w, w2) && Visited(NewVisits(w, w2), u, k)
  {
    PrefixTrans(w, w1, w2);
    VisitedConcat(NewVisits(w, w1), NewVisits(w1, w2), u, k);
  }

  /**
   * A query on an acyclic, well-formed tree, with a callback that only answers
   * and no object under `_xvq_pointer`, that matches nothing has handed every
   * property of every object reachable from the root to the callback. The levels
   * are those `Kvp.Query` runs: the root, and one more than its rank.
   */
  lemma ExhaustedVisitsReachable(store: Store, idx: Index, root: Ref, cb: Callback, rank: map<Ref, nat>,
                                 path: seq<string>, u: Ref, k: string)
    requires Pure(cb) && Tame(store, rank) && root in store
    requires Descend(store, Obj(root), path) == Val(Obj(u)) && k in KeysOf(store, u)
    ensures var walk := VisitLevels(Walk(store, idx, []), 0, Roots(Some(Obj(root))), cb, Fuel(rank, Some(Obj(root))));
      walk.0 == Exhausted ==> Visited(walk.1.trace, u, k)
  {
    var w0 := Walk(store, idx, []);
    var level, fuel := Roots(Some(Obj(root))), Fuel(rank, Some(Obj(root)));
    assert level == [root] && fuel == rank[root] + 1;
    if VisitLevels(w0, 0, level, cb, fuel).0 == Exhausted {
      var w := VisitLevels(w0, 0, level, cb, fuel).1;
      VisitLevelsCovers(w0, 0, level, cb, fuel, rank, 0, path, u, k, w);
      assert NewVisits(w0, w) == w.trace;
    }
  }
}
