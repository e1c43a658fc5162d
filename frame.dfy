/**
 * What a walk does to the store when the callback only answers (lib/kvp.js:61-92).
 * `traverse` then writes nothing but the marker `_xvq_pointer`: it sets it on each
 * object it queues (lib/kvp.js:81-83) and deletes it from the object a match
 * returns (lib/kvp.js:76-80). Every other property reads the same before, during
 * and after the walk, so the index a query leaves behind still reads, through
 * `f.select` (lib/kvp.js:94-100), the value the callback was given.
 */
module Frame {
  import opened Wrappers
  import opened JsObjects
  import opened Traverse
  import opened Kvp

  /** Some visit of `vs` handed over the object `r` as its value. */
  predicate HandedOver(vs: seq<Visit>, r: Ref) {
    exists j :: 0 <= j < |vs| && vs[j].value == Obj(r)
  }

  /** From `s` to `s'` only markers changed, and only on objects some visit of `vs` handed over. */
  ghost predicate OnlyMarks(s: Store, s': Store, vs: seq<Visit>) {
    forall r, k :: Lookup(s', r, k) != Lookup(s, r, k) ==> k == MARKER && HandedOver(vs, r)
  }

  /** From the store each visit saw to `s'`, only the markers of that visit and later ones changed. */
  ghost predicate SeenOn(vs: seq<Visit>, s': Store) {
    forall i :: 0 <= i < |vs| ==> OnlyMarks(vs[i].seen, s', vs[i..])
  }

  /** The walk from `w` to `w'` wrote only the markers of the objects it handed over. */
  ghost predicate Framed(w: Walk, w': Walk) {
    Prefix(w, w') &&
    OnlyMarks(w.store, w'.store, NewVisits(w, w')) &&
    SeenOn(NewVisits(w, w'), w'.store)
  }

  lemma OnlyMarksTrans(s: Store, s1: Store, s2: Store, a: seq<Visit>, b: seq<Visit>)
    requires OnlyMarks(s, s1, a) && OnlyMarks(s1, s2, b)
    ensures OnlyMarks(s, s2, a + b)
  {
    forall r, k | Lookup(s2, r, k) != Lookup(s, r, k)
      ensures k == MARKER && HandedOver(a + b, r)
    {
      if Lookup(s1, r, k) != Lookup(s, r, k) {
        var j :| 0 <= j < |a| && a[j].value == Obj(r);
        assert (a + b)[j] == a[j];
      } else {
        var j :| 0 <= j < |b| && b[j].value == Obj(r);
        assert (a + b)[|a| + j] == b[j];
      }
    }
  }

  lemma FramedTrans(w: Walk, w1: Walk, w2: Walk)
    requires Framed(w, w1) && Framed(w1, w2)
    ensures Framed(w, w2)
  {
    PrefixTrans(w, w1, w2);
    var a, b := NewVisits(w, w1), NewVisits(w1, w2);
    OnlyMarksTrans(w.store, w1.store, w2.store, a, b);
    forall i | 0 <= i < |a + b|
      ensures OnlyMarks((a + b)[i].seen, w2.store, (a + b)[i..])
    {
      if i < |a| {
        assert (a + b)[i] == a[i] && (a + b)[i..] == a[i..] + b;
        OnlyMarksTrans(a[i].seen, w1.store, w2.store, a[i..], b);
      } else {
        assert (a + b)[i] == b[i - |a|] && (a + b)[i..] == b[i - |a|..];
      }
    }
  }

  /** A store that differs from `s` at most in the marker of `r`, an object `vs` handed over. */
  lemma MarkOnly(s: Store, s': Store, r: Ref, vs: seq<Visit>)
    requires HandedOver(vs, r)
    requires forall r', k' :: r' != r || k' != MARKER ==> Lookup(s', r', k') == Lookup(s, r', k')
    ensures OnlyMarks(s, s', vs)
  {
  }

  /** One turn of `for (x in target)` writes at most the marker of the value it hands over. */
  lemma VisitKeyFrame(w: Walk, depth: nat, t: Ref, x: string, next: seq<Ref>, cb: Callback)
    requires Pure(cb)
    ensures Framed(w, VisitKey(w, depth, t, x, next, cb).w)
  {
    match Lookup(w.store, t, x)
    case None =>
      assert NewVisits(w, w) == [];
    case Some(v) =>
      var p := Marker(w.store, t) + "/" + x;
      var visit := Visit(depth, t, x, p, v, w.store);
      assert cb(NodeOf(visit)).replaceWith.None?;
      var w' := VisitKey(w, depth, t, x, next, cb).w;
      assert w'.trace == w.trace + [visit];
      assert NewVisits(w, w') == [visit] == [visit][0..];
      if v.Obj? {
        assert [visit][0].value == Obj(v.ref);
        if Matched(cb, visit) {
          assert w'.store == Delete(w.store, v.ref, MARKER);
        } else {
          assert w'.store == Assign(w.store, v.ref, MARKER, Str(p));
        }
        MarkOnly(w.store, w'.store, v.ref, [visit]);
      } else {
        assert w'.store == w.store;
      }
  }

  lemma {:induction false} VisitKeysFrame(w: Walk, depth: nat, t: Ref, keys: seq<string>, next: seq<Ref>, cb: Callback)
    requires Pure(cb)
    ensures Framed(w, VisitKeys(w, depth, t, keys, next, cb).w)
    decreases |keys|
  {
    if keys == [] {
      assert NewVisits(w, w) == [];
    } else {
      VisitKeyFrame(w, depth, t, keys[0], next, cb);
      match VisitKey(w, depth, t, keys[0], next, cb)
      case Stop(w', r) =>
      case Continue(w', n') =>
        VisitKeysFrame(w', depth, t, keys[1..], n', cb);
        FramedTrans(w, w', VisitKeys(w', depth, t, keys[1..], n', cb).w);
    }
  }

  lemma {:induction false} VisitTargetsFrame(w: Walk, depth: nat, level: seq<Ref>, next: seq<Ref>, cb: Callback)
    requires Pure(cb)
    ensures Framed(w, VisitTargets(w, depth, level, next, cb).w)
    decreases |level|
  {
    if level == [] {
      assert NewVisits(w, w) == [];
    } else {
      VisitKeysFrame(w, depth, level[0], KeysOf(w.store, level[0]), next, cb);
      match VisitKeys(w, depth, level[0], KeysOf(w.store, level[0]), next, cb)
      case Stop(w', r) =>
      case Continue(w', n') =>
        VisitTargetsFrame(w', depth, level[1..], n', cb);
        FramedTrans(w, w', VisitTargets(w', depth, level[1..], n', cb).w);
    }
  }

  /**
   * A whole walk under a callback that only answers: every property other than
   * the marker ends as it began, and a marker differs only on an object some
   * visit handed over (one the walk queued, or the one a match returned).
   */
  lemma {:induction false} VisitLevelsFrame(w: Walk, depth: nat, level: seq<Ref>, cb: Callback, fuel: nat)
    requires Pure(cb)
    ensures Framed(w, VisitLevels(w, depth, level, cb, fuel).1)
    ensures var end := VisitLevels(w, depth, level, cb, fuel).1;
      forall r, k :: k != MARKER ==> Lookup(end.store, r, k) == Lookup(w.store, r, k)
    ensures var end := VisitLevels(w, depth, level, cb, fuel).1;
      forall r :: Lookup(end.store, r, MARKER) != Lookup(w.store, r, MARKER) ==> HandedOver(NewVisits(w, end), r)
    decreases fuel
  {
    if level == [] || fuel == 0 {
      assert NewVisits(w, w) == [];
    } else {
      VisitTargetsFrame(w, depth, level, [], cb);
      match VisitTargets(w, depth, level, [], cb)
      case Stop(w', r) =>
      case Continue(w', n') =>
        VisitLevelsFrame(w', depth + 1, n', cb, fuel - 1);
        FramedTrans(w, w', VisitLevels(w', depth + 1, n', cb, fuel - 1).1);
    }
  }

  /**
   * After a query whose callback only answers, `f.select` on a pointer the query
   * recorded reads the value the callback was given with it: the index entry is
   * that of the pointer's last visit, and the property it names has not changed
   * since. The one exception would be the marker property of an object handed
   * over again from that visit on.
   */
  lemma QueryIndexReadsBack(k: Kvp, store: Store, idx: Index, level: seq<Ref>, cb: Callback, fuel: nat,
                            trace: seq<Visit>, i: nat)
    requires Pure(cb)
    requires VisitLevels(Walk(store, idx, []), 0, level, cb, fuel).1 == Walk(k.store, k.idx, trace)
    requires i < |trace| && LastWith(trace, i)
    requires trace[i].key != MARKER || !HandedOver(trace[i..], trace[i].parent)
    ensures k.Select(trace[i].pointer) == Val(trace[i].value)
  {
    var w := Walk(store, idx, []);
    var end := Walk(k.store, k.idx, trace);
    VisitLevelsSound(w, 0, level, cb, fuel);
    VisitLevelsFrame(w, 0, level, cb, fuel);
    assert NewVisits(w, end) == trace;
    RecordVisited(idx, trace);
    assert Faithful(trace[i]);
    assert OnlyMarks(trace[i].seen, k.store, trace[i..]);
    assert Lookup(k.store, trace[i].parent, trace[i].key) == Some(trace[i].value);
  }
}
