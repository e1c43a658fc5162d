/**
 * The sample object of test/index.js and test/tests.js,
 *   {a: 100, aa: {aaa: {x: 'ex', y: 'YY'}}, c: "billi", d: [1, 2, 3, 4, 5], e: true},
 * as a store, and what the model gives for the pointers and queries those tests use.
 */
module Scenarios {
  import opened Wrappers
  import opened JsObjects
  import opened JsStrings
  import opened Pointer
  import opened Traverse
  import opened Resolution
  import opened Kvp
  import opened Coverage

  /** Object 0 is the root, 1 is `aa`, 2 is `aa.aaa`, 3 is the array `d`. */
  function Sample(): Store {
    map[0 := Container(["a", "aa", "c", "d", "e"],
                       map["a" := Num(100), "aa" := Obj(1), "c" := Str("billi"), "d" := Obj(3), "e" := Bool(true)]),
        1 := Container(["aaa"], map["aaa" := Obj(2)]),
        2 := Container(["x", "y"], map["x" := Str("ex"), "y" := Str("YY")]),
        3 := Container(["0", "1", "2", "3", "4"],
                       map["0" := Num(1), "1" := Num(2), "2" := Num(3), "3" := Num(4), "4" := Num(5)])]
  }

  /** Heights of the sample's objects: every edge goes down. */
  function SampleRank(): map<Ref, nat> {
    map[0 := 2, 1 := 1, 2 := 0, 3 := 0]
  }

  lemma SampleRanked()
    ensures Ranked(Sample(), SampleRank())
  {
    var s, rank := Sample(), SampleRank();
    forall r, k | Lookup(s, r, k).Some? && Lookup(s, r, k).value.Obj?
      ensures r in rank && Lookup(s, r, k).value.ref in rank && rank[Lookup(s, r, k).value.ref] < rank[r]
    {
      assert r in s && k in s[r].vals;
      if r == 0 {
        assert k == "aa" || k == "d";
      } else {
        assert r == 1 && k == "aa" + "a";
      }
    }
  }

  /** The sample is well formed and acyclic, and carries no `_xvq_pointer` before any query. */
  lemma SampleTame()
    ensures Tame(Sample(), SampleRank())
  {
    SampleRanked();
    SampleWellFormed();
    SampleUnmarked();
  }

  lemma SampleWellFormed()
    ensures AllWellFormed(Sample())
  {
    var s := Sample();
    forall r | r in s ensures WellFormed(s[r]) {
      assert r == 0 || r == 1 || r == 2 || r == 3;
    }
  }

  lemma SampleUnmarked()
    ensures NoObjectMarkers(Sample())
  {
    var s := Sample();
    forall r | Lookup(s, r, MARKER).Some? ensures !Lookup(s, r, MARKER).value.Obj? {
      assert r in s && MARKER in s[r].vals;
    }
  }

  /** `select` on the pointer of a plain key path of the sample reads that path from the root. */
  lemma OnSample(keys: seq<string>, p: string)
    requires forall i :: 0 <= i < |keys| ==> Plain(keys[i])
    requires PointerOf(keys) == p
    ensures Select(Sample(), Obj(0), Text(p)) == Descend(Sample(), Obj(0), keys)
  {
    SelectPlainPointer(Sample(), Obj(0), keys);
  }

  // The key paths the scenarios use: the pointer `traverse` would build for
  // each, and what reading it from the root gives.

  lemma PathNested()
    ensures PointerOf(["aa", "aaa", "x"]) == "/aa/aaa/x"
    ensures Descend(Sample(), Obj(0), ["aa", "aaa", "x"]) == Val(Str("ex"))
  {
    assert ["aa", "aaa", "x"][..2] == ["aa", "aaa"] && ["aa", "aaa"][..1] == ["aa"];
    assert ["aa", "aaa", "x"][1..] == ["aaa", "x"] && ["aaa", "x"][1..] == ["x"];
  }

  lemma PathArray()
    ensures PointerOf(["d", "4"]) == "/d/4"
    ensures Descend(Sample(), Obj(0), ["d", "4"]) == Val(Num(5))
  {
    assert ["d", "4"][..1] == ["d"] && ["d", "4"][1..] == ["4"];
  }

  lemma PathMissing()
    ensures PointerOf(["dummy"]) == "/dummy"
    ensures Descend(Sample(), Obj(0), ["dummy"]) == Undefined
  {
  }

  lemma PathScalar()
    ensures PointerOf(["a", "b", "c"]) == "/a/b/c"
    ensures Descend(Sample(), Obj(0), ["a", "b", "c"]) == Undefined
  {
    assert ["a", "b", "c"][..2] == ["a", "b"] && ["a", "b"][..1] == ["a"];
    assert ["a", "b", "c"][1..] == ["b", "c"];
  }

  lemma PathInner()
    ensures PointerOf(["aa", "aaa"]) == "/aa/aaa"
    ensures Descend(Sample(), Obj(0), ["aa", "aaa"]) == Val(Obj(2))
  {
    assert ["aa", "aaa"][..1] == ["aa"] && ["aa", "aaa"][1..] == ["aaa"];
  }

  lemma PathBelowScalar()
    ensures PointerOf(["a", "b"]) == "/a/b"
    ensures Descend(Sample(), Obj(0), ["a", "b"]) == Undefined
  {
    assert ["a", "b"][..1] == ["a"] && ["a", "b"][1..] == ["b"];
  }

  /** `select('/aa/aaa/x')` is 'ex'. */
  lemma SelectNested()
    ensures Select(Sample(), Obj(0), Text("/aa/aaa/x")) == Val(Str("ex"))
  {
    PathNested();
    OnSample(["aa", "aaa", "x"], "/aa/aaa/x");
  }

  /** `select('/d/4')` reads an array element: 5. */
  lemma SelectArrayElement()
    ensures Select(Sample(), Obj(0), Text("/d/4")) == Val(Num(5))
  {
    PathArray();
    OnSample(["d", "4"], "/d/4");
  }

  /** `select('/dummy')` is undefined and does not throw. */
  lemma SelectMissing()
    ensures Select(Sample(), Obj(0), Text("/dummy")) == Undefined
  {
    PathMissing();
    OnSample(["dummy"], "/dummy");
  }

  /** `select('/a/b/c')` stops at the number 100: undefined, and no throw. */
  lemma SelectThroughScalar()
    ensures Select(Sample(), Obj(0), Text("/a/b/c")) == Undefined
  {
    PathScalar();
    OnSample(["a", "b", "c"], "/a/b/c");
  }

  /** A facade on the sample before any query: nothing indexed. */
  predicate Fresh(k: Kvp)
    reads k
  {
    k.store == Sample() && k.idx == map[] && k.collection == Some(Obj(0))
  }

  /** `remove('/aa/aaa/z')` deletes a missing key of `aa.aaa`, so it returns undefined. */
  lemma TargetMissingKey(k: Kvp)
    requires Fresh(k)
    ensures k.Locate("/aa/aaa/z") == Property(2, "z")
  {
    PathInner();
    OnSample(["aa", "aaa"], "/aa/aaa");
    assert "/aa/aaa" + "/" + "z" == "/aa/aaa/z";
    LocateLast(k, "/aa/aaa", "z");
  }

  /** `remove('/a/b/c')` and `replace('/a/b/c', v)` throw: `select` gives undefined for "/a/b". */
  lemma TargetBelowScalar(k: Kvp)
    requires Fresh(k)
    ensures k.Locate("/a/b/c") == Invalid
  {
    PathBelowScalar();
    OnSample(["a", "b"], "/a/b");
    assert "/a/b" + "/" + "c" == "/a/b/c";
    LocateLast(k, "/a/b", "c");
  }

  /** Matches the node with the given key and changes nothing. */
  function KeyIs(key: string): Callback {
    (n: Node) => Reply(n.key == key, None)
  }

  /** Matches the node with key "c" after assigning 'doggy' to it through `this.replace`. */
  function Doggy(): Callback {
    (n: Node) => if n.key == "c" then Reply(true, Some(Str("doggy"))) else Reply(false, None)
  }

  /** The query for key "a" ends at the first property of the root, with its value 100. */
  lemma SampleQueryFirst()
    ensures VisitLevels(Walk(Sample(), map[], []), 0, [0], KeyIs("a"), 3).0 == Found(Num(100))
  {
    var w := Walk(Sample(), map[], []);
    RootUnmarked();
    assert VisitKey(w, 0, 0, "a", [], KeyIs("a")).Stop?;
    assert KeysOf(Sample(), 0)[1..] == ["aa", "c", "d", "e"];
  }

  /** The sample's root carries no marker, so its children's pointers start from "". */
  lemma RootUnmarked()
    ensures Marker(Sample(), 0) == ""
  {
  }

  /** First turn of the replacing query: "a" holds 100, which neither matches nor is queued. */
  lemma DoggyFirst()
    ensures var p := VisitKey(Walk(Sample(), map[], []), 0, 0, "a", [], Doggy());
      p.Continue? && p.next == [] && p.w.store == Sample()
  {
    RootUnmarked();
  }

  /** Second turn: `aa` is an object, so it is marked "/aa" and queued. */
  lemma DoggySecond(w: Walk)
    requires w.store == Sample()
    ensures var p := VisitKey(w, 0, 0, "aa", [], Doggy());
      p.Continue? && p.next == [1] && Lookup(p.w.store, 1, MARKER) == Some(Str("/aa")) &&
      Marker(p.w.store, 0) == "" && Lookup(p.w.store, 0, "c") == Some(Str("billi")) && |p.w.trace| == |w.trace| + 1
  {
    RootUnmarked();
    var v := Visit(0, 0, "aa", "/aa", Obj(1), Sample());
    assert Lookup(Sample(), 0, "aa") == Some(Obj(1));
    assert "" + "/" + "aa" == "/aa";
    assert !Doggy()(NodeOf(v)).matched && After(Doggy(), v) == Obj(1);
    var store := Assign(Sample(), 1, MARKER, Str("/aa"));
    assert Lookup(store, 0, MARKER) == None && Lookup(store, 0, "c") == Some(Str("billi"));
  }

  /** Third turn: "c" is replaced with 'doggy' and matches, which ends the query. */
  lemma DoggyThird(w: Walk)
    requires Marker(w.store, 0) == "" && Lookup(w.store, 0, "c") == Some(Str("billi"))
    ensures var p := VisitKey(w, 0, 0, "c", [1], Doggy());
      p.Stop? && p.result == Found(Str("doggy")) && Lookup(p.w.store, 0, "c") == Some(Str("doggy")) &&
      (forall r, k :: r != 0 || k != "c" ==> Lookup(p.w.store, r, k) == Lookup(w.store, r, k)) &&
      |p.w.trace| == |w.trace| + 1
  {
  }

  /**
   * The query whose callback replaces "c" with 'doggy' visits "a", marks and
   * queues `aa`, and ends at "c" with the replaced value, written into the store.
   */
  lemma SampleQueryReplace()
    ensures var (r, w) := VisitLevels(Walk(Sample(), map[], []), 0, [0], Doggy(), 3);
      r == Found(Str("doggy")) && Lookup(w.store, 0, "c") == Some(Str("doggy")) &&
      Lookup(w.store, 1, MARKER) == Some(Str("/aa")) && |w.trace| == 3
  {
    var cb := Doggy();
    var w0 := Walk(Sample(), map[], []);
    var keys := KeysOf(Sample(), 0);
    assert keys == ["a", "aa", "c", "d", "e"];
    DoggyFirst();
    var p1 := VisitKey(w0, 0, 0, "a", [], cb);
    DoggySecond(p1.w);
    var p2 := VisitKey(p1.w, 0, 0, "aa", [], cb);
    DoggyThird(p2.w);
    var p3 := VisitKey(p2.w, 0, 0, "c", [1], cb);
    assert keys[1..] == ["aa", "c", "d", "e"] && keys[1..][1..] == ["c", "d", "e"];
    assert VisitKeys(w0, 0, 0, keys, [], cb) == p3;
  }

  /**
   * A query on the sample whose callback matches nothing, if it runs out of
   * levels, has handed "y" of `aa.aaa`, two levels down, to the callback.
   */
  lemma SampleMissVisitsNested()
    ensures var walk := VisitLevels(Walk(Sample(), map[], []), 0, Roots(Some(Obj(0))), KeyIs("zz"),
                                    Fuel(SampleRank(), Some(Obj(0))));
      walk.0 == Exhausted ==> Visited(walk.1.trace, 2, "y")
  {
    SampleTame();
    PathInner();
    assert "y" in KeysOf(Sample(), 2);
    ExhaustedVisitsReachable(Sample(), map[], 0, KeyIs("zz"), SampleRank(), ["aa", "aaa"], 2, "y");
  }

  /** `kvp(o).query(...)` on the sample, run by the class: the first query finds 100. */
  method SampleFacadeQuery() returns (r: QueryResult)
    ensures r == Found(Num(100))
  {
    var k := new Kvp(Obj(0), Sample());
    SampleRanked();
    ghost var trace;
    r, trace := k.Query(KeyIs("a"), SampleRank());
    SampleQueryFirst();
  }
}
