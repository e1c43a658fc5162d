/**
 * The pointer resolver `select(obj, sel)` of lib/kvp.js. It follows JSON Pointer
 * (section 4 of RFC 6901) with two departures that the model keeps: an empty
 * segment anywhere sends the cursor back to the root, and a segment is decoded by
 * replacing only the first "~1" and then only the first "~0".
 */
module Pointer {
  import opened Wrappers
  import opened JsObjects
  import opened JsStrings

  /** `key.replace('~1', '/').replace('~0', '~')`. */
  function Decode(seg: string): string {
    ReplaceFirst(ReplaceFirst(seg, "~1", "/"), "~0", "~")
  }

  /** The second argument of `select`: a pointer string, a ready-made segment array, or anything else. */
  datatype Selector = Text(pointer: string) | Segments(segs: seq<string>) | Other

  /**
   * The state of the resolver's `forEach`: the cursor `r` before its first
   * assignment (Unset), at a value (At), after a missing step has set `done`
   * (Stopped), or after a property read on undefined or null threw (Failed).
   */
  datatype Cursor = Unset | At(v: Value) | Stopped | Failed

  /** One turn of the `forEach` callback on segment `seg`. */
  function Step(store: Store, root: Value, c: Cursor, seg: string): Cursor {
    match c
    case Stopped => Stopped
    case Failed => Failed
    case Unset => if Decode(seg) == "" then At(root) else Failed
    case At(v) =>
      var key := Decode(seg);
      if key == "" then At(root)
      else
        match v
        case Null => Failed
        case Obj(r) => (match Lookup(store, r, key) case None => Stopped case Some(w) => At(w))
        case _ => Stopped
  }

  /** The `forEach` over all segments. */
  function Run(store: Store, root: Value, c: Cursor, segs: seq<string>): Cursor
    decreases |segs|
  {
    if segs == [] then c else Run(store, root, Step(store, root, c, segs[0]), segs[1..])
  }

  /** `return r` after the loop, or the exception that left it. */
  function Finish(c: Cursor): JsResult {
    match c
    case Unset => Undefined
    case At(v) => Val(v)
    case Stopped => Undefined
    case Failed => TypeError
  }

  /** `select(obj, sel)` on an already parsed `obj`. */
  function Select(store: Store, obj: Value, sel: Selector): (r: JsResult)
    ensures !IsObjectType(obj) || sel.Other? ==> r == Undefined
  {
    if !IsObjectType(obj) then Undefined
    else
      match sel
      case Text(p) => Finish(Run(store, obj, Unset, Split(p)))
      case Segments(segs) => Finish(Run(store, obj, Unset, segs))
      case Other => Undefined
  }

  // ---------------------------------------------------------------------------
  // The loop over segments.
  // ---------------------------------------------------------------------------

  /** Running over `a + b` is running over `a` and then over `b`. */
  lemma {:induction false} RunAppend(store: Store, root: Value, c: Cursor, a: seq<string>, b: seq<string>)
    ensures Run(store, root, c, a + b) == Run(store, root, Run(store, root, c, a), b)
    decreases |a|
  {
    if a != [] {
      var c' := Step(store, root, c, a[0]);
      assert (a + b)[0] == a[0] && (a + b)[1..] == a[1..] + b;
      assert Run(store, root, c, a + b) == Run(store, root, c', a[1..] + b);
      assert Run(store, root, c, a) == Run(store, root, c', a[1..]);
      RunAppend(store, root, c', a[1..], b);
    } else {
      assert a + b == b;
    }
  }

  /** Once `done` is set, or once an exception is thrown, no later segment is read. */
  lemma {:induction false} RunAfterExit(store: Store, root: Value, c: Cursor, segs: seq<string>)
    requires c.Stopped? || c.Failed?
    ensures Run(store, root, c, segs) == c
    decreases |segs|
  {
    if segs != [] {
      RunAfterExit(store, root, c, segs[1..]);
    }
  }

  // ---------------------------------------------------------------------------
  // Decoding.
  // ---------------------------------------------------------------------------

  /** A segment without '~' is used as it is. */
  lemma DecodeWithoutTilde(s: string)
    requires '~' !in s
    ensures Decode(s) == s
  {
    forall j: nat ensures !OccursAt(s, "~1", j) && !OccursAt(s, "~0", j) {
      if j + 2 <= |s| {
        assert s[j..j + 2][0] == s[j];
      }
    }
    ReplaceFirstSpec(s, "~1", "/");
    ReplaceFirstSpec(s, "~0", "~");
  }

  /** A non-empty segment never decodes to the empty key. */
  lemma DecodeNonEmpty(s: string)
    requires s != ""
    ensures Decode(s) != ""
  {
    var t := ReplaceFirst(s, "~1", "/");
    assert t != "" by {
      match IndexFrom(s, "~1", 0)
      case None =>
      case Some(i) =>
        assert |t| == |s| - 1;
    }
    match IndexFrom(t, "~0", 0)
    case None =>
    case Some(i) =>
      assert |Decode(s)| == |t| - 1;
  }

  /**
   * Only the first "~1" and the first "~0" are decoded: "~1~1" gives "/~1"
   * where RFC 6901 gives "//", and "~0~0" gives "~~0" where it gives "~~".
   */
  lemma DecodeReplacesOnce()
    ensures Decode("~1~1") == "/~1"
    ensures Decode("~0~0") == "~~0"
  {
    assert OccursAt("~1~1", "~1", 0);
    assert IndexFrom("~1~1", "~1", 0) == Some(0);
    assert ReplaceFirst("~1~1", "~1", "/") == "/~1";
    assert "/~1"[0..2][0] == '/' && "/~1"[1..3][1] == '1';
    assert IndexFrom("/~1", "~0", 0) == None;
    assert "~0~0"[0..2][1] == '0' && "~0~0"[1..3][0] == '0' && "~0~0"[2..4][1] == '0';
    assert IndexFrom("~0~0", "~1", 0) == None;
    assert OccursAt("~0~0", "~0", 0);
    assert IndexFrom("~0~0", "~0", 0) == Some(0);
  }

  // ---------------------------------------------------------------------------
  // What `select` returns.
  // ---------------------------------------------------------------------------

  /**
   * The resolver stops at the first segment whose key is undefined: whatever
   * segments follow, `select` returns undefined and reads none of them.
   */
  lemma StopsAtFirstMissing(store: Store, obj: Value, before: seq<string>, seg: string, after: seq<string>)
    requires IsObjectType(obj)
    requires Run(store, obj, Unset, before).At?
    requires Decode(seg) != ""
    requires var v := Run(store, obj, Unset, before).v;
      (v.Obj? && Lookup(store, v.ref, Decode(seg)).None?) || !IsObjectType(v)
    ensures Select(store, obj, Segments(before + [seg] + after)) == Undefined
  {
    RunAppend(store, obj, Unset, before + [seg], after);
    RunAppend(store, obj, Unset, before, [seg]);
    RunAfterExit(store, obj, Stopped, after);
  }

  /**
   * An empty segment sets the cursor back to the root, whatever was read before
   * it, unless resolution had already stopped or thrown.
   */
  lemma EmptySegmentRestarts(store: Store, obj: Value, before: seq<string>, after: seq<string>)
    requires Run(store, obj, Unset, before).Unset? || Run(store, obj, Unset, before).At?
    ensures Run(store, obj, Unset, before + [""] + after) == Run(store, obj, At(obj), after)
  {
    RunAppend(store, obj, Unset, before + [""], after);
    RunAppend(store, obj, Unset, before, [""]);
    DecodeWithoutTilde("");
  }

  /** Both "" and "/" resolve to the root object itself. */
  lemma RootPointers(store: Store, obj: Value)
    requires IsObjectType(obj)
    ensures Select(store, obj, Text("")) == Val(obj)
    ensures Select(store, obj, Text("/")) == Val(obj)
  {
    DecodeWithoutTilde("");
    assert LastSlash("").None?;
    assert Split("") == [""];
    assert Run(store, obj, Unset, [""]) == Run(store, obj, At(obj), []);
    assert LastSlash("/") == Some(0);
    assert "/"[..0] == "" && "/"[1..] == "";
    assert Split("/") == [""] + [""];
    assert Run(store, obj, Unset, ["", ""]) == Run(store, obj, At(obj), [""]);
    assert Run(store, obj, At(obj), [""]) == Run(store, obj, At(obj), []);
  }

  /**
   * A pointer that does not start with '/' makes the first property read happen
   * on the still undefined cursor, which throws.
   */
  lemma NoLeadingSlashThrows(store: Store, obj: Value, p: string)
    requires IsObjectType(obj)
    requires p != "" && p[0] != '/'
    ensures Select(store, obj, Text(p)) == TypeError
  {
    var segs := Split(p);
    SplitHead(p);
    assert segs[0] != "";
    DecodeNonEmpty(segs[0]);
    RunAfterExit(store, obj, Failed, segs[1..]);
  }

  // ---------------------------------------------------------------------------
  // Agreement with plain path descent.
  // ---------------------------------------------------------------------------

  /** A key that needs no escaping and that the resolver does not read as a restart. */
  predicate Plain(k: string) {
    k != "" && '/' !in k && '~' !in k
  }

  /** The pointer of a key path, built as `traverse` builds it: "" then "/" + key per step. */
  function PointerOf(keys: seq<string>): string {
    if keys == [] then "" else PointerOf(keys[..|keys| - 1]) + "/" + keys[|keys| - 1]
  }

  /** Reference evaluation of a key path: one property read per key, from `v`. */
  function Descend(store: Store, v: Value, keys: seq<string>): JsResult
    decreases |keys|
  {
    if keys == [] then Val(v)
    else
      match v
      case Obj(r) =>
        (match Lookup(store, r, keys[0])
         case None => Undefined
         case Some(w) => Descend(store, w, keys[1..]))
      case Null => TypeError
      case _ => Undefined
  }

  lemma {:induction false} SplitPointerOf(keys: seq<string>)
    requires forall i :: 0 <= i < |keys| ==> '/' !in keys[i]
    ensures Split(PointerOf(keys)) == [""] + keys
    decreases |keys|
  {
    if keys == [] {
      assert LastSlash("").None?;
    } else {
      var front, last := keys[..|keys| - 1], keys[|keys| - 1];
      SplitPointerOf(front);
      assert PointerOf(keys) == PointerOf(front) + "/" + last;
      SplitAppend(PointerOf(front), last);
      assert keys == front + [last];
    }
  }

  lemma {:induction false} RunPlain(store: Store, root: Value, v: Value, keys: seq<string>)
    requires forall i :: 0 <= i < |keys| ==> Plain(keys[i])
    ensures Finish(Run(store, root, At(v), keys)) == Descend(store, v, keys)
    decreases |keys|
  {
    if keys != [] {
      DecodeWithoutTilde(keys[0]);
      var c := Step(store, root, At(v), keys[0]);
      if c.At? {
        RunPlain(store, root, c.v, keys[1..]);
      } else {
        RunAfterExit(store, root, c, keys[1..]);
      }
    }
  }

  /** A pointer that splits into "" and plain keys is evaluated by plain descent from the root. */
  lemma SelectSplit(store: Store, obj: Value, p: string, keys: seq<string>)
    requires IsObjectType(obj)
    requires Split(p) == [""] + keys
    requires forall i :: 0 <= i < |keys| ==> Plain(keys[i])
    ensures Select(store, obj, Text(p)) == Descend(store, obj, keys)
  {
    DecodeWithoutTilde("");
    assert ([""] + keys)[1..] == keys;
    RunPlain(store, obj, obj, keys);
  }

  /**
   * For non-empty keys containing neither '/' nor '~', `select` on the pointer
   * "/k1/.../kn" reads k1, ..., kn one after the other from the root, as RFC
   * 6901 evaluates it.
   */
  lemma SelectPlainPointer(store: Store, obj: Value, keys: seq<string>)
    requires IsObjectType(obj)
    requires forall i :: 0 <= i < |keys| ==> Plain(keys[i])
    ensures Select(store, obj, Text(PointerOf(keys))) == Descend(store, obj, keys)
  {
    SplitPointerOf(keys);
    DecodeWithoutTilde("");
    RunPlain(store, obj, obj, keys);
  }
}
