/**
 * The JavaScript heap that the library reads and mutates: objects and arrays are
 * containers held in a store and referred to by identity, scalars are values.
 * An array is a container whose keys are "0" .. "n-1".
 */
module JsObjects {
  import opened Wrappers

  type Ref = nat

  /** A JavaScript value as it appears after JSON parsing. */
  datatype Value = Str(s: string) | Num(n: int) | Bool(b: bool) | Null | Obj(ref: Ref)

  /** `typeof v === 'object'`, which is true for null as well. */
  predicate IsObjectType(v: Value) {
    v.Obj? || v.Null?
  }

  /** What an expression evaluates to: a value, `undefined`, or a thrown TypeError. */
  datatype JsResult = Val(v: Value) | Undefined | TypeError

  /** An object or array: its own enumerable keys in enumeration order, and their values. */
  datatype Container = Container(keys: seq<string>, vals: map<string, Value>)

  type Store = map<Ref, Container>

  predicate NoDup(s: seq<string>) {
    forall i, j :: 0 <= i < j < |s| ==> s[i] != s[j]
  }

  /** Each key is listed once, and the listed keys are exactly the keys that have a value. */
  predicate WellFormed(c: Container) {
    NoDup(c.keys) && (forall k :: k in c.vals ==> k in c.keys) && (forall k :: k in c.keys ==> k in c.vals)
  }

  // ---------------------------------------------------------------------------
  // Property order. An own-key enumeration lists the array-index keys first, in
  // ascending numeric order, and then the other keys in insertion order.
  // ---------------------------------------------------------------------------

  predicate IsDigit(c: char) {
    '0' <= c <= '9'
  }

  predicate AllDigits(s: string) {
    forall i :: 0 <= i < |s| ==> IsDigit(s[i])
  }

  function DigitsValue(s: string): nat
    requires AllDigits(s)
  {
    if s == [] then 0 else DigitsValue(s[..|s| - 1]) * 10 + (s[|s| - 1] as int - '0' as int)
  }

  /** A canonical decimal numeral below 2^32 - 1: the keys that order as array indices. */
  predicate IsArrayIndex(k: string) {
    |k| > 0 && AllDigits(k) && (|k| > 1 ==> k[0] != '0') && DigitsValue(k) < 4294967295
  }

  /** Strict lexicographic order on characters. */
  predicate LexLess(a: string, b: string) {
    |a| > 0 && |b| > 0 && (a[0] < b[0] || (a[0] == b[0] && LexLess(a[1..], b[1..])))
  }

  /**
   * Numeric order on canonical numerals: a shorter numeral is smaller, and two
   * numerals of one length compare character by character.
   */
  predicate IndexLess(a: string, b: string) {
    |a| < |b| || (|a| == |b| && LexLess(a, b))
  }

  /** The array-index keys come first, in ascending order. */
  predicate OrderedKeys(keys: seq<string>) {
    forall i, j :: 0 <= i < j < |keys| && IsArrayIndex(keys[j]) ==>
      IsArrayIndex(keys[i]) && IndexLess(keys[i], keys[j])
  }

  lemma {:induction false} LexIrreflexive(a: string)
    ensures !LexLess(a, a)
  {
    if |a| > 0 {
      LexIrreflexive(a[1..]);
    }
  }

  lemma {:induction false} LexTotal(a: string, b: string)
    requires |a| == |b| && a != b
    ensures LexLess(a, b) || LexLess(b, a)
  {
    if a[0] == b[0] {
      assert a == [a[0]] + a[1..] && b == [b[0]] + b[1..];
      LexTotal(a[1..], b[1..]);
    }
  }

  lemma {:induction false} LexTransitive(a: string, b: string, c: string)
    requires LexLess(a, b) && LexLess(b, c)
    ensures LexLess(a, c)
  {
    if a[0] == b[0] && b[0] == c[0] {
      LexTransitive(a[1..], b[1..], c[1..]);
    }
  }

  lemma IndexLessTransitive(a: string, b: string, c: string)
    requires IndexLess(a, b) && IndexLess(b, c)
    ensures IndexLess(a, c)
  {
    if |a| == |b| == |c| {
      LexTransitive(a, b, c);
    }
  }

  lemma IndexLessTotal(a: string, b: string)
    requires a != b
    ensures IndexLess(a, b) || IndexLess(b, a)
  {
    if |a| == |b| {
      LexTotal(a, b);
    }
  }

  // Numerals and their values: `IndexLess` is numeric order on array indices.

  function Digit(c: char): int {
    c as int - '0' as int
  }

  function Pow10(n: nat): nat {
    if n == 0 then 1 else 10 * Pow10(n - 1)
  }

  lemma {:induction false} Pow10Monotonic(m: nat, n: nat)
    requires m <= n
    ensures Pow10(m) <= Pow10(n)
    decreases n
  {
    if m < n {
      Pow10Monotonic(m, n - 1);
    }
  }

  /** Read from the front: the leading digit weighs `10^(|s| - 1)`. */
  lemma {:induction false} DigitsFront(s: string)
    requires AllDigits(s) && |s| > 0
    ensures AllDigits(s[1..])
    ensures DigitsValue(s) == Digit(s[0]) * Pow10(|s| - 1) + DigitsValue(s[1..])
    decreases |s|
  {
    assert AllDigits(s[1..]) by {
      forall i | 0 <= i < |s[1..]| ensures IsDigit(s[1..][i]) {
        assert s[1..][i] == s[i + 1];
      }
    }
    if |s| > 1 {
      var init := s[..|s| - 1];
      assert AllDigits(init) by {
        forall i | 0 <= i < |init| ensures IsDigit(init[i]) {
          assert init[i] == s[i];
        }
      }
      DigitsFront(init);
      assert init[0] == s[0] && init[1..] == s[1..][..|s| - 2];
      assert s[1..][|s| - 2] == s[|s| - 1];
      var d, p := Digit(s[0]), Pow10(|s| - 2);
      calc {
        DigitsValue(s);
        DigitsValue(init) * 10 + Digit(s[|s| - 1]);
        (d * p + DigitsValue(init[1..])) * 10 + Digit(s[|s| - 1]);
        { assert (d * p) * 10 == d * (10 * p); }
        d * Pow10(|s| - 1) + (DigitsValue(s[1..][..|s| - 2]) * 10 + Digit(s[1..][|s| - 2]));
      }
    }
  }

  /** A numeral of `n` digits is below `10^n`. */
  lemma {:induction false} DigitsBound(s: string)
    requires AllDigits(s)
    ensures DigitsValue(s) < Pow10(|s|)
    decreases |s|
  {
    if s != [] {
      var init := s[..|s| - 1];
      assert AllDigits(init) by {
        forall i | 0 <= i < |init| ensures IsDigit(init[i]) {
          assert init[i] == s[i];
        }
      }
      DigitsBound(init);
      assert DigitsValue(init) * 10 <= (Pow10(|init|) - 1) * 10;
    }
  }

  /** Scaling a smaller digit leaves room for a whole lower place: `x * p + p <= y * p`. */
  lemma {:induction false} ScaleGap(x: nat, y: nat, p: nat)
    requires x < y
    ensures x * p + p <= y * p
    decreases y
  {
    if x + 1 < y {
      ScaleGap(x, y - 1, p);
      assert (y - 1) * p + p == y * p;
    } else {
      assert (x + 1) * p == x * p + p;
    }
  }

  /** A numeral of `n` digits without a leading zero is at least `10^(n - 1)`. */
  lemma DigitsLeading(s: string)
    requires AllDigits(s) && |s| > 0 && s[0] != '0'
    ensures DigitsValue(s) >= Pow10(|s| - 1)
  {
    DigitsFront(s);
    ScaleGap(0, Digit(s[0]), Pow10(|s| - 1));
  }

  /** On numerals of one length, character order is numeric order. */
  lemma {:induction false} LexDigits(a: string, b: string)
    requires AllDigits(a) && AllDigits(b) && |a| == |b|
    ensures LexLess(a, b) <==> DigitsValue(a) < DigitsValue(b)
    decreases |a|
  {
    if |a| > 0 {
      DigitsFront(a);
      DigitsFront(b);
      DigitsBound(a[1..]);
      DigitsBound(b[1..]);
      var p := Pow10(|a| - 1);
      if a[0] < b[0] {
        ScaleGap(Digit(a[0]), Digit(b[0]), p);
      } else if b[0] < a[0] {
        ScaleGap(Digit(b[0]), Digit(a[0]), p);
      } else {
        LexDigits(a[1..], b[1..]);
      }
    }
  }

  /** `IndexLess` orders array-index keys by the numbers they denote. */
  lemma IndexLessNumeric(a: string, b: string)
    requires IsArrayIndex(a) && IsArrayIndex(b)
    ensures IndexLess(a, b) <==> DigitsValue(a) < DigitsValue(b)
  {
    if |a| < |b| {
      DigitsBound(a);
      Pow10Monotonic(|a|, |b| - 1);
      DigitsLeading(b);
    } else if |b| < |a| {
      DigitsBound(b);
      Pow10Monotonic(|b|, |a| - 1);
      DigitsLeading(a);
    } else {
      LexDigits(a, b);
    }
  }

  /** Where assignment puts a key the object does not have yet. */
  function InsertKey(keys: seq<string>, k: string): (r: seq<string>)
    ensures |r| == |keys| + 1
    ensures forall x :: x in r <==> x in keys || x == k
    ensures NoDup(keys) && k !in keys ==> NoDup(r)
    ensures OrderedKeys(keys) && k !in keys ==> OrderedKeys(r)
    ensures !IsArrayIndex(k) ==> r == keys + [k]
  {
    if IsArrayIndex(k) then InsertIndex(keys, k) else keys + [k]
  }

  function InsertIndex(keys: seq<string>, k: string): (r: seq<string>)
    requires IsArrayIndex(k)
    ensures |r| == |keys| + 1
    ensures forall x :: x in r <==> x in keys || x == k
    ensures NoDup(keys) && k !in keys ==> NoDup(r)
    ensures OrderedKeys(keys) && k !in keys ==> OrderedKeys(r)
  {
    if keys == [] || !IsArrayIndex(keys[0]) || IndexLess(k, keys[0]) then
      var r := [k] + keys;
      assert OrderedKeys(keys) && k !in keys ==> OrderedKeys(r) by {
        if OrderedKeys(keys) && k !in keys {
          forall j | 0 < j < |r| && IsArrayIndex(r[j])
            ensures IndexLess(k, r[j])
          {
            assert r[j] == keys[j - 1];
            if j - 1 > 0 {
              assert IsArrayIndex(keys[0]) && IndexLess(keys[0], keys[j - 1]);
              IndexLessTransitive(k, keys[0], keys[j - 1]);
            }
          }
        }
      }
      r
    else
      var rest := InsertIndex(keys[1..], k);
      var r := [keys[0]] + rest;
      assert NoDup(keys) && k !in keys ==> NoDup(r) by {
        if NoDup(keys) && k !in keys {
          assert keys[0] !in keys[1..];
          assert keys[0] !in rest;
        }
      }
      assert OrderedKeys(keys) && k !in keys ==> OrderedKeys(r) by {
        if OrderedKeys(keys) && k !in keys {
          assert OrderedKeys(keys[1..]);
          forall j | 0 < j < |r| && IsArrayIndex(r[j])
            ensures IndexLess(keys[0], r[j])
          {
            if r[j] == k {
              IndexLessTotal(k, keys[0]);
            } else {
              assert r[j] in keys[1..];
              var m :| 0 <= m < |keys| - 1 && keys[1..][m] == r[j];
              assert keys[m + 1] == r[j];
            }
          }
        }
      }
      r
  }

  /** Putting a key in front keeps the order when it precedes every index key after it. */
  lemma OrderedCons(x: string, rest: seq<string>)
    requires OrderedKeys(rest)
    requires forall m :: 0 <= m < |rest| && IsArrayIndex(rest[m]) ==> IsArrayIndex(x) && IndexLess(x, rest[m])
    ensures OrderedKeys([x] + rest)
  {
    var r := [x] + rest;
    forall i, j | 0 <= i < j < |r| && IsArrayIndex(r[j])
      ensures IsArrayIndex(r[i]) && IndexLess(r[i], r[j])
    {
      assert r[j] == rest[j - 1];
      if i > 0 {
        assert r[i] == rest[i - 1];
      }
    }
  }

  /** The key sequence after `delete`: the key is gone and the others keep their order. */
  function RemoveKey(keys: seq<string>, k: string): (r: seq<string>)
    ensures |r| <= |keys|
    ensures forall x :: x in r <==> x in keys && x != k
    ensures k !in keys ==> r == keys
  {
    if keys == [] then []
    else if keys[0] == k then RemoveKey(keys[1..], k)
    else [keys[0]] + RemoveKey(keys[1..], k)
  }

  /** `RemoveKey` works element by element, so it keeps the order of what it leaves. */
  lemma {:induction false} RemoveKeyAppend(a: seq<string>, b: seq<string>, k: string)
    ensures RemoveKey(a + b, k) == RemoveKey(a, k) + RemoveKey(b, k)
    decreases |a|
  {
    if a == [] {
      assert a + b == b;
    } else {
      assert (a + b)[0] == a[0] && (a + b)[1..] == a[1..] + b;
      RemoveKeyAppend(a[1..], b, k);
    }
  }

  lemma NoDupCons(x: string, rest: seq<string>)
    requires NoDup(rest) && x !in rest
    ensures NoDup([x] + rest)
  {
    var r := [x] + rest;
    forall i, j | 0 <= i < j < |r| ensures r[i] != r[j] {
      assert r[j] == rest[j - 1];
      if i > 0 {
        assert r[i] == rest[i - 1];
      }
    }
  }

  /** Removing a key keeps the other keys distinct. */
  lemma {:induction false} RemoveKeyNoDup(keys: seq<string>, k: string)
    requires NoDup(keys)
    ensures NoDup(RemoveKey(keys, k))
  {
    if keys != [] {
      assert NoDup(keys[1..]);
      RemoveKeyNoDup(keys[1..], k);
      if keys[0] != k {
        assert keys[0] !in keys[1..];
        NoDupCons(keys[0], RemoveKey(keys[1..], k));
      }
    }
  }

  /** Removing a key keeps the other keys in property order. */
  lemma {:induction false} RemoveKeyOrdered(keys: seq<string>, k: string)
    requires OrderedKeys(keys)
    ensures OrderedKeys(RemoveKey(keys, k))
  {
    if keys != [] {
      assert OrderedKeys(keys[1..]);
      RemoveKeyOrdered(keys[1..], k);
      if keys[0] != k {
        var rest := RemoveKey(keys[1..], k);
        forall m | 0 <= m < |rest| && IsArrayIndex(rest[m])
          ensures IsArrayIndex(keys[0]) && IndexLess(keys[0], rest[m])
        {
          assert rest[m] in keys[1..];
          var n :| 0 <= n < |keys| - 1 && keys[1..][n] == rest[m];
          assert keys[n + 1] == rest[m];
        }
        OrderedCons(keys[0], rest);
      }
    }
  }

  lemma {:induction false} RemoveAppended(keys: seq<string>, k: string)
    requires k !in keys
    ensures RemoveKey(keys + [k], k) == keys
  {
    if keys == [] {
      assert RemoveKey([k], k) == RemoveKey([], k);
    } else {
      assert (keys + [k])[1..] == keys[1..] + [k];
      RemoveAppended(keys[1..], k);
      assert keys == [keys[0]] + keys[1..];
    }
  }

  lemma {:induction false} RemoveInserted(keys: seq<string>, k: string)
    requires IsArrayIndex(k) && k !in keys
    ensures RemoveKey(InsertIndex(keys, k), k) == keys
  {
    if keys == [] || !IsArrayIndex(keys[0]) || IndexLess(k, keys[0]) {
      assert ([k] + keys)[1..] == keys;
    } else {
      var tail := InsertIndex(keys[1..], k);
      var r := [keys[0]] + tail;
      assert InsertIndex(keys, k) == r;
      assert r[0] == keys[0] && r[0] != k && r[1..] == tail;
      assert RemoveKey(r, k) == [keys[0]] + RemoveKey(tail, k);
      RemoveInserted(keys[1..], k);
      assert keys == [keys[0]] + keys[1..];
    }
  }

  /** Deleting a key that was just inserted restores the key order exactly. */
  lemma RemoveInsertKey(keys: seq<string>, k: string)
    requires k !in keys
    ensures RemoveKey(InsertKey(keys, k), k) == keys
  {
    if IsArrayIndex(k) {
      RemoveInserted(keys, k);
    } else {
      RemoveAppended(keys, k);
    }
  }

  // ---------------------------------------------------------------------------
  // Property access on the store.
  // ---------------------------------------------------------------------------

  /** `obj[k]` on the container `r`: None stands for `undefined`. */
  function Lookup(store: Store, r: Ref, k: string): Option<Value> {
    if r in store && k in store[r].vals then Some(store[r].vals[k]) else None
  }

  /** `obj[k] = v`: a new key takes its place in property order, an existing one keeps it. */
  function Assign(store: Store, r: Ref, k: string, v: Value): (s: Store)
    ensures s.Keys == store.Keys
    ensures r in store ==> Lookup(s, r, k) == Some(v)
    ensures forall r', k' :: r' != r || k' != k ==> Lookup(s, r', k') == Lookup(store, r', k')
    ensures forall r' :: r' in store && r' != r ==> s[r'] == store[r']
    ensures r in store && k in store[r].keys ==> s[r].keys == store[r].keys
    ensures r in store && k !in store[r].keys ==> s[r].keys == InsertKey(store[r].keys, k)
    ensures r in store && WellFormed(store[r]) ==> WellFormed(s[r])
    ensures r in store && OrderedKeys(store[r].keys) ==> OrderedKeys(s[r].keys)
  {
    if r !in store then store
    else
      var c := store[r];
      var keys := if k in c.keys then c.keys else InsertKey(c.keys, k);
      store[r := Container(keys, c.vals[k := v])]
  }

  /** `delete obj[k]`: the key leaves both the value map and the property order. */
  function Delete(store: Store, r: Ref, k: string): (s: Store)
    ensures s.Keys == store.Keys
    ensures Lookup(s, r, k) == None
    ensures forall r', k' :: r' != r || k' != k ==> Lookup(s, r', k') == Lookup(store, r', k')
    ensures forall r' :: r' in store && r' != r ==> s[r'] == store[r']
    ensures r in store ==> s[r].keys == RemoveKey(store[r].keys, k)
    ensures r in store ==> (forall x :: x in s[r].keys <==> x in store[r].keys && x != k)
    ensures r in store && WellFormed(store[r]) ==> WellFormed(s[r])
    ensures r in store && OrderedKeys(store[r].keys) ==> OrderedKeys(s[r].keys)
    ensures Lookup(store, r, k) == None && (r in store ==> k !in store[r].keys) ==> s == store
  {
    if r !in store then store
    else
      var c := store[r];
      assert WellFormed(c) ==> NoDup(RemoveKey(c.keys, k)) by {
        if WellFormed(c) {
          RemoveKeyNoDup(c.keys, k);
        }
      }
      assert OrderedKeys(c.keys) ==> OrderedKeys(RemoveKey(c.keys, k)) by {
        if OrderedKeys(c.keys) {
          RemoveKeyOrdered(c.keys, k);
        }
      }
      var s := store[r := Container(RemoveKey(c.keys, k), c.vals - {k})];
      assert Lookup(store, r, k) == None && k !in c.keys ==> s == store by {
        if Lookup(store, r, k) == None && k !in c.keys {
          assert c.vals - {k} == c.vals;
        }
      }
      s
  }
}
