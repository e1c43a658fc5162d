/**
 * The two string built-ins the pointer code relies on: `String.prototype.replace`
 * with a string pattern (which replaces the first occurrence only) and
 * `String.prototype.split('/')`, with `Array.prototype.join('/')` as its inverse.
 */
module JsStrings {
  import opened Wrappers

  /** `pat` occurs in `s` starting at position `i`. */
  predicate OccursAt(s: string, pat: string, i: nat) {
    i + |pat| <= |s| && s[i..i + |pat|] == pat
  }

  /** `s.indexOf(pat, from)`: the least position at or after `from` where `pat` occurs. */
  function IndexFrom(s: string, pat: string, from: nat): (r: Option<nat>)
    ensures r.Some? ==> from <= r.value && OccursAt(s, pat, r.value)
    ensures r.Some? ==> forall j :: from <= j < r.value ==> !OccursAt(s, pat, j)
    ensures r.None? ==> forall j :: from <= j ==> !OccursAt(s, pat, j)
    decreases |s| - from
  {
    if from + |pat| > |s| then None
    else if OccursAt(s, pat, from) then Some(from)
    else IndexFrom(s, pat, from + 1)
  }

  /** `s.replace(pat, rep)` with a string pattern. */
  function ReplaceFirst(s: string, pat: string, rep: string): string {
    match IndexFrom(s, pat, 0)
    case None => s
    case Some(i) => s[..i] + rep + s[i + |pat|..]
  }

  /**
   * Only the first occurrence of the pattern is replaced; every later one is
   * left as it is, and a string without the pattern is returned unchanged.
   */
  lemma ReplaceFirstSpec(s: string, pat: string, rep: string)
    ensures (forall j: nat :: !OccursAt(s, pat, j)) ==> ReplaceFirst(s, pat, rep) == s
    ensures forall i: nat :: OccursAt(s, pat, i) && (forall j: nat :: j < i ==> !OccursAt(s, pat, j)) ==>
      ReplaceFirst(s, pat, rep) == s[..i] + rep + s[i + |pat|..]
  {
    match IndexFrom(s, pat, 0)
    case None =>
    case Some(k) =>
      forall i: nat | OccursAt(s, pat, i) && (forall j: nat :: j < i ==> !OccursAt(s, pat, j))
        ensures i == k
      {
      }
  }

  /** The position of the last '/' in `s`. */
  function LastSlash(s: string): (r: Option<nat>)
    ensures r.Some? ==> r.value < |s| && s[r.value] == '/' && '/' !in s[r.value + 1..]
    ensures r.None? ==> '/' !in s
  {
    if s == [] then None
    else if s[|s| - 1] == '/' then Some(|s| - 1)
    else
      var r := LastSlash(s[..|s| - 1]);
      assert r.Some? ==> s[r.value + 1..] == s[..|s| - 1][r.value + 1..] + [s[|s| - 1]];
      assert s == s[..|s| - 1] + [s[|s| - 1]];
      r
  }

  /** `s.split('/')`: the pieces between the slashes, with empty pieces kept. */
  function Split(s: string): (r: seq<string>)
    ensures |r| >= 1
    ensures forall i :: 0 <= i < |r| ==> '/' !in r[i]
    decreases |s|
  {
    match LastSlash(s)
    case None => [s]
    case Some(i) => Split(s[..i]) + [s[i + 1..]]
  }

  /** `segs.join('/')`. */
  function Join(segs: seq<string>): string {
    if segs == [] then ""
    else if |segs| == 1 then segs[0]
    else Join(segs[..|segs| - 1]) + "/" + segs[|segs| - 1]
  }

  /** Splitting a string and joining the pieces again gives the string back. */
  lemma {:induction false} JoinSplit(s: string)
    ensures Join(Split(s)) == s
    decreases |s|
  {
    match LastSlash(s)
    case None =>
    case Some(i) =>
      var front := Split(s[..i]);
      JoinSplit(s[..i]);
      assert Split(s) == front + [s[i + 1..]];
      assert (front + [s[i + 1..]])[..|front|] == front;
      assert s == s[..i] + "/" + s[i + 1..];
  }

  /** Appending a slash and a slash-free piece appends one segment. */
  lemma SplitAppend(p: string, x: string)
    requires '/' !in x
    ensures Split(p + "/" + x) == Split(p) + [x]
  {
    var q := p + "/" + x;
    assert q[|p|] == '/';
    assert LastSlash(q) == Some(|p|);
    assert q[..|p|] == p && q[|p| + 1..] == x;
  }

  /** Joining slash-free pieces and splitting the result gives the pieces back. */
  lemma {:induction false} SplitJoin(segs: seq<string>)
    requires |segs| >= 1
    requires forall i :: 0 <= i < |segs| ==> '/' !in segs[i]
    ensures Split(Join(segs)) == segs
  {
    if |segs| == 1 {
      assert LastSlash(segs[0]).None?;
    } else {
      var front := segs[..|segs| - 1];
      SplitJoin(front);
      SplitAppend(Join(front), segs[|segs| - 1]);
      assert segs == front + [segs[|segs| - 1]];
    }
  }

  /**
   * The first segment is the longest slash-free prefix: it is a prefix of `s`,
   * and unless it is all of `s` a slash follows it.
   */
  lemma {:induction false} SplitHead(s: string)
    ensures |Split(s)[0]| <= |s| && Split(s)[0] == s[..|Split(s)[0]|]
    ensures |Split(s)[0]| < |s| ==> s[|Split(s)[0]|] == '/'
    decreases |s|
  {
    match LastSlash(s)
    case None =>
    case Some(i) =>
      SplitHead(s[..i]);
      assert Split(s)[0] == Split(s[..i])[0];
  }
}
