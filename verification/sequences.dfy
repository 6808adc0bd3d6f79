/** Searching sequences front to back, as the `for ... break` loops of the
    media code do. */
module Sequences {

  import opened Results

  /** The index of the first element satisfying `p`, if any. */
  function FirstIndex<T>(s: seq<T>, p: T -> bool): (r: Option<nat>)
    ensures r.Some? ==> r.value < |s| && p(s[r.value])
    ensures r.Some? ==> forall j | 0 <= j < r.value :: !p(s[j])
    ensures r.None? ==> forall j | 0 <= j < |s| :: !p(s[j])
  {
    if s == [] then None
    else if p(s[0]) then Some(0)
    else
      match FirstIndex(s[1..], p)
      case None => None
      case Some(k) => Some(k + 1)
  }

  /** `s[..k]` has no element satisfying `p` and `s[k]` has: `k` is the
      first such index. */
  predicate IsFirst<T>(s: seq<T>, p: T -> bool, k: int) {
    0 <= k < |s| && p(s[k]) && forall j | 0 <= j < k :: !p(s[j])
  }

  /** The first index is the only index that is first. */
  lemma FirstIndexUnique<T>(s: seq<T>, p: T -> bool, k: int)
    requires IsFirst(s, p, k)
    ensures FirstIndex(s, p) == Some(k)
  {
  }

  /** What follows the first match does not change where it is. */
  lemma FirstIndexPrefix<T>(s: seq<T>, p: T -> bool, k: nat, rest: seq<T>)
    requires IsFirst(s, p, k)
    ensures FirstIndex(s[..k + 1] + rest, p) == Some(k)
  {
    var t := s[..k + 1] + rest;
    assert forall j | 0 <= j <= k :: t[j] == s[j];
    FirstIndexUnique(t, p, k);
  }

  /** The value of the first present option, if any. */
  function FirstSome<T>(xs: seq<Option<T>>): (r: Option<T>)
    ensures r.None? <==> forall k | 0 <= k < |xs| :: xs[k].None?
    ensures r.Some? ==> r in xs
  {
    if xs == [] then None
    else if xs[0].Some? then xs[0]
    else
      var r := FirstSome(xs[1..]);
      assert forall k | 1 <= k < |xs| :: xs[1..][k - 1] == xs[k];
      r
  }

  /** The first present option is the one returned. */
  lemma {:induction false} FirstSomeAt<T>(xs: seq<Option<T>>, k: nat)
    requires k < |xs| && xs[k].Some? && forall j | 0 <= j < k :: xs[j].None?
    ensures FirstSome(xs) == xs[k]
    decreases k
  {
    if k > 0 {
      assert forall j | 0 <= j < k - 1 :: xs[1..][j] == xs[j + 1];
      FirstSomeAt(xs[1..], k - 1);
    }
  }
}
