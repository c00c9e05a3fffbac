/** The first-match search that the plugin's searches perform: over the
    logical children, over the page's metadata and over the preceding
    workflow steps. */
module Seqs {
  import opened Wrappers

  /** The index of the first occurrence of `x` in `s`, or None when `x` does
      not occur at all (a Java for-each loop with `break` on the first hit). */
  function FirstIndexOf<T(==)>(s: seq<T>, x: T): (r: Option<nat>)
    ensures r.None? <==> x !in s
    ensures r.Some? ==> r.value < |s| && s[r.value] == x && x !in s[..r.value]
  {
    if s == [] then None
    else if s[0] == x then Some(0)
    else
      match FirstIndexOf(s[1..], x)
      case None => None
      case Some(i) =>
        assert s[1..][..i] == s[1..i + 1];
        assert s[..i + 1] == [s[0]] + s[1..i + 1];
        Some(i + 1)
  }

  /** The contract of FirstIndexOf determines its result: any index of `x`
      that has no earlier occurrence of `x` before it is the one it returns. */
  lemma FirstIndexOfUnique<T>(s: seq<T>, x: T, k: nat)
    requires k < |s| && s[k] == x
    requires forall j :: 0 <= j < k ==> s[j] != x
    ensures FirstIndexOf(s, x) == Some(k)
  {
  }

  /** The projection `f` applied to every element, in order. */
  function Map<A, B>(s: seq<A>, f: A -> B): (r: seq<B>)
    ensures |r| == |s|
    ensures forall i :: 0 <= i < |s| ==> r[i] == f(s[i])
  {
    seq(|s|, i requires 0 <= i < |s| => f(s[i]))
  }
}
