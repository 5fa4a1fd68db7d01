/** One element taken out of a sequence, or put in. */
module Splice {
  /** s without element k */
  function Without<X>(s: seq<X>, k: nat): (r: seq<X>)
    requires k < |s|
    ensures |r| == |s| - 1
    ensures forall i {:trigger r[i]} :: 0 <= i < |r| ==> r[i] == if i < k then s[i] else s[i + 1]
  {
    s[..k] + s[k + 1..]
  }

  /** s with x put in before position k */
  function With<X>(s: seq<X>, k: nat, x: X): (r: seq<X>)
    requires k <= |s|
    ensures |r| == |s| + 1 && r[k] == x
    ensures forall i {:trigger r[i]} :: 0 <= i < |r| && i != k ==> r[i] == if i < k then s[i] else s[i - 1]
  {
    s[..k] + [x] + s[k..]
  }

  lemma WithParts<X>(s: seq<X>, k: nat, x: X)
    requires k <= |s|
    ensures s == s[..k] + s[k..] && With(s, k, x) == s[..k] + [x] + s[k..]
  {}

  lemma WithElements<X>(s: seq<X>, k: nat, x: X)
    requires k <= |s|
    ensures multiset(With(s, k, x)) == multiset(s) + multiset{x}
    ensures forall t :: t in With(s, k, x) <==> t in s || t == x
  {
    assert s == s[..k] + s[k..];
  }
}
