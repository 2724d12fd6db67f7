/** More pigeons than holes. */
module Pigeonhole {
  ghost predicate Clash(f: nat -> nat, n: nat) { exists i, j :: 0 <= i < j < n && f(i) == f(j) }

  /** What is left of `f` without pigeon `k`, the last of `n` taking its place. */
  function Skip(f: nat -> nat, n: nat, k: nat): nat -> nat
    requires 0 < n
  {
    (i: nat) => if i == k then f(n - 1) else f(i)
  }

  lemma SkipClash(f: nat -> nat, n: nat, k: nat)
    requires k < n && Clash(Skip(f, n, k), n - 1)
    ensures Clash(f, n)
  {
    var g := Skip(f, n, k);
    var i, j :| 0 <= i < j < n - 1 && g(i) == g(j);
    var i', j' := if i == k then n - 1 else i, if j == k then n - 1 else j;
    assert f(i') == f(j');
    if i' < j' { assert Clash(f, n); } else { assert f(j') == f(i'); }
  }

  /** Of `n` pigeons in `m < n` holes, two share a hole. */
  lemma {:induction false} TwoShare(f: nat -> nat, n: nat, m: nat)
    requires m < n && forall i: nat :: i < n ==> f(i) < m
    ensures Clash(f, n)
    decreases m
  {
    assert f(0) < m;
    if k: nat :| k < n && f(k) == m - 1 {
      if l: nat :| l < n && l != k && f(l) == m - 1 {
        var i, j := if k < l then k else l, if k < l then l else k;
        assert f(i) == f(j);
      } else {
        TwoShare(Skip(f, n, k), n - 1, m - 1);
        SkipClash(f, n, k);
      }
    } else {
      TwoShare(f, n, m - 1);
    }
  }
}
