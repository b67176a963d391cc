/** The "first maximum" scan that both GetFurthestInDirection (collision/main.cpp:27-37) and
    FindClosestEdge (collision/main.cpp:73-103) perform: the running best is replaced only on a
    strictly better value, so ties go to the earliest index. */
module ArgMax {

  /** Index of the first maximum among `xs[..n]`, computed as the scan does: one element at a time. */
  function FirstMaxUpTo(xs: seq<real>, n: nat): (k: nat)
    requires 1 <= n <= |xs|
    ensures k < n
  {
    if n == 1 then 0
    else
      var k := FirstMaxUpTo(xs, n - 1);
      if xs[n - 1] > xs[k] then n - 1 else k
  }

  /** One more step of the scan: the new element replaces the best so far only when strictly larger. */
  lemma FirstMaxStep(xs: seq<real>, n: nat, best: nat, next: real, top: real)
    requires 1 <= n < |xs| && best == FirstMaxUpTo(xs, n)
    requires xs[n] == next && xs[best] == top
    ensures FirstMaxUpTo(xs, n + 1) == if next > top then n else best
  {
  }

  /** `k` is the first maximum of `xs[..n]`: nothing is larger, and everything before it is smaller. */
  predicate IsFirstMax(xs: seq<real>, n: nat, k: nat)
    requires n <= |xs|
  {
    k < n
    && (forall j :: 0 <= j < n ==> xs[j] <= xs[k])
    && (forall j :: 0 <= j < k ==> xs[j] < xs[k])
  }

  lemma {:induction false} FirstMaxUpToIsFirstMax(xs: seq<real>, n: nat)
    requires 1 <= n <= |xs|
    ensures IsFirstMax(xs, n, FirstMaxUpTo(xs, n))
  {
    if n > 1 {
      FirstMaxUpToIsFirstMax(xs, n - 1);
    }
  }

  /** The first maximum is unique, so IsFirstMax determines the scan's answer. */
  lemma FirstMaxUnique(xs: seq<real>, n: nat, k: nat, k': nat)
    requires n <= |xs|
    requires IsFirstMax(xs, n, k) && IsFirstMax(xs, n, k')
    ensures k == k'
  {
    assert xs[k'] <= xs[k] && xs[k] <= xs[k'];
  }
}
