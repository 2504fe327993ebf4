/** Null-terminated chains of work requests, linked by their places in an array. */
module Chains {
  const NULL := -1

  /** Following links from `at` visits exactly `path` and then null. */
  predicate Walks(next: seq<int>, at: int, path: seq<int>)
    decreases |path|
  {
    if path == [] then at == NULL
    else at == path[0] && 0 <= at < |next| && Walks(next, next[at], path[1..])
  }

  /** There is at most one such path. */
  lemma {:induction false} WalkIsUnique(next: seq<int>, at: int, p: seq<int>, q: seq<int>)
    requires Walks(next, at, p) && Walks(next, at, q)
    ensures p == q
    decreases |p|
  {
    if p != [] && q != [] {
      WalkIsUnique(next, next[at], p[1..], q[1..]);
      assert p == [p[0]] + p[1..] && q == [q[0]] + q[1..];
    }
  }
}
