/**
 * The doorbell helper: a fixed array of send requests linked into a chain, of which a prefix
 * is filled, frozen for posting and then cleared for the next batch. A link is a place in
 * the array; the place after the last stands for the pointer past its end.
 */
module Doorbell {
  import opened Chains

  /** `cur_idx` is an 8-bit signed number, so an array of up to 128 requests can be filled. */
  const MAX_REQUESTS := 128

  function Fresh(n: nat): (next: seq<int>)
    requires 0 < n
    ensures |next| == n
  {
    seq(n, i requires 0 <= i < n => if i == n - 1 then 0 else i + 1)
  }

  /** Every link but the last leads to the next request; the last may lead anywhere but to null. */
  predicate Linked(next: seq<int>) {
    && next != []
    && (forall i :: 0 <= i < |next| - 1 ==> next[i] == i + 1)
    && next[|next| - 1] != NULL
  }

  function Prefix(k: nat): (p: seq<int>)
    ensures |p| == k
  {
    seq(k, i requires 0 <= i < k => i)
  }

  lemma {:induction false} FrozenWalk(next: seq<int>, k: nat, j: nat)
    requires j < k <= |next| && next[k - 1] == NULL && forall i :: 0 <= i < k - 1 ==> next[i] == i + 1
    ensures Walks(next, j, Prefix(k)[j..])
    decreases k - j
  {
    var path := Prefix(k)[j..];
    assert path[0] == j && path[1..] == Prefix(k)[j + 1..];
    if j + 1 < k {
      FrozenWalk(next, k, j + 1);
    }
  }

  /** What sanity_check_sz counts: one more than the place of the first null link, if any. */
  function SizeFrom(next: seq<int>, i: nat): nat
    requires i <= |next|
    decreases |next| - i
  {
    if i == |next| || next[i] == NULL then i + 1 else SizeFrom(next, i + 1)
  }

  lemma {:induction false} SizeOfFrozen(next: seq<int>, k: nat, j: nat)
    requires j < k <= |next| && next[k - 1] == NULL && forall i :: 0 <= i < k - 1 ==> next[i] != NULL
    ensures SizeFrom(next, j) == k
    decreases k - j
  {
    if j + 1 < k {
      SizeOfFrozen(next, k, j + 1);
    }
  }

  /** The count is the place of the first null link, from one on, or one more than the array has. */
  lemma {:induction false} SizeIsFirstNull(next: seq<int>, i: nat)
    requires i <= |next|
    ensures var n := SizeFrom(next, i);
            && i < n <= |next| + 1 && (n <= |next| ==> next[n - 1] == NULL)
            && forall j :: i <= j < n - 1 ==> next[j] != NULL
    decreases |next| - i
  {
    if i < |next| && next[i] != NULL {
      SizeIsFirstNull(next, i + 1);
    }
  }

  /** A frozen batch of `k` requests is the chain of the first `k`, in order. */
  lemma FrozenChain(next: seq<int>, k: nat)
    requires Linked(next) && 1 <= k <= |next|
    ensures Walks(next[k - 1 := NULL], 0, Prefix(k))
    ensures SizeFrom(next[k - 1 := NULL], 0) == k
  {
    FrozenWalk(next[k - 1 := NULL], k, 0);
    SizeOfFrozen(next[k - 1 := NULL], k, 0);
    assert Prefix(k)[0..] == Prefix(k);
  }

  // ---- batches, on values ----

  datatype Bell = Bell(next: seq<int>, cur: int)

  function NextSpec(b: Bell): Bell {
    if b.cur + 1 == |b.next| then b else b.(cur := b.cur + 1)
  }

  function NextTimes(b: Bell, k: nat): Bell {
    if k == 0 then b else NextSpec(NextTimes(b, k - 1))
  }

  function FreezeSpec(b: Bell): Bell
    requires 0 <= b.cur < |b.next|
  {
    b.(next := b.next[b.cur := NULL])
  }

  /** freeze_done links the current request to the place after it, be it past the end. */
  function FreezeDoneSpec(b: Bell): Bell
    requires 0 <= b.cur < |b.next|
  {
    b.(next := b.next[b.cur := b.cur + 1])
  }

  function ClearSpec(b: Bell): Bell
    requires 0 <= b.cur < |b.next|
  {
    FreezeDoneSpec(b).(cur := -1)
  }

  predicate Ready(b: Bell) {
    Linked(b.next) && b.cur == -1
  }

  lemma {:induction false} NextTimesFills(b: Bell, k: nat)
    requires Ready(b)
    ensures NextTimes(b, k) == b.(cur := if k <= |b.next| then k - 1 else |b.next| - 1)
  {
    if k > 0 {
      NextTimesFills(b, k - 1);
    }
  }

  /** One batch: some calls of next, then freeze, then clear. */
  function Batch(b: Bell, k: nat): (b': Bell)
    requires Ready(b) && 0 < k
    ensures Ready(b') && |b'.next| == |b.next|
  {
    NextTimesFills(b, k);
    ClearSpec(FreezeSpec(NextTimes(b, k)))
  }

  function Batches(b: Bell, ks: seq<nat>): (b': Bell)
    requires Ready(b) && forall i :: 0 <= i < |ks| ==> 0 < ks[i]
    ensures Ready(b') && |b'.next| == |b.next|
    decreases |ks|
  {
    if ks == [] then b else Batches(Batch(b, ks[0]), ks[1..])
  }

  /**
   * After any history of batches, filling `k` requests and freezing hands over exactly the
   * first `k`, although a full batch leaves the last link past the end of the array.
   */
  lemma BatchChain(n: nat, ks: seq<nat>, k: nat)
    requires 1 <= k <= n && forall i :: 0 <= i < |ks| ==> 0 < ks[i]
    ensures var b := NextTimes(Batches(Bell(Fresh(n), -1), ks), k);
            && b.cur == k - 1 && |b.next| == n
            && Walks(FreezeSpec(b).next, 0, Prefix(k))
            && SizeFrom(FreezeSpec(b).next, 0) == k
  {
    var b := Batches(Bell(Fresh(n), -1), ks);
    NextTimesFills(b, k);
    FrozenChain(b.next, k);
  }

  /**
   * freeze_done undoes freeze exactly when it is not at the last request of the built ring;
   * there it leaves a link past the end.
   */
  lemma FreezeDoneRestoresIff(n: nat, cur: nat)
    requires cur < n
    ensures FreezeDoneSpec(FreezeSpec(Bell(Fresh(n), cur))) == Bell(Fresh(n), cur) <==> cur < n - 1
    ensures FreezeDoneSpec(FreezeSpec(Bell(Fresh(n), n - 1))) == Bell(Fresh(n)[n - 1 := n], n - 1)
  {
    var frozen := FreezeDoneSpec(FreezeSpec(Bell(Fresh(n), cur)));
    assert frozen.next[cur] == cur + 1;
    if cur < n - 1 {
      assert frozen.next == Fresh(n);
    }
  }

  // ---- the object ----

  class DoorbellHelper {
    const next: array<int>
    var curIdx: int

    ghost predicate Valid()
      reads this
    {
      0 < next.Length <= MAX_REQUESTS && -1 <= curIdx < next.Length
    }

    ghost function View(): Bell
      reads this, next
    {
      Bell(next[..], curIdx)
    }

    constructor (n: nat)
      requires 0 < n <= MAX_REQUESTS
      ensures Valid() && fresh(next) && View() == Bell(Fresh(n), -1)
    {
      var links := new int[n];
      for i := 0 to n
        invariant forall j :: 0 <= j < i ==> links[j] == j + 1
      {
        links[i] := i + 1;
      }
      links[n - 1] := 0;
      next := links;
      curIdx := -1;
      new;
      assert next[..] == Fresh(n);
    }

    method Next() returns (ok: bool)
      requires Valid()
      modifies `curIdx
      ensures Valid() && View() == NextSpec(old(View()))
      ensures ok <==> old(curIdx) + 1 < next.Length
    {
      if curIdx + 1 == next.Length {
        return false;
      }
      curIdx := curIdx + 1;
      return true;
    }

    method Freeze()
      requires Valid() && curIdx >= 0
      modifies next
      ensures View() == FreezeSpec(old(View()))
    {
      next[curIdx] := NULL;
    }

    method FreezeDone()
      requires Valid() && curIdx >= 0
      modifies next
      ensures View() == FreezeDoneSpec(old(View()))
    {
      next[curIdx] := curIdx + 1;
    }

    method Clear()
      requires Valid() && curIdx >= 0
      modifies `curIdx, next
      ensures Valid() && View() == ClearSpec(old(View()))
    {
      FreezeDone();
      curIdx := -1;
    }

    method FreezeAt(idx: nat)
      requires idx < next.Length
      modifies next
      ensures next[..] == old(next[..])[idx := NULL]
    {
      next[idx] := NULL;
    }

    /** Unlike freeze_done, this closes the ring again at the last request. */
    method FreezeDoneAt(idx: nat)
      requires idx < next.Length
      modifies next
      ensures next[..] == old(next[..])[idx := Fresh(next.Length)[idx]]
    {
      if idx == next.Length - 1 {
        next[idx] := 0;
      } else {
        next[idx] := idx + 1;
      }
    }

    /** freeze_at and freeze_done_at at the same place leave a built ring as it was. */
    method FreezeAtRoundTrip(idx: nat)
      requires idx < next.Length && next[..] == Fresh(next.Length)
      modifies next
      ensures next[..] == old(next[..])
    {
      FreezeAt(idx);
      FreezeDoneAt(idx);
    }

    /** sanity_check_sz: counts along the chain; more than fits means that no link is null. */
    method SanityCheckSz() returns (n: nat)
      requires Valid()
      requires forall i :: 0 <= i < next.Length - 1 ==> next[i] == i + 1 || next[i] == NULL
      ensures n == if curIdx == -1 then 0 else SizeFrom(next[..], 0)
    {
      var cur := 0;
      if curIdx + 1 == 0 {
        return 0;
      }
      for i := 0 to next.Length
        invariant i < next.Length ==> cur == i
        invariant SizeFrom(next[..], 0) == SizeFrom(next[..], i)
      {
        cur := next[cur];
        if cur == NULL {
          return i + 1;
        }
      }
      return next.Length + 1;
    }
  }
}
