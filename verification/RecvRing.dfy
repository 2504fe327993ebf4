/**
 * Receive entries: an intrusive circular list that is cut to post a stretch of it, spliced
 * back and rotated; the NIC's receive and completion queues; and the iterator that polls
 * completions and reposts their entries when it is cleared. Entries are numbered by their
 * place in the array.
 */
module RecvRing {
  import opened Chains
  import opened Wrappers

  /** `(i + 1) % n` for an index `i` of `n` entries. */
  function Succ(i: nat, n: nat): (s: nat)
    requires i < n
    ensures s < n
  {
    if i + 1 == n then 0 else i + 1
  }

  function Wrap(i: nat, n: nat): nat {
    if i >= n then i - n else i
  }

  predicate IsRing(next: seq<int>) {
    forall i :: 0 <= i < |next| ==> next[i] == Succ(i, |next|)
  }

  /** A ring that posts may have cut in any places. */
  predicate LinkedOrCut(next: seq<int>) {
    forall i :: 0 <= i < |next| ==> next[i] == Succ(i, |next|) || next[i] == NULL
  }

  /** `k` entries of an `n`-ring, from `h` on. */
  function Span(h: nat, k: nat, n: nat): (s: seq<int>)
    requires h < n && k <= n
    ensures |s| == k
    ensures forall j :: 0 <= j < k ==> s[j] == Wrap(h + j, n)
  {
    seq(k, j requires 0 <= j < k => Wrap(h + j, n))
  }

  /** The index that post_recvs cuts behind. */
  function Tail(h: nat, num: nat, n: nat): (t: nat)
    requires h < n && 1 <= num <= n
    ensures t < n
  {
    Wrap(h + num - 1, n)
  }

  // ---- cutting the ring ----

  /** How many entries from `h` on are linked, up to `num` of them: those before the first cut. */
  function Reach(next: seq<int>, h: nat, num: nat): (k: nat)
    requires h < |next| && 1 <= num <= |next| && LinkedOrCut(next)
    ensures 1 <= k <= num && (IsRing(next) ==> k == num)
    ensures k == num || next[Span(h, num, |next|)[k - 1]] == NULL
    ensures forall j :: 0 <= j < k - 1 ==> next[Span(h, num, |next|)[j]] != NULL
    decreases num
  {
    if num == 1 || next[h] == NULL then 1
    else
      SpanTail(h, num, |next|);
      1 + Reach(next, Succ(h, |next|), num - 1)
  }

  lemma SpanTail(h: nat, num: nat, n: nat)
    requires h < n && 2 <= num <= n
    ensures forall j :: 1 <= j < num ==> Span(h, num, n)[j] == Span(Succ(h, n), num - 1, n)[j - 1]
  {
  }

  lemma {:induction false} CutWalk(next: seq<int>, h: nat, num: nat, j: nat)
    requires h < |next| && 1 <= num <= |next| && LinkedOrCut(next) && j < Reach(next, h, num)
    ensures Walks(next[Tail(h, num, |next|) := NULL], Wrap(h + j, |next|),
                  Span(h, Reach(next, h, num), |next|)[j..])
    decreases num - j
  {
    var n, k := |next|, Reach(next, h, num);
    var cut := next[Tail(h, num, n) := NULL];
    var here := Wrap(h + j, n);
    assert Span(h, k, n)[j..][0] == here == Span(h, num, n)[j];
    assert Span(h, k, n)[j..][1..] == Span(h, k, n)[j + 1..];
    if j + 1 < k {
      CutWalk(next, h, num, j + 1);
      assert cut[here] == Wrap(h + j + 1, n);
    } else {
      assert Span(h, k, n)[j + 1..] == [];
    }
  }

  /**
   * The chain handed to the NIC: from the header on, around the end, up to the first cut, and
   * `num` entries on a whole ring; then null. There is no other.
   */
  lemma CutChain(next: seq<int>, h: nat, num: nat)
    requires h < |next| && 1 <= num <= |next| && LinkedOrCut(next)
    ensures var cut, chain := next[Tail(h, num, |next|) := NULL], Span(h, Reach(next, h, num), |next|);
            && Walks(cut, h, chain)
            && forall path :: Walks(cut, h, path) ==> path == chain
    ensures IsRing(next) ==> Reach(next, h, num) == num
  {
    var cut, chain := next[Tail(h, num, |next|) := NULL], Span(h, Reach(next, h, num), |next|);
    CutWalk(next, h, num, 0);
    assert chain[0..] == chain;
    forall path | Walks(cut, h, path)
      ensures path == chain
    {
      WalkIsUnique(cut, h, path, chain);
    }
  }

  lemma SuccIsMod(i: nat, n: nat)
    requires i < n
    ensures (i + 1) % n == Succ(i, n)
  {
  }

  lemma SpanSplit(h: nat, k: nat, m: nat, n: nat)
    requires h < n && k < n && k + m <= n
    ensures Span(h, k + m, n) == Span(h, k, n) + Span(Wrap(h + k, n), m, n)
  {
    var whole, second := Span(h, k + m, n), Span(Wrap(h + k, n), m, n);
    forall j | 0 <= j < m
      ensures whole[k + j] == second[j]
    {
      assert whole[k + j] == Wrap(h + (k + j), n);
    }
    assert whole[k..] == second;
    assert whole[..k] == Span(h, k, n);
  }

  lemma SpanDistinct(h: nat, k: nat, n: nat)
    requires h < n && k <= n
    ensures forall i, j :: 0 <= i < j < k ==> Span(h, k, n)[i] != Span(h, k, n)[j]
  {
  }

  // ---- a run, on values ----

  /** `iters` holds, per iterator in the order they polled, the entries polled and not reposted. */
  datatype Ring = Ring(
    next: seq<int>, header: nat, posted: seq<int>, completed: seq<int>, wcs: seq<int>, iters: seq<seq<int>>)

  datatype Action = Arrive | Poll(count: nat) | Clear(iter: nat)

  function Flatten(ss: seq<seq<int>>): seq<int> {
    if ss == [] then [] else ss[0] + Flatten(ss[1..])
  }

  predicate WellFormed(r: Ring) {
    IsRing(r.next) && r.header < |r.next| && |r.wcs| == |r.next|
    && forall i :: 0 <= i < |r.iters| ==> |r.iters[i]| <= |r.next|
  }

  /** The entries that the NIC takes over when `num` of them are posted. */
  function Chain(r: Ring, num: nat): seq<int>
    requires WellFormed(r) && num <= |r.next|
  {
    Span(r.header, num, |r.next|)
  }

  predicate Enabled(r: Ring, a: Action) {
    match a
    case Arrive => r.posted != []
    case Poll(k) => k <= |r.completed| && k <= |r.next|
    case Clear(i) => i < |r.iters|
  }

  /**
   * post_recvs, when the driver has room for `room` more entries: cut behind the stretch,
   * post what is linked of it, and on success alone splice and rotate.
   */
  function PostSpec(r: Ring, num: nat, room: nat): (r': Ring)
    requires r.header < |r.next| && 1 <= num <= |r.next| && LinkedOrCut(r.next)
    ensures |r'.next| == |r.next| && r'.header < |r'.next| && LinkedOrCut(r'.next)
  {
    var n := |r.next|;
    var tail, chain := Tail(r.header, num, n), Span(r.header, Reach(r.next, r.header, num), n);
    if |chain| <= room then r.(header := Succ(tail, n), posted := r.posted + chain)
    else r.(next := r.next[tail := NULL], posted := r.posted + chain[..room])
  }

  /** clear: posts as many entries as the iterator polled, and forgets them either way. */
  function ClearSpec(r: Ring, i: nat, room: nat): Ring
    requires r.header < |r.next| && LinkedOrCut(r.next) && i < |r.iters| && |r.iters[i]| <= |r.next|
  {
    if r.iters[i] == [] then r else PostSpec(r, |r.iters[i]|, room).(iters := r.iters[i := []])
  }

  function PollSpec(r: Ring, k: nat): Ring
    requires k <= |r.completed| && k <= |r.wcs|
  {
    r.(completed := r.completed[k..], iters := r.iters + [r.completed[..k]],
       wcs := r.completed[..k] + r.wcs[k..])
  }

  function Step(r: Ring, a: Action): Ring
    requires WellFormed(r) && Enabled(r, a)
  {
    match a
    case Arrive => r.(posted := r.posted[1..], completed := r.completed + [r.posted[0]])
    case Poll(k) => PollSpec(r, k)
    case Clear(i) => ClearSpec(r, i, |r.iters[i]|)
  }

  /** Reading the ring from its header: polled entries, then completed ones, then posted ones. */
  predicate Inv(r: Ring) {
    && WellFormed(r)
    && Flatten(r.iters) + r.completed + r.posted == Span(r.header, |r.next|, |r.next|)
  }

  /** Every iterator that polled before `i` has been cleared or got nothing. */
  predicate Oldest(r: Ring, i: nat)
    requires i < |r.iters|
  {
    Flatten(r.iters[..i]) == []
  }

  /** Iterators that hold entries are cleared in the order in which they polled. */
  predicate InOrder(r: Ring, a: Action)
    requires Enabled(r, a)
  {
    a.Clear? ==> r.iters[a.iter] == [] || Oldest(r, a.iter)
  }

  lemma {:induction false} FlattenAppend(ss: seq<seq<int>>, ts: seq<seq<int>>)
    ensures Flatten(ss + ts) == Flatten(ss) + Flatten(ts)
  {
    if ss == [] {
      assert ss + ts == ts;
    } else {
      assert (ss + ts)[1..] == ss[1..] + ts;
      FlattenAppend(ss[1..], ts);
    }
  }

  lemma FlattenAt(ss: seq<seq<int>>, i: nat)
    requires i < |ss|
    ensures Flatten(ss) == Flatten(ss[..i]) + ss[i] + Flatten(ss[i + 1..])
  {
    assert ss == ss[..i] + ss[i..] && ss[i..][1..] == ss[i + 1..];
    FlattenAppend(ss[..i], ss[i..]);
  }

  lemma PollKeepsInv(r: Ring, k: nat)
    requires Inv(r) && Enabled(r, Poll(k))
    ensures Inv(Step(r, Poll(k)))
  {
    FlattenAppend(r.iters, [r.completed[..k]]);
    assert Flatten([r.completed[..k]]) == r.completed[..k] + Flatten([]) == r.completed[..k];
    assert Flatten(r.iters) + r.completed + r.posted
        == (Flatten(r.iters) + r.completed[..k]) + r.completed[k..] + r.posted;
  }

  /** What a clear posts is what its iterator holds. */
  lemma ClearPostsHeld(r: Ring, i: nat)
    requires Inv(r) && Enabled(r, Clear(i)) && Oldest(r, i) && r.iters[i] != []
    ensures Chain(r, |r.iters[i]|) == r.iters[i]
    ensures r.iters[i] + (Flatten(r.iters[i + 1..]) + r.completed + r.posted) == Span(r.header, |r.next|, |r.next|)
  {
    FlattenAt(r.iters, i);
    var rest := Flatten(r.iters[i + 1..]) + r.completed + r.posted;
    assert Flatten(r.iters) == r.iters[i] + Flatten(r.iters[i + 1..]);
    Regroup(r.iters[i], Flatten(r.iters[i + 1..]), r.completed, r.posted);
    SpanPrefix(r.header, |r.iters[i]|, |r.next|, r.iters[i], rest);
  }

  lemma Regroup(a: seq<int>, b: seq<int>, c: seq<int>, d: seq<int>)
    ensures (a + b) + c + d == a + (b + c + d)
    ensures a + (b + c + d) == a + b + c + d
  {
  }

  lemma SpanPrefix(h: nat, m: nat, n: nat, first: seq<int>, rest: seq<int>)
    requires h < n && m <= n && |first| == m && first + rest == Span(h, n, n)
    ensures Span(h, m, n) == first
  {
    assert first == (first + rest)[..m];
  }

  lemma ClearKeepsInv(r: Ring, i: nat)
    requires Inv(r) && Enabled(r, Clear(i)) && Oldest(r, i)
    ensures Inv(Step(r, Clear(i)))
  {
    if r.iters[i] != [] {
      var n, m := |r.next|, |r.iters[i]|;
      var rest := Flatten(r.iters[i + 1..]) + r.completed + r.posted;
      ClearPostsHeld(r, i);
      RotateSpan(r.header, m, n, r.iters[i], rest);
      FlattenCleared(r.iters, i);
      assert rest + r.iters[i] == Flatten(r.iters[i + 1..]) + r.completed + (r.posted + r.iters[i]);
    }
  }

  lemma FlattenCleared(ss: seq<seq<int>>, i: nat)
    requires i < |ss| && Flatten(ss[..i]) == []
    ensures Flatten(ss[i := []]) == Flatten(ss[i + 1..])
  {
    FlattenAt(ss[i := []], i);
    assert ss[i := []][..i] == ss[..i] && ss[i := []][i + 1..] == ss[i + 1..];
  }

  /** Moving the first `m` entries of a full span to its end is the span from the next header. */
  lemma RotateSpan(h: nat, m: nat, n: nat, first: seq<int>, rest: seq<int>)
    requires h < n && 1 <= m <= n && |first| == m && first + rest == Span(h, n, n)
    ensures rest + first == Span(Succ(Tail(h, m, n), n), n, n)
  {
    if m < n {
      SpanSplit(h, m, n - m, n);
      var h' := Wrap(h + m, n);
      SpanSplit(h', n - m, m, n);
      assert first == Span(h, n, n)[..m] && rest == Span(h, n, n)[m..];
    } else {
      assert rest == [];
    }
  }

  lemma StepKeepsInv(r: Ring, a: Action)
    requires Inv(r) && Enabled(r, a) && InOrder(r, a)
    ensures Inv(Step(r, a))
  {
    match a
    case Arrive => assert r.posted == [r.posted[0]] + r.posted[1..];
    case Poll(k) => PollKeepsInv(r, k);
    case Clear(i) =>
      if r.iters[i] != [] {
        ClearKeepsInv(r, i);
      }
  }

  predicate ValidRun(r: Ring, acts: seq<Action>)
    requires WellFormed(r)
    decreases |acts|
  {
    acts == []
    || (Enabled(r, acts[0]) && InOrder(r, acts[0]) && WellFormed(Step(r, acts[0]))
        && ValidRun(Step(r, acts[0]), acts[1..]))
  }

  function Run(r: Ring, acts: seq<Action>): Ring
    requires WellFormed(r) && ValidRun(r, acts)
    decreases |acts|
  {
    if acts == [] then r else Run(Step(r, acts[0]), acts[1..])
  }

  /** All `n` entries posted at creation. */
  function Start(n: nat): Ring
    requires 0 < n
  {
    Ring(seq(n, i requires 0 <= i < n => Succ(i, n)), 0, Span(0, n, n), [], seq(n, _ => 0), [])
  }

  lemma {:induction false} RunKeepsInv(r: Ring, acts: seq<Action>)
    requires Inv(r) && ValidRun(r, acts)
    ensures Inv(Run(r, acts))
    decreases |acts|
  {
    if acts != [] {
      StepKeepsInv(r, acts[0]);
      RunKeepsInv(Step(r, acts[0]), acts[1..]);
    }
  }

  /** The entries that are held, completed or posted, with repetitions. */
  function Everywhere(r: Ring): multiset<int> {
    multiset(Flatten(r.iters) + r.completed + r.posted)
  }

  function Places(r: Ring, e: int): nat {
    Everywhere(r)[e]
  }

  lemma {:induction false} CountDistinct(s: seq<int>, e: int)
    requires forall i, j :: 0 <= i < j < |s| ==> s[i] != s[j]
    ensures multiset(s)[e] == if e in s then 1 else 0
  {
    if s != [] {
      CountDistinct(s[1..], e);
      assert s == [s[0]] + s[1..];
      assert e in s[1..] ==> e != s[0];
    }
  }

  lemma SpanCoversAll(h: nat, n: nat, e: nat)
    requires h < n && e < n
    ensures (e as int) in Span(h, n, n)
  {
    var j := if e >= h then e - h else e + n - h;
    assert Span(h, n, n)[j] == e;
  }

  /**
   * Conservation over every run that clears iterators in polling order: each entry is in
   * exactly one place, so none is lost, none is posted twice, and none is posted while an
   * iterator still holds it.
   */
  lemma EveryEntryOnce(n: nat, acts: seq<Action>, e: int)
    requires 0 < n && ValidRun(Start(n), acts)
    ensures Inv(Run(Start(n), acts))
    ensures Places(Run(Start(n), acts), e) == if 0 <= e < n then 1 else 0
  {
    RunKeepsInv(Start(n), acts);
    RunKeepsSize(Start(n), acts);
    CountInSpan(Run(Start(n), acts).header, n, e);
  }

  lemma CountInSpan(h: nat, n: nat, e: int)
    requires h < n
    ensures multiset(Span(h, n, n))[e] == if 0 <= e < n then 1 else 0
  {
    SpanDistinct(h, n, n);
    CountDistinct(Span(h, n, n), e);
    if 0 <= e < n {
      SpanCoversAll(h, n, e);
    }
  }

  lemma {:induction false} RunKeepsSize(r: Ring, acts: seq<Action>)
    requires WellFormed(r) && ValidRun(r, acts)
    ensures |Run(r, acts).next| == |r.next|
    decreases |acts|
  {
    if acts != [] {
      RunKeepsSize(Step(r, acts[0]), acts[1..]);
    }
  }

  /**
   * The order matters: a clear reposts its iterator's own entries exactly when every
   * iterator that polled before it holds nothing. Otherwise the header's entry goes back to
   * the NIC while an earlier iterator still holds it.
   */
  lemma ClearRepostsOwnIff(r: Ring, i: nat)
    requires Inv(r) && Enabled(r, Clear(i)) && r.iters[i] != []
    ensures Step(r, Clear(i)).posted == r.posted + r.iters[i] <==> Oldest(r, i)
    ensures !Oldest(r, i) ==>
              var r' := Step(r, Clear(i)); r.header in r'.posted && r.header in Flatten(r'.iters)
  {
    var n, m := |r.next|, |r.iters[i]|;
    if Oldest(r, i) {
      ClearPostsHeld(r, i);
    } else {
      FlattenAt(r.iters, i);
      var before := Flatten(r.iters[..i]);
      var all := Span(r.header, n, n);
      SpanDistinct(r.header, n, n);
      assert all[|before|] == r.iters[i][0] != all[0] == Chain(r, m)[0];
      var r' := Step(r, Clear(i));
      assert r'.posted[|r.posted|] == Chain(r, m)[0] == r.header;
      assert (r.posted + r.iters[i])[|r.posted|] == r.iters[i][0];
      FlattenAt(r'.iters, i);
      assert r'.iters[..i] == r.iters[..i];
      assert Flatten(r'.iters)[0] == before[0] == all[0];
    }
  }

  // ---- a repost that the driver refuses ----

  lemma FailedClearPlaces(r: Ring, i: nat, room: nat)
    requires Inv(r) && Enabled(r, Clear(i)) && Oldest(r, i) && room < |r.iters[i]|
    ensures Flatten(ClearSpec(r, i, room).iters) == Flatten(r.iters[i + 1..])
    ensures ClearSpec(r, i, room).posted == r.posted + r.iters[i][..room]
    ensures var held := Flatten(r.iters[i + 1..]) + r.completed + r.posted;
            forall j :: 0 <= j < |r.iters[i]| ==> r.iters[i][j] !in held && r.iters[i][j] !in r.iters[i][..j]
  {
    ClearPostsHeld(r, i);
    FlattenCleared(r.iters, i);
    SpanDistinct(r.header, |r.next|, |r.next|);
    var mine, held := r.iters[i], Flatten(r.iters[i + 1..]) + r.completed + r.posted;
    assert mine + held == Span(r.header, |r.next|, |r.next|);
    DistinctParts(mine, held);
  }

  lemma DistinctParts(mine: seq<int>, held: seq<int>)
    requires forall i, j :: 0 <= i < j < |mine + held| ==> (mine + held)[i] != (mine + held)[j]
    ensures forall j :: 0 <= j < |mine| ==> mine[j] !in held && mine[j] !in mine[..j]
  {
    forall j | 0 <= j < |mine|
      ensures mine[j] !in held && mine[j] !in mine[..j]
    {
      assert (mine + held)[j] == mine[j];
      assert forall k :: 0 <= k < |held| ==> (mine + held)[|mine| + k] == held[k];
      assert forall k :: 0 <= k < j ==> (mine + held)[k] == mine[k];
    }
  }

  /**
   * Conservation survives a clear exactly when the driver takes all its entries. Otherwise
   * the ring stays cut, and the entries it did not take are nowhere: not held, not completed
   * and not posted.
   */
  lemma ClearConservesIff(r: Ring, i: nat, room: nat)
    requires Inv(r) && Enabled(r, Clear(i)) && Oldest(r, i)
    ensures (forall e :: Places(ClearSpec(r, i, room), e) == if 0 <= e < |r.next| then 1 else 0)
       <==> |r.iters[i]| <= room
    ensures room < |r.iters[i]| ==>
              && !IsRing(ClearSpec(r, i, room).next)
              && forall j :: room <= j < |r.iters[i]| ==> Places(ClearSpec(r, i, room), r.iters[i][j]) == 0
  {
    var r' := ClearSpec(r, i, room);
    if |r.iters[i]| <= room {
      assert r' == Step(r, Clear(i));
      ClearKeepsInv(r, i);
      forall e
        ensures Places(r', e) == if 0 <= e < |r.next| then 1 else 0
      {
        CountInSpan(r'.header, |r.next|, e);
      }
    } else {
      FailedClearPlaces(r, i, room);
      var tail := Tail(r.header, |r.iters[i]|, |r.next|);
      assert r'.next[tail] != Succ(tail, |r.next|);
      forall j | room <= j < |r.iters[i]|
        ensures Places(r', r.iters[i][j]) == 0 && 0 <= r.iters[i][j] < |r.next|
      {
        LostIsNowhere(r, i, room, j);
      }
      assert Places(r', r.iters[i][room]) == 0;
    }
  }

  lemma LostIsNowhere(r: Ring, i: nat, room: nat, j: nat)
    requires Inv(r) && Enabled(r, Clear(i)) && Oldest(r, i) && room <= j < |r.iters[i]|
    ensures Places(ClearSpec(r, i, room), r.iters[i][j]) == 0
    ensures 0 <= r.iters[i][j] < |r.next|
  {
    FailedClearPlaces(r, i, room);
    ClearPostsHeld(r, i);
    var e := r.iters[i][j];
    assert e == Chain(r, |r.iters[i]|)[j];
    assert forall k :: 0 <= k < room ==> r.iters[i][..j][k] == r.iters[i][..room][k];
    var all := Flatten(r.iters[i + 1..]) + r.completed + (r.posted + r.iters[i][..room]);
    assert e !in Flatten(r.iters[i + 1..]) && e !in r.completed && e !in r.posted;
    assert e !in all;
  }

  /** On a ring cut once, the chain stops at the cut, if it gets there. */
  lemma ReachWhenCut(next: seq<int>, h: nat, num: nat, again: nat)
    requires IsRing(next) && h < |next| && 1 <= num <= |next| && 1 <= again <= |next|
    ensures LinkedOrCut(next[Tail(h, num, |next|) := NULL])
    ensures Reach(next[Tail(h, num, |next|) := NULL], h, again) == if num < again then num else again
  {
    var n := |next|;
    var cut := next[Tail(h, num, n) := NULL];
    var k := Reach(cut, h, again);
    if num < again {
      assert Span(h, again, n)[num - 1] == Tail(h, num, n);
    }
    if k < again {
      assert cut[Span(h, again, n)[k - 1]] == NULL;
    }
  }

  /** Posting part of a chain and then all of it: each entry once exactly if the part is empty. */
  lemma PostedTwiceIff(posted: seq<int>, mine: seq<int>, room: nat, others: seq<int>, h: nat, n: nat)
    requires h < n && room < |mine| && mine + (others + posted) == Span(h, n, n)
    ensures (forall e :: multiset(posted + mine[..room] + mine)[e] <= 1) <==> room == 0
  {
    if room > 0 {
      assert mine[..room][0] == mine[0];
      assert multiset(mine[..room])[mine[0]] >= 1 && multiset(mine)[mine[0]] >= 1;
      assert multiset(posted + mine[..room] + mine)[mine[0]] >= 2;
    } else {
      assert posted + mine[..room] + mine == posted + mine;
      SpanDistinct(h, n, n);
      assert multiset(mine) + multiset(others) + multiset(posted) == multiset(Span(h, n, n));
      forall e
        ensures multiset(posted + mine)[e] <= 1
      {
        CountDistinct(Span(h, n, n), e);
      }
    }
  }

  /**
   * Posting the same stretch again after a failure, this time with room, saves and restores
   * the link that is already null: the ring stays cut. The entries that the first attempt got
   * through are posted twice, so every entry is posted at most once exactly if there were none.
   */
  lemma RetryPostsTwiceIff(r: Ring, i: nat, room: nat)
    requires Inv(r) && Enabled(r, Clear(i)) && Oldest(r, i) && room < |r.iters[i]|
    ensures var num := |r.iters[i]|;
            var failed := PostSpec(r, num, room);
            var retried := PostSpec(failed, num, num);
            && retried.posted == r.posted + r.iters[i][..room] + r.iters[i]
            && retried.next == failed.next && !IsRing(retried.next)
            && ((forall e :: multiset(retried.posted)[e] <= 1) <==> room == 0)
  {
    ClearPostsHeld(r, i);
    var num := |r.iters[i]|;
    ReachWhenCut(r.next, r.header, num, num);
    var retried := PostSpec(PostSpec(r, num, room), num, num);
    var tail := Tail(r.header, num, |r.next|);
    assert retried.next[tail] != Succ(tail, |r.next|);
    PostedTwiceIff(r.posted, r.iters[i], room, Flatten(r.iters[i + 1..]) + r.completed, r.header, |r.next|);
  }

  // ---- the next clear after one that failed ----

  function Min(a: nat, b: nat): nat { if a < b then a else b }

  lemma FlattenWithout(ss: seq<seq<int>>, i: nat)
    requires i < |ss|
    ensures multiset(Flatten(ss[i := []])) + multiset(ss[i]) == multiset(Flatten(ss))
  {
    FlattenAt(ss, i);
    FlattenAt(ss[i := []], i);
    assert ss[i := []][..i] == ss[..i] && ss[i := []][i + 1..] == ss[i + 1..];
  }

  /** What a clear takes out of an iterator's hands and what it posts. */
  lemma ClearMoves(r: Ring, i: nat, room: nat, posted: seq<int>)
    requires r.header < |r.next| && LinkedOrCut(r.next) && i < |r.iters| && 1 <= |r.iters[i]| <= |r.next|
    requires ClearSpec(r, i, room).posted == r.posted + posted
    ensures Everywhere(ClearSpec(r, i, room)) + multiset(r.iters[i]) == Everywhere(r) + multiset(posted)
  {
    FlattenWithout(r.iters, i);
  }

  /** What the failed clear leaves, and what the next post from the same header takes. */
  lemma PostAfterFailure(r: Ring, i: nat, room: nat, again: nat)
    requires Inv(r) && Enabled(r, Clear(i)) && Oldest(r, i) && room < |r.iters[i]| && 1 <= again <= |r.next|
    ensures var mine, failed := r.iters[i], ClearSpec(r, i, room);
            && failed.posted == r.posted + mine[..room]
            && failed.iters == r.iters[i := []] && failed.completed == r.completed
            && PostSpec(failed, again, |r.next|).posted == failed.posted + mine[..Min(|mine|, again)]
  {
    var mine := r.iters[i];
    ClearPostsHeld(r, i);
    ReachWhenCut(r.next, r.header, |mine|, again);
    SpanTake(r.header, Min(|mine|, again), |mine|, |r.next|);
  }

  /**
   * The clear of iterator `j` after that of `i` failed, from the same header: the chain is
   * the beginning of `i`'s entries, up to the old cut, and of `j`'s entries none.
   */
  lemma ClearAfterFailure(r: Ring, i: nat, room: nat, j: nat)
    requires Inv(r) && Enabled(r, Clear(i)) && Oldest(r, i) && room < |r.iters[i]|
    requires j < |r.iters| && j != i && r.iters[j] != []
    ensures var mine, again := r.iters[i], Min(|r.iters[i]|, |r.iters[j]|);
            var next := ClearSpec(ClearSpec(r, i, room), j, |r.next|);
            && next.posted == r.posted + mine[..room] + mine[..again]
            && Everywhere(next) + multiset(mine) + multiset(r.iters[j])
               == Everywhere(r) + multiset(mine[..room]) + multiset(mine[..again])
  {
    var mine, theirs, failed := r.iters[i], r.iters[j], ClearSpec(r, i, room);
    var again := Min(|mine|, |theirs|);
    var next := ClearSpec(failed, j, |r.next|);
    PostAfterFailure(r, i, room, |theirs|);
    assert failed.iters[j] == theirs;
    ClearMoves(r, i, room, mine[..room]);
    ClearMoves(failed, j, |r.next|, mine[..again]);
    Combine(Everywhere(r), Everywhere(failed), Everywhere(next),
            multiset(mine), multiset(theirs), multiset(mine[..room]), multiset(mine[..again]));
  }

  lemma Combine(a: multiset<int>, b: multiset<int>, c: multiset<int>,
                out: multiset<int>, out': multiset<int>, posted: multiset<int>, posted': multiset<int>)
    requires b + out == a + posted && c + out' == b + posted'
    ensures c + out + out' == a + posted + posted'
  {
    assert c + out + out' == (c + out') + out == (b + posted') + out == (b + out) + posted';
  }

  lemma SpanTake(h: nat, k: nat, m: nat, n: nat)
    requires h < n && k <= m <= n
    ensures Span(h, m, n)[..k] == Span(h, k, n)
  {
  }

  predicate Distinct(s: seq<int>) {
    forall i, j :: 0 <= i < j < |s| ==> s[i] != s[j]
  }

  lemma TakenOnce(s: seq<int>, k: nat, x: nat)
    requires Distinct(s) && k <= |s| && x < |s|
    ensures multiset(s[..k])[s[x]] == if x < k then 1 else 0
  {
    CountDistinct(s[..k], s[x]);
    if x < k {
      assert s[..k][x] == s[x];
    }
  }

  lemma CountWhole(s: seq<int>, x: nat)
    requires Distinct(s) && x < |s|
    ensures multiset(s)[s[x]] == 1
  {
    TakenOnce(s, |s|, x);
    assert s[..|s|] == s;
  }

  lemma NotTaken(s: seq<int>, k: nat, e: int)
    requires k <= |s| && e !in s
    ensures multiset(s)[e] == 0 && multiset(s[..k])[e] == 0
  {
    assert e !in s[..k];
  }

  lemma LostCount(all: multiset<int>, after: multiset<int>, mine: seq<int>, theirs: seq<int>,
                  room: nat, again: nat, x: nat)
    requires room <= |mine| && again <= |mine| && x < |theirs|
    requires after + multiset(mine) + multiset(theirs) == all + multiset(mine[..room]) + multiset(mine[..again])
    requires Distinct(theirs) && theirs[x] !in mine && all[theirs[x]] == 1
    ensures after[theirs[x]] == 0
  {
    var e := theirs[x];
    CountWhole(theirs, x);
    NotTaken(mine, room, e);
    NotTaken(mine, again, e);
    assert (after + multiset(mine) + multiset(theirs))[e] == after[e] + 1;
  }

  lemma PostedCount(all: multiset<int>, after: multiset<int>, mine: seq<int>, theirs: seq<int>,
                    room: nat, again: nat, x: nat)
    requires room <= |mine| && again <= |mine| && x < |mine|
    requires after + multiset(mine) + multiset(theirs) == all + multiset(mine[..room]) + multiset(mine[..again])
    requires Distinct(mine) && mine[x] !in theirs && all[mine[x]] == 1
    ensures after[mine[x]] == (if x < room then 1 else 0) + (if x < again then 1 else 0)
  {
    var e := mine[x];
    CountWhole(mine, x);
    TakenOnce(mine, room, x);
    TakenOnce(mine, again, x);
    NotTaken(theirs, 0, e);
    assert (after + multiset(mine) + multiset(theirs))[e] == after[e] + 1;
  }

  /**
   * So `j`'s entries are all lost. Of `i`'s, the ones that were posted by neither clear are
   * lost too, and the ones that were posted by both are with the NIC twice.
   */
  lemma PlacesAfterFailure(r: Ring, i: nat, room: nat, j: nat, x: nat)
    requires Inv(r) && Enabled(r, Clear(i)) && Oldest(r, i) && room < |r.iters[i]|
    requires j < |r.iters| && j != i && r.iters[j] != []
    ensures var next := ClearSpec(ClearSpec(r, i, room), j, |r.next|);
            && (x < |r.iters[j]| ==> Places(next, r.iters[j][x]) == 0)
            && (x < |r.iters[i]| ==>
                  Places(next, r.iters[i][x])
                  == (if x < room then 1 else 0) + (if x < |r.iters[j]| then 1 else 0))
  {
    var mine, theirs := r.iters[i], r.iters[j];
    var after, again := Everywhere(ClearSpec(ClearSpec(r, i, room), j, |r.next|)), Min(|mine|, |theirs|);
    ClearAfterFailure(r, i, room, j);
    LaterThan(r, i, j);
    HeldApart(r, i, j);
    if x < |theirs| {
      assert theirs[x] in theirs;
      CountInSpan(r.header, |r.next|, theirs[x]);
      LostCount(Everywhere(r), after, mine, theirs, room, again, x);
    }
    if x < |mine| {
      assert mine[x] in mine;
      CountInSpan(r.header, |r.next|, mine[x]);
      PostedCount(Everywhere(r), after, mine, theirs, room, again, x);
    }
  }

  /** Iterators before the oldest one hold nothing. */
  lemma LaterThan(r: Ring, i: nat, j: nat)
    requires i < |r.iters| && j < |r.iters| && j != i && Oldest(r, i) && r.iters[j] != []
    ensures i < j
  {
    if j < i {
      FlattenAt(r.iters[..i], j);
    }
  }

  lemma PartsApart(before: seq<int>, a: seq<int>, within: seq<int>, b: seq<int>, rest: seq<int>, all: seq<int>)
    requires all == before + a + within + b + rest && Distinct(all)
    ensures Distinct(a) && Distinct(b)
    ensures forall e :: e in a ==> e !in b && e in all
    ensures forall e :: e in b ==> e in all
  {
    var p, q := |before|, |before| + |a| + |within|;
    assert forall x :: 0 <= x < |a| ==> all[p + x] == a[x];
    assert forall y :: 0 <= y < |b| ==> all[q + y] == b[y];
  }

  /** What two iterators hold are different entries of the ring. */
  lemma HeldApart(r: Ring, i: nat, j: nat)
    requires Inv(r) && i < j < |r.iters|
    ensures Distinct(r.iters[i]) && Distinct(r.iters[j])
    ensures forall e :: e in r.iters[i] ==> e !in r.iters[j] && 0 <= e < |r.next|
    ensures forall e :: e in r.iters[j] ==> 0 <= e < |r.next|
  {
    SpanDistinct(r.header, |r.next|, |r.next|);
    FlattenAt(r.iters, i);
    var later := r.iters[i + 1..];
    FlattenAt(later, j - i - 1);
    var before, within := Flatten(r.iters[..i]), Flatten(later[..j - i - 1]);
    var rest := Flatten(later[j - i..]) + r.completed + r.posted;
    var all := Span(r.header, |r.next|, |r.next|);
    Regroup5(before, r.iters[i], within, r.iters[j], Flatten(later[j - i..]), r.completed, r.posted);
    PartsApart(before, r.iters[i], within, r.iters[j], rest, all);
  }

  lemma FirstsDiffer(r: Ring, i: nat, j: nat)
    requires Inv(r) && i < j < |r.iters| && r.iters[i] != [] && r.iters[j] != []
    ensures r.iters[i][0] != r.iters[j][0]
  {
    HeldApart(r, i, j);
    assert r.iters[i][0] in r.iters[i] && r.iters[j][0] in r.iters[j];
  }

  lemma Regroup5(a: seq<int>, b: seq<int>, c: seq<int>, d: seq<int>, e: seq<int>, f: seq<int>, g: seq<int>)
    ensures (a + b + (c + d + e)) + f + g == a + b + c + d + (e + f + g)
  {
  }

  // ---- what an iterator shows ----

  /** The shared completions begin with the ones that iterator `i` polled. */
  predicate Shown(r: Ring, i: nat)
    requires i < |r.iters| && |r.iters[i]| <= |r.wcs|
  {
    r.wcs[..|r.iters[i]|] == r.iters[i]
  }

  /** No iterator that polled after `i` holds an entry. */
  predicate Newest(r: Ring, i: nat)
    requires i < |r.iters|
  {
    Flatten(r.iters[i + 1..]) == []
  }

  ghost predicate NewestShown(r: Ring)
    requires WellFormed(r)
  {
    forall i :: 0 <= i < |r.iters| && r.iters[i] != [] && Newest(r, i) ==> Shown(r, i)
  }

  lemma PollShows(r: Ring, k: nat)
    requires WellFormed(r) && Enabled(r, Poll(k)) && NewestShown(r)
    ensures NewestShown(Step(r, Poll(k)))
  {
    var r' := Step(r, Poll(k));
    forall i | 0 <= i < |r'.iters| && r'.iters[i] != [] && Newest(r', i)
      ensures Shown(r', i)
    {
      if i < |r.iters| {
        var polled := r.completed[..k];
        assert r'.iters[i + 1..] == r.iters[i + 1..] + [polled];
        FlattenAppend(r.iters[i + 1..], [polled]);
        assert Flatten([polled]) == polled + Flatten([]) == polled;
        assert r'.wcs == r.wcs;
      }
    }
  }

  lemma ClearShows(r: Ring, i: nat)
    requires WellFormed(r) && Enabled(r, Clear(i)) && Oldest(r, i) && NewestShown(r)
    ensures NewestShown(Step(r, Clear(i)))
  {
    var r' := Step(r, Clear(i));
    forall j | 0 <= j < |r'.iters| && r'.iters[j] != [] && Newest(r', j)
      ensures Shown(r', j)
    {
      if j < i {
        FlattenAt(r.iters[..i], j);
      } else {
        assert r'.iters[j + 1..] == r.iters[j + 1..];
      }
    }
  }

  lemma {:induction false} RunShows(r: Ring, acts: seq<Action>)
    requires Inv(r) && NewestShown(r) && ValidRun(r, acts)
    ensures Inv(Run(r, acts)) && NewestShown(Run(r, acts))
    decreases |acts|
  {
    if acts != [] {
      StepKeepsInv(r, acts[0]);
      match acts[0] {
        case Arrive =>
          assert forall i :: 0 <= i < |r.iters| && Newest(Step(r, Arrive), i) ==> Newest(r, i);
        case Poll(k) => PollShows(r, k);
        case Clear(i) =>
          if r.iters[i] != [] {
            ClearShows(r, i);
          }
      }
      RunShows(Step(r, acts[0]), acts[1..]);
    }
  }

  lemma {:induction false} LastHolder(ss: seq<seq<int>>) returns (j: nat)
    requires Flatten(ss) != []
    ensures j < |ss| && ss[j] != [] && Flatten(ss[j + 1..]) == []
  {
    if Flatten(ss[1..]) == [] {
      j := 0;
    } else {
      j := LastHolder(ss[1..]);
      assert ss[1..][j + 1..] == ss[j + 2..];
      j := j + 1;
    }
  }

  /**
   * Over every run that clears in polling order, an iterator with messages shows its own
   * exactly as long as no later iterator holds any: the completions are shared.
   */
  lemma ShowsOwnIff(n: nat, acts: seq<Action>, i: nat)
    requires 0 < n && ValidRun(Start(n), acts)
    requires var r := Run(Start(n), acts); i < |r.iters| && r.iters[i] != []
    ensures var r := Run(Start(n), acts);
            WellFormed(r) && (Shown(r, i) <==> Newest(r, i))
  {
    var r := Run(Start(n), acts);
    RunShows(Start(n), acts);
    if !Newest(r, i) {
      var later := LastHolder(r.iters[i + 1..]);
      var j := i + 1 + later;
      assert r.iters[i + 1..][later + 1..] == r.iters[j + 1..];
      assert Newest(r, j) && Shown(r, j);
      assert r.wcs[0] == r.wcs[..|r.iters[j]|][0] == r.iters[j][0];
      FirstsDiffer(r, i, j);
      assert r.wcs[..|r.iters[i]|][0] == r.wcs[0];
    }
  }

  /** Two iterators that each polled one message: the first now shows the second's. */
  lemma SecondPollHidesFirst(n: nat)
    requires 2 <= n
    ensures var acts := [Arrive, Arrive, Poll(1), Poll(1)];
            && ValidRun(Start(n), acts)
            && var r := Run(Start(n), acts);
               r.iters == [[0], [1]] && r.wcs[0] == 1
  {
    var r0 := Start(n);
    var r1 := Step(r0, Arrive);
    var r2 := Step(r1, Arrive);
    assert r2.completed == [0, 1];
    var r3 := Step(r2, Poll(1));
    assert r2.completed[..1] == [0] && r2.completed[1..] == [1];
    assert r3.completed == [1] && r3.iters == [[0]];
    assert r3.completed[..1] == [1];
    var r4 := Step(r3, Poll(1));
    assert r4.iters == [[0], [1]];
    var acts := [Arrive, Arrive, Poll(1), Poll(1)];
    assert acts[1..] == [Arrive, Poll(1), Poll(1)] && acts[1..][1..] == [Poll(1), Poll(1)];
    assert acts[1..][1..][1..] == [Poll(1)] && acts[1..][1..][1..][1..] == [];
    assert Run(r3, [Poll(1)]) == r4;
    assert Run(r2, [Poll(1), Poll(1)]) == r4;
    assert Run(r1, [Arrive, Poll(1), Poll(1)]) == r4;
  }

  // ---- the objects ----

  /** One queue pair's receive queue and receive completion queue. */
  class Queues {
    var posted: seq<int>
    var completed: seq<int>

    constructor ()
      ensures posted == [] && completed == []
    {
      posted, completed := [], [];
    }

    /** ibv_post_recv: takes over the chain, or as much of it as there is room for. */
    method PostRecv(entries: RecvEntries, head: int, room: nat, ghost path: seq<int>) returns (ok: bool)
      requires Walks(entries.next[..], head, path)
      modifies `posted
      ensures ok <==> |path| <= room
      ensures posted == old(posted) + if ok then path else path[..room]
    {
      var cur, taken := head, 0;
      while cur != NULL && taken < room
        invariant taken <= |path| && taken <= room
        invariant Walks(entries.next[..], cur, path[taken..])
        invariant posted == old(posted) + path[..taken]
        decreases |path| - taken
      {
        posted := posted + [cur];
        cur := entries.next[cur];
        assert path[taken..][1..] == path[taken + 1..];
        taken := taken + 1;
      }
      return cur == NULL;
    }

    /** A message arrives in the entry posted first. */
    method Deliver()
      requires posted != []
      modifies this
      ensures posted == old(posted)[1..] && completed == old(completed) + [old(posted)[0]]
    {
      completed := completed + [posted[0]];
      posted := posted[1..];
    }

    /** post_recvs: cut behind the stretch, post it, and on success splice and rotate. */
    method PostRecvs(r: RecvEntries, num: nat, room: nat) returns (ok: bool)
      requires r.Valid() && 1 <= num <= r.next.Length && LinkedOrCut(r.next[..])
      modifies `posted, r`header, r.next
      ensures r.Valid() && LinkedOrCut(r.next[..])
      ensures ok == (Reach(old(r.next[..]), old(r.header), num) <= room)
      ensures View(this, r) == PostSpec(old(View(this, r)), num, room)
    {
      var n := r.next.Length;
      var tail := r.header + num - 1;
      if tail >= n {
        tail := tail - n;
      }
      var temp := r.next[tail];
      ghost var chain := Span(r.header, Reach(r.next[..], r.header, num), n);
      CutChain(r.next[..], r.header, num);
      assert Walks(r.next[..][tail := NULL], r.header, chain);
      r.next[tail] := NULL;
      assert r.next[..] == old(r.next[..])[tail := NULL];
      ok := PostRecv(r, r.header, room, chain);
      if !ok {
        return;
      }
      r.next[tail] := temp;
      r.header := (tail + 1) % n;
      SuccIsMod(tail, n);
      assert r.next[..] == old(r.next[..]);
    }
  }

  class RecvEntries {
    const next: array<int>
    const wrIds: array<nat>
    const sges: array<nat>
    const wcs: array<int>
    var header: nat
    ghost var iters: seq<seq<int>>

    ghost predicate Valid()
      reads this
    {
      && header < next.Length == wcs.Length == wrIds.Length == sges.Length
      && next != wcs
    }

    /** The factory: one buffer per entry, each linked to the one after it, the last to the first. */
    constructor (buffers: seq<nat>)
      requires buffers != []
      ensures Valid() && header == 0 && iters == [] && next.Length == |buffers|
      ensures fresh(next) && fresh(wcs) && IsRing(next[..])
      ensures wrIds[..] == buffers && sges[..] == buffers
    {
      var n := |buffers|;
      var links, ids, sgs := new int[n], new nat[n], new nat[n];
      for i := 0 to n
        invariant forall j :: 0 <= j < i ==> links[j] == Succ(j, n)
        invariant ids[..i] == buffers[..i] && sgs[..i] == buffers[..i]
      {
        ids[i] := buffers[i];
        links[i] := if i < n - 1 then i + 1 else 0;
        sgs[i] := buffers[i];
      }
      next, wrIds, sges := links, ids, sgs;
      wcs := new int[n];
      header := 0;
      iters := [];
    }
  }

  ghost function View(q: Queues, r: RecvEntries): Ring
    reads q, r, r.next, r.wcs
  {
    Ring(r.next[..], r.header, q.posted, q.completed, r.wcs[..], r.iters)
  }

  /** msg_rc_handler's part: create the entries and post all of them. */
  method Setup(buffers: seq<nat>) returns (q: Queues, r: RecvEntries)
    requires buffers != []
    ensures r.Valid() && fresh(q) && fresh(r) && fresh(r.next) && fresh(r.wcs)
    ensures Inv(View(q, r)) && |q.posted| == |buffers| && q.completed == []
  {
    q := new Queues();
    r := new RecvEntries(buffers);
    var n := |buffers|;
    var _ := q.PostRecvs(r, n, n);
    assert Tail(0, n, n) == n - 1;
  }

  class RecvIter {
    const q: Queues
    const entries: RecvEntries
    var idx: nat
    var total: int
    ghost const slot: nat

    /** The iterator's part of the ring is what it polled. */
    ghost predicate Valid()
      reads this, q, entries
    {
      && entries.Valid() && slot < |entries.iters|
      && Max0(total) == |entries.iters[slot]| <= entries.next.Length
    }

    static function Max0(x: int): nat { if x < 0 then 0 else x }

    /** Polls: `polled` completions, or a negative number for an error. */
    constructor (q: Queues, entries: RecvEntries, polled: int)
      requires entries.Valid() && polled <= |q.completed| && polled <= entries.next.Length
      modifies q, entries, entries.wcs
      ensures this.q == q && this.entries == entries && slot == |old(entries.iters)|
      ensures Valid() && idx == 0 && total == polled
      ensures View(q, entries) == PollSpec(old(View(q, entries)), Max0(polled))
    {
      this.q := q;
      this.entries := entries;
      idx := 0;
      total := polled;
      slot := |entries.iters|;
      new;
      var k := Max0(polled);
      for i := 0 to k
        modifies entries.wcs
        invariant entries.wcs[..i] == q.completed[..i]
        invariant entries.wcs[i..] == old(entries.wcs[i..])
      {
        entries.wcs[i] := q.completed[i];
      }
      assert entries.wcs[..] == entries.wcs[..k] + entries.wcs[k..];
      entries.iters := entries.iters + [q.completed[..k]];
      q.completed := q.completed[k..];
    }

    method HasMsgs() returns (r: bool)
      ensures r <==> idx < total
    {
      r := idx < total;
    }

    /** The entry of the current message; none past the end. */
    method CurMsg() returns (r: Option<int>)
      requires Valid()
      ensures r == if idx < total then Some(entries.wcs[idx]) else None
    {
      return if idx < total then Some(entries.wcs[idx]) else None;
    }

    method Next()
      modifies `idx
      ensures idx == old(idx) + 1
    {
      idx := idx + 1;
    }

    /** clear, and the destructor: repost as many entries as were polled; a failure is only logged. */
    method Clear(room: nat)
      requires Valid() && LinkedOrCut(entries.next[..])
      modifies `total, q`posted, entries`header, entries`iters, entries.next
      ensures Valid() && total == -1 && LinkedOrCut(entries.next[..])
      ensures View(q, entries) == ClearSpec(old(View(q, entries)), slot, room)
    {
      if total > 0 {
        var _ := q.PostRecvs(entries, total, room);
        entries.iters := entries.iters[slot := []];
      }
      total := -1;
    }
  }

  /**
   * The loop over an iterator. It visits the front of the shared completions, which are the
   * iterator's own messages exactly if those are still shown.
   */
  method DrainAll(it: RecvIter) returns (seen: seq<int>)
    requires it.Valid() && it.idx == 0
    modifies it`idx
    ensures it.Valid() && it.total == old(it.total)
    ensures seen == it.entries.wcs[..RecvIter.Max0(it.total)]
    ensures seen == it.entries.iters[it.slot] <==> Shown(View(it.q, it.entries), it.slot)
  {
    seen := [];
    var more := it.HasMsgs();
    while more
      invariant it.Valid() && it.idx <= RecvIter.Max0(it.total) && it.total == old(it.total)
      invariant more <==> it.idx < it.total
      invariant seen == it.entries.wcs[..it.idx]
      decreases it.total - it.idx
    {
      var m := it.CurMsg();
      seen := seen + [m.value];
      it.Next();
      more := it.HasMsgs();
    }
  }

  /**
   * The documented loop: poll into a new iterator, visit its messages, and repost their
   * entries when it goes out of scope. It sees exactly the oldest completions, in order, and
   * with room in the queue and no other iterator holding entries the ring is whole again.
   */
  method ForEachMsg(q: Queues, entries: RecvEntries, polled: int, room: nat) returns (seen: seq<int>)
    requires entries.Valid() && polled <= |q.completed| && polled <= entries.next.Length
    requires LinkedOrCut(entries.next[..])
    modifies q, entries, entries.wcs, entries.next
    ensures seen == old(q.completed)[..RecvIter.Max0(polled)]
    ensures View(q, entries)
         == ClearSpec(PollSpec(old(View(q, entries)), RecvIter.Max0(polled)), |old(entries.iters)|, room)
    ensures old(Inv(View(q, entries)) && Flatten(entries.iters) == []) && polled <= room ==>
              Inv(View(q, entries)) && Flatten(entries.iters) == []
  {
    ghost var before := View(q, entries);
    var it := new RecvIter(q, entries, polled);
    ghost var during := View(q, entries);
    seen := DrainAll(it);
    it.Clear(room);
    if Inv(before) && Flatten(before.iters) == [] && polled <= room {
      PollKeepsInv(before, RecvIter.Max0(polled));
      assert during.iters[..it.slot] == before.iters;
      ClearAllKeepsInv(during, it.slot, room);
    }
  }

  lemma ClearAllKeepsInv(r: Ring, i: nat, room: nat)
    requires Inv(r) && i + 1 == |r.iters| && Oldest(r, i) && |r.iters[i]| <= room
    ensures Inv(ClearSpec(r, i, room)) && Flatten(ClearSpec(r, i, room).iters) == []
  {
    ClearKeepsInv(r, i);
    assert ClearSpec(r, i, room) == Step(r, Clear(i));
    FlattenCleared(r.iters, i);
    FlattenAt(r.iters, i);
  }
}
