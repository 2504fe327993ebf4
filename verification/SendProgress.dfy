/**
 * Send-side progress of a reliable queue pair: 16-bit watermarks that wrap, packed with the
 * caller's id into the 64-bit wr_id and decoded again from completions. The model keeps the
 * unbounded counts beside them and relates the two.
 */
module SendProgress {
  import opened Bytes
  import opened Wrappers

  function Wrap32(n: nat): nat {
    n % 0x1_0000_0000
  }

  /** `wr << 16 | mark` on 64 bits: the 16 low bits of the shifted id are zero. */
  function Pack(wr: nat, mark: nat): nat {
    (wr * 0x1_0000) % 0x1_0000_0000_0000_0000 + mark
  }

  function UserOf(wrId: nat): nat {
    wrId / 0x1_0000
  }

  function MarkOf(wrId: nat): nat {
    Wrap16(wrId)
  }

  // ---- the same on the bits ----

  function Pow2(k: nat): (p: nat)
    ensures p >= 1
  {
    if k == 0 then 1 else 2 * Pow2(k - 1)
  }

  predicate Bit(n: nat, i: nat) {
    if i == 0 then n % 2 == 1 else Bit(n / 2, i - 1)
  }

  /** A number below `2^k` under a multiple of it: its bits come first, then the multiple's. */
  lemma {:induction false} SplitBits(q: nat, r: nat, k: nat, i: nat)
    requires r < Pow2(k)
    ensures Bit(q * Pow2(k) + r, i) <==> if i < k then Bit(r, i) else Bit(q, i - k)
  {
    if k > 0 {
      var half := Pow2(k - 1);
      assert q * Pow2(k) == 2 * (q * half);
      if i > 0 {
        SplitBits(q, r / 2, k - 1, i - 1);
        assert (2 * (q * half) + r) / 2 == q * half + r / 2;
      }
    }
  }

  lemma {:induction false} HighBitsClear(n: nat, k: nat, i: nat)
    requires n < Pow2(k) && k <= i
    ensures !Bit(n, i)
  {
    if k > 0 {
      HighBitsClear(n / 2, k - 1, i - 1);
    } else if i > 0 {
      HighBitsClear(n / 2, k, i - 1);
    }
  }

  lemma Pow2Plus16(k: nat)
    ensures Pow2(k + 16) == 0x1_0000 * Pow2(k)
  {
    assert Pow2(k + 4) == 2 * Pow2(k + 3) == 4 * Pow2(k + 2) == 8 * Pow2(k + 1);
    assert Pow2(k + 8) == 2 * Pow2(k + 7) == 4 * Pow2(k + 6) == 8 * Pow2(k + 5);
    assert Pow2(k + 12) == 2 * Pow2(k + 11) == 4 * Pow2(k + 10) == 8 * Pow2(k + 9);
    assert Pow2(k + 16) == 2 * Pow2(k + 15) == 4 * Pow2(k + 14) == 8 * Pow2(k + 13);
  }

  lemma {:induction false} Pow2Words(words: nat, k: nat)
    requires k == 16 * words
    ensures words == 1 ==> Pow2(k) == 0x1_0000
    ensures words == 2 ==> Pow2(k) == 0x1_0000_0000
    ensures words == 3 ==> Pow2(k) == 0x1_0000_0000_0000
  {
    if words > 0 {
      Pow2Words(words - 1, k - 16);
      Pow2Plus16(k - 16);
    }
  }

  lemma LowBits(q: nat, r: nat, i: nat)
    requires r < 0x1_0000
    ensures Bit(q * 0x1_0000 + r, i) <==> if i < 16 then Bit(r, i) else Bit(q, i - 16)
  {
    Pow2Words(1, 16);
    SplitBits(q, r, 16, i);
  }

  lemma KeptBits(wr: nat, j: nat)
    ensures Bit(wr % 0x1_0000_0000_0000, j) <==> j < 48 && Bit(wr, j)
  {
    Pow2Words(3, 48);
    SplitBits(wr / 0x1_0000_0000_0000, wr % 0x1_0000_0000_0000, 48, j);
    if 48 <= j {
      HighBitsClear(wr % 0x1_0000_0000_0000, 48, j);
    }
  }

  lemma UnpackBits(w: nat, i: nat)
    ensures Bit(UserOf(w), i) <==> Bit(w, i + 16)
    ensures Bit(MarkOf(w), i) <==> i < 16 && Bit(w, i)
  {
    LowBits(UserOf(w), MarkOf(w), i);
    LowBits(UserOf(w), MarkOf(w), i + 16);
    if 16 <= i {
      Pow2Words(1, 16);
      HighBitsClear(MarkOf(w), 16, i);
    }
  }

  /**
   * The arithmetic is the code's shift, or and mask: a bit of the packed word is one of the
   * shifted id, cut to 64 bits, or one of the mark; the shift back moves every bit by
   * sixteen, and the mask keeps the lowest sixteen.
   */
  lemma PackBits(wr: nat, mark: nat, i: nat)
    requires mark < U16_RANGE
    ensures Bit(Pack(wr, mark), i) <==> (16 <= i < 64 && Bit(wr, i - 16)) || Bit(mark, i)
    ensures Bit(UserOf(Pack(wr, mark)), i) <==> Bit(Pack(wr, mark), i + 16)
    ensures Bit(MarkOf(Pack(wr, mark)), i) <==> i < 16 && Bit(Pack(wr, mark), i)
  {
    ShiftedId(wr);
    var kept := wr % 0x1_0000_0000_0000;
    LowBits(kept, mark, i);
    UnpackBits(Pack(wr, mark), i);
    if 16 <= i {
      Pow2Words(1, 16);
      HighBitsClear(mark, 16, i);
      KeptBits(wr, i - 16);
    }
  }

  lemma ShiftedId(wr: nat)
    ensures (wr * 0x1_0000) % 0x1_0000_0000_0000_0000 == (wr % 0x1_0000_0000_0000) * 0x1_0000
  {
    var q, r := wr / 0x1_0000_0000_0000, wr % 0x1_0000_0000_0000;
    assert wr * 0x1_0000 == q * 0x1_0000_0000_0000_0000 + r * 0x1_0000;
  }

  /** The mark always survives packing; the caller's id does exactly when it has 48 bits. */
  lemma PackRoundTrip(wr: nat, mark: nat)
    requires mark < U16_RANGE
    ensures MarkOf(Pack(wr, mark)) == mark
    ensures UserOf(Pack(wr, mark)) == wr % 0x1_0000_0000_0000
    ensures UserOf(Pack(wr, mark)) == wr <==> wr < 0x1_0000_0000_0000
  {
    ShiftedId(wr);
    var r := wr % 0x1_0000_0000_0000;
    assert Pack(wr, mark) == r * 0x1_0000 + mark;
  }

  // ---- a run, on values ----

  /** A posted work request; `index` counts the requests encoded up to and with this one. */
  datatype Wr = Wr(wrId: nat, signaled: bool, user: nat, index: nat)

  /**
   * `encoded` and `completed` are the unbounded counts behind `high` and `low`. `stray` is the
   * unset word that a failed poll decoded, if no completion was polled after it.
   */
  datatype Sender = Sender(
    high: nat, low: nat, outSignaled: nat,
    queue: seq<Wr>, cq: seq<Wr>,
    encoded: nat, completed: nat, attempts: nat, polls: nat, stray: Option<nat>)

  /** PollFails: the driver reports an error and leaves `unset` in the completion. */
  datatype Action =
    | Send(user: nat, signaled: bool, posted: bool)
    | Process
    | Poll
    | PollFails(unset: nat)

  const IDLE := Sender(0, 0, 0, [], [], 0, 0, 0, 0, None)

  function SendStep(s: Sender, user: nat, signaled: bool, posted: bool): Sender {
    var high := Wrap16(s.high + 1);
    var wr := Wr(Pack(user, high), signaled, user, s.encoded + 1);
    s.(high := high, encoded := s.encoded + 1,
       outSignaled := if signaled then Wrap32(s.outSignaled + 1) else s.outSignaled,
       attempts := if signaled then s.attempts + 1 else s.attempts,
       queue := if posted then s.queue + [wr] else s.queue)
  }

  /** The NIC finishes its oldest request; only a signaled one leaves a completion. */
  function ProcessStep(s: Sender): Sender {
    if s.queue == [] then s
    else s.(queue := s.queue[1..], cq := if s.queue[0].signaled then s.cq + [s.queue[0]] else s.cq)
  }

  function PollStep(s: Sender): Sender {
    if s.cq == [] then s
    else
      s.(cq := s.cq[1..], low := MarkOf(s.cq[0].wrId), completed := s.cq[0].index,
         outSignaled := Wrap32(s.outSignaled + 0xffff_ffff), polls := s.polls + 1, stray := None)
  }

  /** Only a result of zero is no completion: after an error the unset word is decoded. */
  function PollFailsStep(s: Sender, unset: nat): Sender {
    s.(low := MarkOf(unset), stray := Some(unset))
  }

  function Step(s: Sender, a: Action): Sender {
    match a
    case Send(user, signaled, posted) => SendStep(s, user, signaled, posted)
    case Process => ProcessStep(s)
    case Poll => PollStep(s)
    case PollFails(unset) => PollFailsStep(s, unset)
  }

  function Run(s: Sender, acts: seq<Action>): Sender
    decreases |acts|
  {
    if acts == [] then s else Run(Step(s, acts[0]), acts[1..])
  }

  function PendingReqs(high: nat, low: nat): nat
    requires high < U16_RANGE && low < U16_RANGE
  {
    if high >= low then high - low else Wrap16(0xffff - (low - high) + 1)
  }

  /** Requests on their way, oldest first. */
  function Flying(s: Sender): seq<Wr> {
    s.cq + s.queue
  }

  predicate GoodWr(wr: Wr) {
    wr.wrId == Pack(wr.user, Wrap16(wr.index))
  }

  /** Requests whose marks are right and whose indices increase within `(above, upTo]`. */
  predicate Ordered(ws: seq<Wr>, above: nat, upTo: nat) {
    if ws == [] then above <= upTo
    else GoodWr(ws[0]) && above < ws[0].index && Ordered(ws[1..], ws[0].index, upTo)
  }

  function SignaledIn(ws: seq<Wr>): nat {
    if ws == [] then 0 else (if ws[0].signaled then 1 else 0) + SignaledIn(ws[1..])
  }

  predicate Watermarks(s: Sender) {
    s.high == Wrap16(s.encoded) && s.low == (if s.stray.None? then Wrap16(s.completed) else MarkOf(s.stray.value))
  }

  /** out_signaled is what 32 bits keep of the signaled requests sent less those polled. */
  predicate Counts(s: Sender) {
    s.polls <= s.attempts && s.outSignaled == Wrap32(s.attempts - s.polls)
  }

  predicate Inv(s: Sender) {
    && Watermarks(s)
    && Ordered(Flying(s), s.completed, s.encoded)
    && (forall wr :: wr in s.cq ==> wr.signaled)
    && SignaledIn(Flying(s)) + s.polls <= s.attempts
    && Counts(s)
  }

  lemma Wrap16Step(n: nat)
    ensures Wrap16(Wrap16(n) + 1) == Wrap16(n + 1)
  {
  }

  lemma Wrap32Steps(n: nat)
    ensures Wrap32(Wrap32(n) + 1) == Wrap32(n + 1)
    ensures n > 0 ==> Wrap32(Wrap32(n) + 0xffff_ffff) == Wrap32(n - 1)
  {
  }

  lemma {:induction false} SignaledAppend(ws: seq<Wr>, vs: seq<Wr>)
    ensures SignaledIn(ws + vs) == SignaledIn(ws) + SignaledIn(vs)
  {
    if ws == [] {
      assert ws + vs == vs;
    } else {
      assert (ws + vs)[1..] == ws[1..] + vs;
      SignaledAppend(ws[1..], vs);
    }
  }

  lemma {:induction false} OrderedBounds(ws: seq<Wr>, above: nat, upTo: nat)
    requires Ordered(ws, above, upTo)
    ensures above <= upTo
  {
    if ws != [] {
      OrderedBounds(ws[1..], ws[0].index, upTo);
    }
  }

  lemma {:induction false} OrderedMore(ws: seq<Wr>, above: nat, upTo: nat, more: seq<Wr>, bound: nat)
    requires Ordered(ws, above, upTo) && Ordered(more, upTo, bound)
    ensures Ordered(ws + more, above, bound)
  {
    if ws == [] {
      assert ws + more == more;
      OrderedLower(more, upTo, above, bound);
    } else {
      assert (ws + more)[1..] == ws[1..] + more;
      OrderedMore(ws[1..], ws[0].index, upTo, more, bound);
    }
  }

  lemma OrderedLower(ws: seq<Wr>, above: nat, lower: nat, upTo: nat)
    requires lower <= above && Ordered(ws, above, upTo)
    ensures Ordered(ws, lower, upTo)
  {
  }

  lemma {:induction false} OrderedWithout(ws: seq<Wr>, k: nat, above: nat, upTo: nat)
    requires k < |ws| && Ordered(ws, above, upTo)
    ensures Ordered(ws[..k] + ws[k + 1..], above, upTo)
  {
    if k == 0 {
      OrderedLower(ws[1..], ws[0].index, above, upTo);
      assert ws[..0] + ws[1..] == ws[1..];
    } else {
      OrderedWithout(ws[1..], k - 1, ws[0].index, upTo);
      assert (ws[..k] + ws[k + 1..])[1..] == ws[1..][..k - 1] + ws[1..][k..];
    }
  }

  lemma SendKeepsInv(s: Sender, user: nat, signaled: bool, posted: bool)
    requires Inv(s)
    ensures Inv(SendStep(s, user, signaled, posted))
  {
    Wrap16Step(s.encoded);
    Wrap32Steps(s.attempts - s.polls);
    var s' := SendStep(s, user, signaled, posted);
    if posted {
      var wr := s'.queue[|s.queue|];
      assert [wr][1..] == [];
      SignaledAppend(Flying(s), [wr]);
      OrderedMore(Flying(s), s.completed, s.encoded, [wr], s.encoded + 1);
      assert Flying(s') == Flying(s) + [wr];
    } else {
      OrderedMore(Flying(s), s.completed, s.encoded, [], s.encoded + 1);
      assert Flying(s) + [] == Flying(s);
    }
  }

  /** The NIC's step takes an unsignaled request out, or leaves the requests on their way alone. */
  lemma ProcessFlying(s: Sender)
    ensures SignaledIn(Flying(ProcessStep(s))) == SignaledIn(Flying(s))
    ensures Flying(ProcessStep(s)) == Flying(s)
         || (s.queue != [] && Flying(ProcessStep(s)) == Flying(s)[..|s.cq|] + Flying(s)[|s.cq| + 1..])
  {
    if s.queue != [] {
      var wr := s.queue[0];
      assert s.queue == [wr] + s.queue[1..];
      if wr.signaled {
        assert Flying(ProcessStep(s)) == Flying(s);
      } else {
        SignaledAppend(s.cq, s.queue);
        SignaledAppend(s.cq, s.queue[1..]);
      }
    }
  }

  lemma ProcessKeepsInv(s: Sender)
    requires Inv(s)
    ensures Inv(ProcessStep(s))
  {
    ProcessFlying(s);
    if s.queue != [] {
      OrderedWithout(Flying(s), |s.cq|, s.completed, s.encoded);
    }
  }

  lemma PollFlying(s: Sender)
    requires s.cq != []
    ensures Flying(s) != [] && Flying(s)[0] == s.cq[0] && Flying(s)[1..] == Flying(PollStep(s))
  {
  }

  lemma PollKeepsInv(s: Sender)
    requires Inv(s)
    ensures Inv(PollStep(s))
  {
    if s.cq != [] {
      PollFlying(s);
      PackRoundTrip(s.cq[0].user, Wrap16(s.cq[0].index));
      Wrap32Steps(s.attempts - s.polls);
    }
  }

  lemma StepKeepsInv(s: Sender, a: Action)
    requires Inv(s)
    ensures Inv(Step(s, a))
  {
    match a
    case Send(user, signaled, posted) => SendKeepsInv(s, user, signaled, posted);
    case Process => ProcessKeepsInv(s);
    case Poll => PollKeepsInv(s);
    case PollFails(_) =>
  }

  lemma {:induction false} RunKeepsInv(s: Sender, acts: seq<Action>)
    requires Inv(s)
    ensures Inv(Run(s, acts))
    decreases |acts|
  {
    if acts != [] {
      StepKeepsInv(s, acts[0]);
      RunKeepsInv(Step(s, acts[0]), acts[1..]);
    }
  }

  lemma PendingIsDifference(encoded: nat, completed: nat, low: nat)
    requires completed <= encoded && low < U16_RANGE
    ensures PendingReqs(Wrap16(encoded), low) == encoded - completed <==>
              encoded - completed < U16_RANGE && low == Wrap16(completed)
  {
    var d := PendingReqs(Wrap16(encoded), low);
    AroundTheRange(encoded, low, d);
    AroundTheRange(encoded, Wrap16(completed), Wrap16(encoded - completed));
  }

  /** The distance from `low` to the mark of `n` is the one number below 2^16 that leads there. */
  lemma AroundTheRange(n: nat, low: nat, d: nat)
    requires low < U16_RANGE && d < U16_RANGE
    ensures Wrap16(low + d) == Wrap16(n) <==> d == PendingReqs(Wrap16(n), low)
  {
  }

  /** The index of the request whose completion a run polls last, or `last` if it polls none. */
  function LastPolled(s: Sender, acts: seq<Action>, last: nat): nat
    decreases |acts|
  {
    if acts == [] then last
    else LastPolled(Step(s, acts[0]), acts[1..], if acts[0].Poll? && s.cq != [] then s.cq[0].index else last)
  }

  lemma {:induction false} CompletedIsLastPolled(s: Sender, acts: seq<Action>)
    ensures Run(s, acts).completed == LastPolled(s, acts, s.completed)
    decreases |acts|
  {
    if acts != [] {
      CompletedIsLastPolled(Step(s, acts[0]), acts[1..]);
    }
  }

  /**
   * Over every run the two 16-bit watermarks give the number of requests encoded after the
   * one polled last, exactly when that number has 16 bits and no failed poll has put another
   * mark in place of that completion's.
   */
  lemma PendingRefinesCount(acts: seq<Action>)
    ensures var s := Run(IDLE, acts);
            s.encoded == |SendsOf(acts)| && s.completed == LastPolled(IDLE, acts, 0)
    ensures var s := Run(IDLE, acts);
            && s.high < U16_RANGE && s.low < U16_RANGE && s.completed <= s.encoded
            && (PendingReqs(s.high, s.low) == s.encoded - s.completed <==>
                  && s.encoded - s.completed < U16_RANGE
                  && (s.stray.None? || MarkOf(s.stray.value) == Wrap16(s.completed)))
  {
    RunKeepsInv(IDLE, acts);
    RunKeepsAttempts(IDLE, acts, []);
    CompletedIsLastPolled(IDLE, acts);
    var s := Run(IDLE, acts);
    OrderedBounds(Flying(s), s.completed, s.encoded);
    PendingIsDifference(s.encoded, s.completed, s.low);
  }

  /** One request sent, and a poll that fails: the watermark moves although nothing completed. */
  lemma FailedPollMovesMark()
    ensures var s := Run(IDLE, [Send(0, true, true), PollFails(1)]);
            PendingReqs(s.high, s.low) == 0 && s.encoded - s.completed == 1
  {
    var acts := [Send(0, true, true), PollFails(1)];
    assert acts[1..] == [PollFails(1)] && acts[1..][1..] == [];
    var s := SendStep(IDLE, 0, true, true);
    assert Run(s, [PollFails(1)]) == PollFailsStep(s, 1);
  }

  // ---- whose ids come back ----

  /** What the caller sent, attempt by attempt: the id, and whether a completion was asked for. */
  function SendsOf(acts: seq<Action>): seq<(nat, bool)> {
    if acts == [] then []
    else (if acts[0].Send? then [(acts[0].user, acts[0].signaled)] else []) + SendsOf(acts[1..])
  }

  /** A request is the attempt that its index counts. */
  predicate IsAttempt(wr: Wr, sent: seq<(nat, bool)>) {
    1 <= wr.index <= |sent| && (wr.user, wr.signaled) == sent[wr.index - 1]
  }

  predicate AllAttempts(ws: seq<Wr>, sent: seq<(nat, bool)>) {
    forall wr :: wr in ws ==> IsAttempt(wr, sent)
  }

  lemma StepKeepsAttempts(s: Sender, a: Action, sent: seq<(nat, bool)>)
    requires |sent| == s.encoded && AllAttempts(Flying(s), sent)
    ensures var more := sent + if a.Send? then [(a.user, a.signaled)] else [];
            |more| == Step(s, a).encoded && AllAttempts(Flying(Step(s, a)), more)
  {
    var s', more := Step(s, a), sent + if a.Send? then [(a.user, a.signaled)] else [];
    forall wr | wr in Flying(s')
      ensures IsAttempt(wr, more)
    {
      if wr in Flying(s) {
        assert IsAttempt(wr, sent);
      } else {
        assert a.Send? && wr == s'.queue[|s.queue|];
      }
    }
  }

  lemma {:induction false} RunKeepsAttempts(s: Sender, acts: seq<Action>, sent: seq<(nat, bool)>)
    requires |sent| == s.encoded && AllAttempts(Flying(s), sent)
    ensures |sent + SendsOf(acts)| == Run(s, acts).encoded
    ensures AllAttempts(Flying(Run(s, acts)), sent + SendsOf(acts))
    decreases |acts|
  {
    if acts == [] {
      assert sent + SendsOf(acts) == sent;
    } else {
      var more := sent + if acts[0].Send? then [(acts[0].user, acts[0].signaled)] else [];
      StepKeepsAttempts(s, acts[0], sent);
      RunKeepsAttempts(Step(s, acts[0]), acts[1..], more);
      Assoc(sent, if acts[0].Send? then [(acts[0].user, acts[0].signaled)] else [], SendsOf(acts[1..]));
    }
  }

  /** Over every run each request on its way holds the id and the flag that the caller sent. */
  lemma FlyingAreAttempts(acts: seq<Action>)
    ensures AllAttempts(Flying(Run(IDLE, acts)), SendsOf(acts))
  {
    RunKeepsAttempts(IDLE, acts, []);
    assert [] + SendsOf(acts) == SendsOf(acts);
  }

  /** What the next poll hands back: the id that the caller sent, if that had 48 bits. */
  lemma PolledUserId(acts: seq<Action>)
    requires Run(IDLE, acts).cq != []
    ensures var wr := Run(IDLE, acts).cq[0];
            && 1 <= wr.index <= |SendsOf(acts)|
            && var sent := SendsOf(acts)[wr.index - 1].0;
               (UserOf(wr.wrId) == sent <==> sent < 0x1_0000_0000_0000)
  {
    var s := Run(IDLE, acts);
    RunKeepsInv(IDLE, acts);
    FlyingAreAttempts(acts);
    PollFlying(s);
    assert IsAttempt(Flying(s)[0], SendsOf(acts));
    PackRoundTrip(s.cq[0].user, Wrap16(s.cq[0].index));
  }

  /** The id that a step gives back, if any. */
  function StepPolled(s: Sender, a: Action): seq<nat> {
    if a.Poll? && s.cq != [] then [UserOf(s.cq[0].wrId)] else []
  }

  /** The low 48 bits of the id that a step posts for a completion, if any. */
  function StepPosted(a: Action): seq<nat> {
    if a.Send? && a.signaled && a.posted then [a.user % 0x1_0000_0000_0000] else []
  }

  /** The ids that the polls of a run give back, in order. */
  function PolledIds(s: Sender, acts: seq<Action>): seq<nat>
    decreases |acts|
  {
    if acts == [] then [] else StepPolled(s, acts[0]) + PolledIds(Step(s, acts[0]), acts[1..])
  }

  /** The ids that were sent for a completion and could be posted, in order. */
  function PostedIds(acts: seq<Action>): seq<nat> {
    if acts == [] then [] else StepPosted(acts[0]) + PostedIds(acts[1..])
  }

  function IdOf(wr: Wr): seq<nat> {
    if wr.signaled then [UserOf(wr.wrId)] else []
  }

  /** The ids that the requests on their way will give back. */
  function ComingIds(ws: seq<Wr>): seq<nat> {
    if ws == [] then [] else IdOf(ws[0]) + ComingIds(ws[1..])
  }

  lemma Assoc<T>(a: seq<T>, b: seq<T>, c: seq<T>)
    ensures (a + b) + c == a + (b + c)
  {
  }

  lemma {:induction false} ComingAppend(ws: seq<Wr>, vs: seq<Wr>)
    ensures ComingIds(ws + vs) == ComingIds(ws) + ComingIds(vs)
  {
    if ws == [] {
      assert ws + vs == vs;
    } else {
      assert (ws + vs)[1..] == ws[1..] + vs && (ws + vs)[0] == ws[0];
      ComingAppend(ws[1..], vs);
      Assoc(IdOf(ws[0]), ComingIds(ws[1..]), ComingIds(vs));
    }
  }

  lemma ComingOne(wr: Wr)
    ensures ComingIds([wr]) == IdOf(wr)
  {
    assert [wr][1..] == [];
  }

  lemma SendFlow(s: Sender, user: nat, signaled: bool, posted: bool)
    ensures ComingIds(Flying(SendStep(s, user, signaled, posted)))
         == ComingIds(Flying(s)) + StepPosted(Send(user, signaled, posted))
  {
    if posted {
      var s' := SendStep(s, user, signaled, posted);
      var wr := s'.queue[|s.queue|];
      PackRoundTrip(user, Wrap16(s.high + 1));
      ComingAppend(Flying(s), [wr]);
      ComingOne(wr);
      assert Flying(s') == Flying(s) + [wr];
    }
  }

  lemma ProcessFlow(s: Sender)
    ensures ComingIds(Flying(ProcessStep(s))) == ComingIds(Flying(s))
  {
    if s.queue != [] {
      var wr, rest := s.queue[0], s.queue[1..];
      assert Flying(s) == s.cq + ([wr] + rest);
      if wr.signaled {
        assert Flying(ProcessStep(s)) == Flying(s);
      } else {
        ComingAppend(s.cq, rest);
        ComingAppend(s.cq, [wr] + rest);
        ComingAppend([wr], rest);
        ComingOne(wr);
      }
    }
  }

  /** One step: what it gives back comes off the front, what it posts goes to the end. */
  lemma StepFlow(s: Sender, a: Action)
    requires forall wr :: wr in s.cq ==> wr.signaled
    ensures StepPolled(s, a) + ComingIds(Flying(Step(s, a))) == ComingIds(Flying(s)) + StepPosted(a)
    ensures forall wr :: wr in Step(s, a).cq ==> wr.signaled
  {
    match a
    case Send(user, signaled, posted) => SendFlow(s, user, signaled, posted);
    case Process => ProcessFlow(s);
    case Poll =>
      if s.cq != [] {
        PollFlying(s);
      }
    case PollFails(_) =>
  }

  lemma {:induction false} IdsFlow(s: Sender, acts: seq<Action>)
    requires forall wr :: wr in s.cq ==> wr.signaled
    ensures PolledIds(s, acts) + ComingIds(Flying(Run(s, acts))) == ComingIds(Flying(s)) + PostedIds(acts)
    decreases |acts|
  {
    if acts != [] {
      var s', rest := Step(s, acts[0]), acts[1..];
      StepFlow(s, acts[0]);
      IdsFlow(s', rest);
      Assoc(StepPolled(s, acts[0]), PolledIds(s', rest), ComingIds(Flying(Run(s', rest))));
      Assoc(StepPolled(s, acts[0]), ComingIds(Flying(s')), PostedIds(rest));
      Assoc(ComingIds(Flying(s)), StepPosted(acts[0]), PostedIds(rest));
    }
  }

  /**
   * Completions over every run: the ids polled so far, and then those still to come, are the
   * ids of the signaled requests that could be posted, in the order they were sent; none is
   * lost, repeated or made up. Of each id its low 48 bits survive.
   */
  lemma PolledIdsInOrder(acts: seq<Action>)
    ensures PolledIds(IDLE, acts) + ComingIds(Flying(Run(IDLE, acts))) == PostedIds(acts)
  {
    IdsFlow(IDLE, acts);
    assert [] + PostedIds(acts) == PostedIds(acts);
  }

  /** Signaled requests whose post failed. */
  function Failed(acts: seq<Action>): nat {
    if acts == [] then 0
    else (if acts[0].Send? && acts[0].signaled && !acts[0].posted then 1 else 0) + Failed(acts[1..])
  }

  lemma SendFlying(s: Sender, user: nat, signaled: bool, posted: bool)
    ensures SignaledIn(Flying(SendStep(s, user, signaled, posted)))
         == SignaledIn(Flying(s)) + if signaled && posted then 1 else 0
  {
    if posted {
      var s' := SendStep(s, user, signaled, posted);
      var wr := s'.queue[|s.queue|];
      SignaledAppend(Flying(s), [wr]);
      assert Flying(s') == Flying(s) + [wr] && [wr][1..] == [];
    }
  }

  /** Every signaled attempt is polled, on its way, or failed to be posted. */
  lemma {:induction false} AttemptsAddUp(s: Sender, acts: seq<Action>, failed: nat)
    requires Inv(s) && SignaledIn(Flying(s)) + s.polls + failed == s.attempts
    ensures var e := Run(s, acts); SignaledIn(Flying(e)) + e.polls + failed + Failed(acts) == e.attempts
    decreases |acts|
  {
    if acts != [] {
      StepKeepsInv(s, acts[0]);
      match acts[0]
      case Send(user, signaled, posted) =>
        SendFlying(s, user, signaled, posted);
        AttemptsAddUp(Step(s, acts[0]), acts[1..], failed + if signaled && !posted then 1 else 0);
      case Process =>
        ProcessFlying(s);
        AttemptsAddUp(Step(s, acts[0]), acts[1..], failed);
      case Poll =>
        if s.cq != [] {
          PollFlying(s);
        }
        AttemptsAddUp(Step(s, acts[0]), acts[1..], failed);
      case PollFails(_) =>
        AttemptsAddUp(Step(s, acts[0]), acts[1..], failed);
    }
  }

  lemma AttemptsLessPolls(acts: seq<Action>)
    ensures var s := Run(IDLE, acts);
            Counts(s) && s.attempts - s.polls == SignaledIn(Flying(s)) + Failed(acts)
  {
    RunKeepsInv(IDLE, acts);
    AttemptsAddUp(IDLE, acts, 0);
  }

  lemma Wrap32Sum(x: nat, f: nat)
    ensures Wrap32(x + f) == Wrap32(x) <==> Wrap32(f) == 0
  {
    var r := Wrap32(x) + Wrap32(f);
    assert Wrap32(x + f) == if r < 0x1_0000_0000 then r else r - 0x1_0000_0000;
  }

  /**
   * out_signaled is, in 32 bits, the signaled requests on their way plus those that were never
   * posted. So it counts the completions still to come exactly when no signaled post failed
   * (or a multiple of 2^32 did).
   */
  lemma OutSignaledCounts(acts: seq<Action>)
    ensures var s := Run(IDLE, acts);
            && s.outSignaled == Wrap32(SignaledIn(Flying(s)) + Failed(acts))
            && (s.outSignaled == Wrap32(SignaledIn(Flying(s))) <==> Wrap32(Failed(acts)) == 0)
  {
    AttemptsLessPolls(acts);
    Wrap32Sum(SignaledIn(Flying(Run(IDLE, acts))), Failed(acts));
  }

  /** One signaled request that could not be posted: a completion is counted that never comes. */
  lemma FailedPostIsCounted(user: nat)
    ensures var s := Run(IDLE, [Send(user, true, false)]);
            s.outSignaled == 1 && Flying(s) == []
  {
    var acts := [Send(user, true, false)];
    assert acts[1..] == [];
    assert Run(IDLE, acts) == SendStep(IDLE, user, true, false);
  }

  // ---- the objects ----

  class Progress {
    var highWatermark: nat
    var lowWatermark: nat

    ghost predicate Valid()
      reads this
    {
      highWatermark < U16_RANGE && lowWatermark < U16_RANGE
    }

    constructor ()
      ensures Valid() && highWatermark == lowWatermark == 0
    {
      highWatermark, lowWatermark := 0, 0;
    }

    method Forward(num: nat) returns (mark: nat)
      requires Valid()
      modifies `highWatermark
      ensures Valid() && mark == highWatermark == Wrap16(old(highWatermark) + num)
    {
      highWatermark := Wrap16(highWatermark + num);
      mark := highWatermark;
    }

    method Done(num: nat)
      requires Valid()
      modifies `lowWatermark
      ensures Valid() && lowWatermark == Wrap16(num)
    {
      lowWatermark := Wrap16(num);
    }

    /** pending_reqs is the distance from the low to the high watermark around 16 bits. */
    method Pending() returns (n: nat)
      requires Valid()
      ensures n < U16_RANGE && Wrap16(lowWatermark + n) == highWatermark
      ensures n == PendingReqs(highWatermark, lowWatermark)
    {
      if highWatermark >= lowWatermark {
        return highWatermark - lowWatermark;
      }
      return Wrap16(0xffff - (lowWatermark - highWatermark) + 1);
    }
  }

  class RcSender {
    const progress: Progress
    var outSignaled: nat
    var queue: seq<Wr>
    var cq: seq<Wr>
    var encoded: nat // history: the unbounded count of encoded requests
    ghost var completed: nat
    ghost var attempts: nat
    ghost var polls: nat
    ghost var stray: Option<nat>

    ghost function View(): Sender
      reads this, progress
    {
      Sender(progress.highWatermark, progress.lowWatermark, outSignaled, queue, cq,
             encoded, completed, attempts, polls, stray)
    }

    constructor ()
      ensures View() == IDLE && progress.Valid() && fresh(progress)
    {
      progress := new Progress();
      outSignaled, queue, cq := 0, [], [];
      encoded, completed, attempts, polls, stray := 0, 0, 0, 0, None;
    }

    method EncodeMyWr(wr: nat, forwardNum: nat) returns (wrId: nat)
      requires progress.Valid()
      modifies progress`highWatermark, `encoded
      ensures progress.Valid() && progress.highWatermark == Wrap16(old(progress.highWatermark) + forwardNum)
      ensures wrId == Pack(wr, progress.highWatermark) && encoded == old(encoded) + forwardNum
    {
      var mark := progress.Forward(forwardNum);
      encoded := encoded + forwardNum;
      wrId := Pack(wr, mark);
    }

    /** send_normal and Op::execute: encode, count a signaled request, and only then try to post. */
    method SendOne(user: nat, signaled: bool) returns (posted: bool)
      requires progress.Valid()
      modifies this, progress`highWatermark
      ensures progress.Valid() && View() == SendStep(old(View()), user, signaled, posted)
    {
      var wrId := EncodeMyWr(user, 1);
      if signaled {
        outSignaled := Wrap32(outSignaled + 1);
        attempts := attempts + 1;
      }
      posted := *;
      if posted {
        queue := queue + [Wr(wrId, signaled, user, encoded)];
      }
    }

    /** poll_send_comp: the driver's result and the completion, which it may leave unset. */
    method PollSendComp(failed: bool, unset: nat) returns (num: int, wrId: nat)
      modifies `cq, `outSignaled
      ensures num == if failed then -1 else if old(cq) == [] then 0 else 1
      ensures wrId == if num == 1 then old(cq)[0].wrId else unset
      ensures cq == if num == 1 then old(cq)[1..] else old(cq)
      ensures outSignaled == if num == 1 then Wrap32(old(outSignaled) + 0xffff_ffff) else old(outSignaled)
    {
      if failed {
        return -1, unset;
      }
      if cq == [] {
        return 0, unset;
      }
      wrId := cq[0].wrId;
      cq := cq[1..];
      outSignaled := Wrap32(outSignaled + 0xffff_ffff);
      return 1, wrId;
    }

    /** poll_rc_comp: what is not zero moves the low watermark and gives back an id. */
    method PollRcComp(failed: bool, unset: nat) returns (r: Option<nat>)
      requires progress.Valid()
      modifies this, progress`lowWatermark
      ensures progress.Valid()
      ensures View() == if failed then PollFailsStep(old(View()), unset) else PollStep(old(View()))
      ensures r == if failed then Some(UserOf(unset))
                   else if old(cq) == [] then None else Some(UserOf(old(cq)[0].wrId))
    {
      ghost var before := cq;
      var num, wrId := PollSendComp(failed, unset);
      if num == 0 {
        return None;
      }
      progress.Done(MarkOf(wrId));
      if num > 0 {
        completed := before[0].index;
        polls := polls + 1;
        stray := None;
      } else {
        stray := Some(unset);
      }
      return Some(UserOf(wrId));
    }
  }
}
