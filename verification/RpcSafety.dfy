/**
 * The RPC protocol as a whole: any number of clients, one server, and a network that may
 * lose, duplicate, reorder and corrupt datagrams. A run is a sequence of actions; a
 * datagram once sent may be delivered never, once or often. All messages are the byte
 * strings of SRpcSpec.
 */
module RpcSafety {
  import opened Bytes
  import opened Wrappers
  import opened SRpcSpec

  datatype Call = Call(client: Addr, checksum: nat, id: Byte, parameter: seq<Byte>)

  /** One handler execution: for which call, in which server state, with which answer. */
  datatype Execution<S> = Execution(call: Call, pre: S, answer: Option<seq<Byte>>)

  /** A reply in flight; `cause` records the call it answers, None for an undecodable request. */
  datatype ReplyPacket = ReplyPacket(peer: Addr, bytes: seq<Byte>, cause: Option<Call>)

  /** A reply that matched the client's checksum and advanced it. */
  datatype Acceptance = Acceptance(checksum: nat, result: IoResult, cause: Option<Call>)

  datatype Client = Client(checksum: nat, accepted: seq<Acceptance>)

  datatype World<S> = World(
    clients: map<Addr, Client>,
    requests: set<(Addr, seq<Byte>)>,
    replies: set<ReplyPacket>,
    alive: bool,
    server: S,
    buf: seq<Byte>,
    calls: seq<Call>,
    executions: seq<Execution<S>>)

  /**
   * DoGarbage and DoNoise deliver corrupted datagrams, ones that do not decode, to the server
   * and to a client; DoLapse is a timeout or an error of a client's receive.
   */
  datatype Action =
    | DoCall(client: Addr, id: Byte, parameter: seq<Byte>)
    | DoServe(source: Addr, datagram: seq<Byte>)
    | DoGarbage(source: Addr, datagram: seq<Byte>)
    | DoReceive(packet: ReplyPacket, heartbeat: bool)
    | DoNoise(client: Addr, datagram: seq<Byte>, heartbeat: bool)
    | DoLapse(client: Addr)

  function Init<S>(addrs: set<Addr>, server: S): World<S> {
    World(map a | a in addrs :: Client(INVALID_CHECKSUM + 1, []), {}, {}, true, server, Zeros(MAX_MSG), [], [])
  }

  function IssueCall<S>(w: World<S>, a: Addr, id: Byte, parameter: seq<Byte>): World<S>
    requires a in w.clients
  {
    match CallSpec(id, w.clients[a].checksum, parameter)
    case Send(d) =>
      w.(requests := w.requests + {(a, d)}, calls := w.calls + [Call(a, w.clients[a].checksum, id, parameter)])
    case _ => w
  }

  function CauseOf(a: Addr, q: Request): Option<Call> {
    if q.Request? && q.parameter.Found? then Some(Call(a, q.checksum, q.id, q.parameter.value)) else None
  }

  function ServeOne<S>(hs: map<Byte, Handler<S>>, w: World<S>, a: Addr, d: seq<Byte>): World<S>
    requires |w.buf| == MAX_MSG
  {
    var buf := Overlay(d, w.buf);
    var cause := CauseOf(a, DecodeRequest(buf));
    match Serve(hs, w.server, buf)
    case Crashed => w.(alive := false)
    case Replied(s, r) =>
      w.(server := s, buf := buf, replies := w.replies + {ReplyPacket(a, r, cause)},
         executions := w.executions +
           if cause.None? then []
           else [Execution(cause.value, w.server, hs[cause.value.id](w.server, cause.value.parameter).1)])
  }

  function Receive<S>(w: World<S>, p: ReplyPacket, heartbeat: bool): World<S>
    requires p.peer in w.clients
  {
    var c := w.clients[p.peer];
    match React(Overlay(p.bytes, Zeros(MAX_MSG)), c.checksum, heartbeat)
    case Ignored => w
    case Settled(result, checksum) =>
      if checksum == c.checksum then w
      else
        w.(clients := w.clients[p.peer :=
             Client(checksum, c.accepted + [Acceptance(c.checksum, result, p.cause)])])
  }

  /** One step of a run; an action that is not enabled changes nothing. */
  function Step<S>(hs: map<Byte, Handler<S>>, w: World<S>, act: Action): (w': World<S>)
    requires |w.buf| == MAX_MSG
    ensures |w'.buf| == MAX_MSG
  {
    match act
    case DoCall(a, id, parameter) => if a in w.clients then IssueCall(w, a, id, parameter) else w
    case DoServe(a, d) => if w.alive && (a, d) in w.requests then ServeOne(hs, w, a, d) else w
    case DoGarbage(a, d) =>
      if w.alive && DecodeRequest(Overlay(d, w.buf)).Undecodable? then ServeOne(hs, w, a, d) else w
    case DoReceive(p, heartbeat) =>
      if p in w.replies && p.peer in w.clients then Receive(w, p, heartbeat) else w
    case DoNoise(a, d, heartbeat) =>
      if a in w.clients && DecodeReply(Overlay(d, Zeros(MAX_MSG))).BadReply?
      then Receive(w, ReplyPacket(a, d, None), heartbeat) else w
    case DoLapse(_) => w
  }

  /** Bytes that do not decode settle a receive with an error; the counter stays. */
  lemma NoiseMovesNothing<S>(hs: map<Byte, Handler<S>>, w: World<S>, a: Addr, d: seq<Byte>, heartbeat: bool)
    requires |w.buf| == MAX_MSG
    ensures Step(hs, w, DoNoise(a, d, heartbeat)) == w
  {
  }

  function Run<S>(hs: map<Byte, Handler<S>>, w: World<S>, acts: seq<Action>): (w': World<S>)
    requires |w.buf| == MAX_MSG
    ensures |w'.buf| == MAX_MSG
    decreases |acts|
  {
    if acts == [] then w else Run(hs, Step(hs, w, acts[0]), acts[1..])
  }

  // ---- the invariant ----

  /** What a caller of receive_reply gets for a handler's answer. */
  function ResultOf(answer: Option<seq<Byte>>): IoResult {
    if BecomesNop(answer) then IoErr("Not ready")
    else if |answer.value| <= 4053 then IoOk(answer.value)
    else IoErr("decode reply error")
  }

  predicate GoodCall(calls: seq<Call>, c: Call) {
    c in calls && c.checksum < U64_RANGE && |c.parameter| <= 4054
  }

  function Datagram(c: Call): seq<Byte> {
    EncodeRequest(c.id, c.checksum, c.parameter)
  }

  ghost predicate RequestSent(calls: seq<Call>, a: Addr, d: seq<Byte>) {
    exists c :: GoodCall(calls, c) && c.client == a && d == Datagram(c)
  }

  predicate GoodExecution<S>(hs: map<Byte, Handler<S>>, calls: seq<Call>, e: Execution<S>) {
    && GoodCall(calls, e.call)
    && e.call.id in hs
    && e.answer == hs[e.call.id](e.pre, e.call.parameter).1
  }

  ghost predicate Executed<S>(executions: seq<Execution<S>>, c: Call, answer: Option<seq<Byte>>) {
    exists e :: e in executions && e.call == c && e.answer == answer
  }

  ghost predicate GoodReply<S>(executions: seq<Execution<S>>, p: ReplyPacket) {
    match p.cause
    case None => p.bytes == EncodeReply(STATUS_FATAL, INVALID_CHECKSUM, 0, None)
    case Some(c) =>
      c.client == p.peer
      && exists answer :: Executed(executions, c, answer) && p.bytes == AnswerReply(c.id, c.checksum, answer)
  }

  /** The acceptance answers an executed non-heartbeat call of this client under its checksum. */
  ghost predicate Justified<S>(executions: seq<Execution<S>>, a: Addr, acc: Acceptance) {
    && acc.cause.Some?
    && acc.cause.value.client == a && acc.cause.value.checksum == acc.checksum
    && acc.cause.value.id != HEART_BEAT
    && exists answer :: Executed(executions, acc.cause.value, answer) && acc.result == ResultOf(answer)
  }

  /** The counter after `n` acceptances: it starts at 1 and wraps at 64 bits. */
  function Counter(n: nat): (c: nat)
    ensures c < U64_RANGE && (n + 1 < U64_RANGE ==> c == n + 1)
  {
    (n + 1) % 0x1_0000_0000_0000_0000
  }

  lemma CounterStep(n: nat)
    ensures Counter(n + 1) == NextChecksum(Counter(n)) != Counter(n)
  {
  }

  ghost predicate GoodClient<S>(executions: seq<Execution<S>>, a: Addr, c: Client) {
    && c.checksum == Counter(|c.accepted|)
    && forall k :: 0 <= k < |c.accepted| && k < U64_RANGE - 1 ==>
         c.accepted[k].checksum == k + 1 && Justified(executions, a, c.accepted[k])
  }

  ghost predicate Inv<S(!new)>(hs: map<Byte, Handler<S>>, w: World<S>) {
    && BuiltInHeartbeat(hs)
    && |w.buf| == MAX_MSG
    && (forall r :: r in w.requests ==> RequestSent(w.calls, r.0, r.1))
    && (forall e :: e in w.executions ==> GoodExecution(hs, w.calls, e))
    && (forall p :: p in w.replies ==> GoodReply(w.executions, p))
    && (forall a :: a in w.clients ==> GoodClient(w.executions, a, w.clients[a]))
  }

  // ---- preservation, action by action ----

  lemma MoreExecutions<S>(executions: seq<Execution<S>>, more: seq<Execution<S>>)
    ensures forall c, answer :: Executed(executions, c, answer) ==> Executed(executions + more, c, answer)
  {
    forall c, answer | Executed(executions, c, answer)
      ensures Executed(executions + more, c, answer)
    {
      var e :| e in executions && e.call == c && e.answer == answer;
      assert e in executions + more;
    }
  }

  lemma CallKeepsInv<S(!new)>(hs: map<Byte, Handler<S>>, w: World<S>, a: Addr, id: Byte, parameter: seq<Byte>)
    requires Inv(hs, w) && a in w.clients
    ensures Inv(hs, IssueCall(w, a, id, parameter))
  {
    CallOutcomeBySize(id, w.clients[a].checksum, parameter);
    var w' := IssueCall(w, a, id, parameter);
    forall r | r in w'.requests
      ensures RequestSent(w'.calls, r.0, r.1)
    {
      if r in w.requests {
        var c :| GoodCall(w.calls, c) && c.client == r.0 && r.1 == Datagram(c);
        assert GoodCall(w'.calls, c);
      } else {
        assert GoodCall(w'.calls, Call(a, w.clients[a].checksum, id, parameter));
      }
    }
    forall e | e in w'.executions
      ensures GoodExecution(hs, w'.calls, e)
    {
      assert GoodExecution(hs, w.calls, e);
    }
  }

  /** Serving a sent request executes exactly that call. */
  lemma ServeSentRequest<S>(hs: map<Byte, Handler<S>>, w: World<S>, c: Call)
    requires |w.buf| == MAX_MSG && GoodCall(w.calls, c)
    ensures var buf := Overlay(Datagram(c), w.buf);
            && CauseOf(c.client, DecodeRequest(buf)) == Some(c)
            && Serve(hs, w.server, buf) ==
               if c.id !in hs then Crashed
               else var (s, answer) := hs[c.id](w.server, c.parameter);
                    Replied(s, AnswerReply(c.id, c.checksum, answer))
  {
    RequestRoundTrip(c.id, c.checksum, c.parameter, w.buf);
  }

  /**
   * The server's buffer is reused: after it served `c`, a datagram leaves the buffer as it is
   * exactly if it is a prefix of it, such as the empty one, and then the same request is
   * executed again, for whoever sent the datagram. It is no garbage, so no run has such a step.
   */
  lemma PrefixReplays<S>(hs: map<Byte, Handler<S>>, w: World<S>, c: Call, stale: seq<Byte>, b: Addr, d: seq<Byte>)
    requires c.checksum < U64_RANGE && |c.parameter| <= 4054
    requires |stale| == MAX_MSG && w.buf == Overlay(Datagram(c), stale)
    ensures |d| <= MAX_MSG ==> (Overlay(d, w.buf) == w.buf <==> d <= w.buf)
    ensures d <= w.buf ==>
              && CauseOf(b, DecodeRequest(Overlay(d, w.buf))) == Some(c.(client := b))
              && Step(hs, w, DoGarbage(b, d)) == w
  {
    RequestRoundTrip(c.id, c.checksum, c.parameter, stale);
    if d <= w.buf {
      assert Overlay(d, w.buf) == w.buf;
    }
  }

  lemma ServeKeepsInv<S(!new)>(hs: map<Byte, Handler<S>>, w: World<S>, a: Addr, d: seq<Byte>)
    requires Inv(hs, w) && (a, d) in w.requests
    ensures Inv(hs, ServeOne(hs, w, a, d))
  {
    var c :| GoodCall(w.calls, c) && c.client == a && d == Datagram(c);
    ServeSentRequest(hs, w, c);
    if c.id in hs {
      var e := Execution(c, w.server, hs[c.id](w.server, c.parameter).1);
      AddExecution(hs, w, ServeOne(hs, w, a, d), e);
    }
  }

  lemma AddExecution<S(!new)>(hs: map<Byte, Handler<S>>, w: World<S>, w': World<S>, e: Execution<S>)
    requires Inv(hs, w) && GoodExecution(hs, w.calls, e) && |w'.buf| == MAX_MSG
    requires w'.executions == w.executions + [e]
    requires w'.clients == w.clients && w'.requests == w.requests && w'.calls == w.calls
    requires w'.replies == w.replies +
      {ReplyPacket(e.call.client, AnswerReply(e.call.id, e.call.checksum, e.answer), Some(e.call))}
    ensures Inv(hs, w')
  {
    MoreExecutions(w.executions, [e]);
    assert e in w'.executions;
    assert Executed(w'.executions, e.call, e.answer);
    forall p | p in w'.replies
      ensures GoodReply(w'.executions, p)
    {
      assert p in w.replies ==> GoodReply(w.executions, p);
    }
    forall b | b in w'.clients
      ensures GoodClient(w'.executions, b, w'.clients[b])
    {
      assert GoodClient(w.executions, b, w.clients[b]);
    }
  }

  lemma GarbageKeepsInv<S(!new)>(hs: map<Byte, Handler<S>>, w: World<S>, a: Addr, d: seq<Byte>)
    requires Inv(hs, w) && DecodeRequest(Overlay(d, w.buf)).Undecodable?
    ensures Inv(hs, ServeOne(hs, w, a, d))
  {
    var w' := ServeOne(hs, w, a, d);
    assert w'.executions == w.executions;
  }

  /** How the client reacts to the reply that carries `answer` to `c`. */
  function AnswerReaction(c: Call, answer: Option<seq<Byte>>, checksum: nat, heartbeat: bool): Reaction {
    if c.id == HEART_BEAT then (if heartbeat then Settled(IoOk([]), checksum) else Ignored)
    else if c.checksum != checksum then Settled(IoErr("Fatal checksum error"), checksum)
    else Settled(ResultOf(answer), NextChecksum(checksum))
  }

  lemma ReactToAnswer(c: Call, answer: Option<seq<Byte>>, checksum: nat, heartbeat: bool)
    requires c.checksum < U64_RANGE && (c.id == HEART_BEAT ==> answer == Some([49]))
    ensures React(Overlay(AnswerReply(c.id, c.checksum, answer), Zeros(MAX_MSG)), checksum, heartbeat)
         == AnswerReaction(c, answer, checksum, heartbeat)
  {
    AnswerRoundTrip(c.id, c.checksum, answer, Zeros(MAX_MSG));
  }

  /** The reply to an undecodable request is accepted at checksum 0 only. */
  lemma ReactToFatal(checksum: nat, heartbeat: bool)
    ensures var r := React(Overlay(EncodeReply(STATUS_FATAL, INVALID_CHECKSUM, 0, None), Zeros(MAX_MSG)),
                           checksum, heartbeat);
            r.Settled? && r.checksum == if checksum == INVALID_CHECKSUM then NextChecksum(checksum) else checksum
  {
    ReplyRoundTrip(STATUS_FATAL, INVALID_CHECKSUM, 0, None, Zeros(MAX_MSG));
  }

  lemma ExecutedIsGood<S(!new)>(hs: map<Byte, Handler<S>>, w: World<S>, c: Call, answer: Option<seq<Byte>>)
    requires Inv(hs, w) && Executed(w.executions, c, answer)
    ensures GoodCall(w.calls, c) && c.id in hs && (c.id == HEART_BEAT ==> answer == Some([49]))
  {
    var e :| e in w.executions && e.call == c && e.answer == answer;
    assert GoodExecution(hs, w.calls, e);
  }

  lemma AcceptKeepsClient<S(!new)>(executions: seq<Execution<S>>, a: Addr, c: Client, acc: Acceptance)
    requires GoodClient(executions, a, c)
    requires acc.checksum == c.checksum
    requires c.checksum != INVALID_CHECKSUM ==> Justified(executions, a, acc)
    ensures GoodClient(executions, a, Client(NextChecksum(c.checksum), c.accepted + [acc]))
  {
    CounterStep(|c.accepted|);
  }

  lemma ReceiveKeepsInv<S(!new)>(hs: map<Byte, Handler<S>>, w: World<S>, p: ReplyPacket, heartbeat: bool)
    requires Inv(hs, w) && p in w.replies && p.peer in w.clients
    ensures Inv(hs, Receive(w, p, heartbeat))
  {
    var c := w.clients[p.peer];
    var r := React(Overlay(p.bytes, Zeros(MAX_MSG)), c.checksum, heartbeat);
    if r.Settled? && r.checksum != c.checksum {
      var acc := Acceptance(c.checksum, r.result, p.cause);
      AdvanceIsJustified(hs, w, p, heartbeat);
      AcceptKeepsClient(w.executions, p.peer, c, acc);
      ClientKeepsInv(hs, w, p.peer, Client(r.checksum, c.accepted + [acc]));
    }
  }

  /** A reply that moves the counter moves it by one and, away from 0, is justified. */
  lemma AdvanceIsJustified<S(!new)>(hs: map<Byte, Handler<S>>, w: World<S>, p: ReplyPacket, heartbeat: bool)
    requires Inv(hs, w) && p in w.replies && p.peer in w.clients
    requires var c := w.clients[p.peer];
             var r := React(Overlay(p.bytes, Zeros(MAX_MSG)), c.checksum, heartbeat);
             r.Settled? && r.checksum != c.checksum
    ensures var c := w.clients[p.peer];
            var r := React(Overlay(p.bytes, Zeros(MAX_MSG)), c.checksum, heartbeat);
            && r.checksum == NextChecksum(c.checksum)
            && (c.checksum != INVALID_CHECKSUM ==>
                  Justified(w.executions, p.peer, Acceptance(c.checksum, r.result, p.cause)))
  {
    var checksum := w.clients[p.peer].checksum;
    assert GoodReply(w.executions, p);
    match p.cause
    case None =>
      ReactToFatal(checksum, heartbeat);
    case Some(call) =>
      var answer :| Executed(w.executions, call, answer) && p.bytes == AnswerReply(call.id, call.checksum, answer);
      ExecutedIsGood(hs, w, call, answer);
      ReactToAnswer(call, answer, checksum, heartbeat);
  }

  lemma ClientKeepsInv<S(!new)>(hs: map<Byte, Handler<S>>, w: World<S>, a: Addr, c: Client)
    requires Inv(hs, w) && GoodClient(w.executions, a, c)
    ensures Inv(hs, w.(clients := w.clients[a := c]))
  {
  }

  lemma StepKeepsInv<S(!new)>(hs: map<Byte, Handler<S>>, w: World<S>, act: Action)
    requires Inv(hs, w)
    ensures Inv(hs, Step(hs, w, act))
  {
    if act.DoNoise? {
      NoiseMovesNothing(hs, w, act.client, act.datagram, act.heartbeat);
    } else if Step(hs, w, act) != w {
      match act
      case DoCall(a, id, parameter) => CallKeepsInv(hs, w, a, id, parameter);
      case DoServe(a, d) => ServeKeepsInv(hs, w, a, d);
      case DoGarbage(a, d) => GarbageKeepsInv(hs, w, a, d);
      case DoReceive(p, heartbeat) => ReceiveKeepsInv(hs, w, p, heartbeat);
    }
  }

  lemma {:induction false} RunKeepsInv<S(!new)>(hs: map<Byte, Handler<S>>, w: World<S>, acts: seq<Action>)
    requires Inv(hs, w)
    ensures Inv(hs, Run(hs, w, acts))
    decreases |acts|
  {
    if acts != [] {
      StepKeepsInv(hs, w, acts[0]);
      RunKeepsInv(hs, Step(hs, w, acts[0]), acts[1..]);
    }
  }

  // ---- main results ----

  /**
   * Safety over every run: acceptance number `k` of a client (below 2^64 - 1) is under
   * checksum `k + 1`, so no checksum is accepted twice; it answers a non-heartbeat call that
   * this client sent under that checksum, and its result is the handler's answer to it.
   */
  lemma AcceptedRepliesAreAnswers<S(!new)>(
      hs: map<Byte, Handler<S>>, addrs: set<Addr>, s0: S, acts: seq<Action>, a: Addr, k: nat)
      returns (e: Execution<S>)
    requires BuiltInHeartbeat(hs)
    requires var w := Run(hs, Init(addrs, s0), acts);
             a in w.clients && k < |w.clients[a].accepted| && k < U64_RANGE - 1
    ensures var w := Run(hs, Init(addrs, s0), acts);
            var acc := w.clients[a].accepted[k];
            && acc.checksum == k + 1
            && e in w.executions && acc.cause == Some(e.call)
            && e.call in w.calls && e.call.client == a && e.call.checksum == k + 1 && e.call.id != HEART_BEAT
            && e.call.id in hs && e.answer == hs[e.call.id](e.pre, e.call.parameter).1
            && acc.result == ResultOf(e.answer)
  {
    var w := Run(hs, Init(addrs, s0), acts);
    RunKeepsInv(hs, Init(addrs, s0), acts);
    var acc := w.clients[a].accepted[k];
    assert GoodClient(w.executions, a, w.clients[a]);
    assert Justified(w.executions, a, acc);
    var answer :| Executed(w.executions, acc.cause.value, answer) && acc.result == ResultOf(answer);
    e :| e in w.executions && e.call == acc.cause.value && e.answer == answer;
    assert GoodExecution(hs, w.calls, e);
  }

  /** When one call only was made under a checksum, its reply is what gets accepted. */
  lemma SoleCallIsAnswered<S(!new)>(
      hs: map<Byte, Handler<S>>, addrs: set<Addr>, s0: S, acts: seq<Action>, a: Addr, k: nat, c: Call)
    requires BuiltInHeartbeat(hs)
    requires var w := Run(hs, Init(addrs, s0), acts);
             && a in w.clients && k < |w.clients[a].accepted| && k < U64_RANGE - 1
             && forall x :: x in w.calls && x.client == a && x.checksum == k + 1 && x.id != HEART_BEAT ==> x == c
    ensures Run(hs, Init(addrs, s0), acts).clients[a].accepted[k].cause == Some(c)
  {
    var _ := AcceptedRepliesAreAnswers(hs, addrs, s0, acts, a, k);
  }

  // ---- which calls the next accepted reply may answer ----

  predicate NoCallBy(acts: seq<Action>, a: Addr) {
    forall i :: 0 <= i < |acts| ==> !(acts[i].DoCall? && acts[i].client == a)
  }

  /** `x` is a live candidate: sent under the client's current number, and a handler exists. */
  predicate Outstanding<S>(hs: map<Byte, Handler<S>>, w: World<S>, a: Addr, x: Call)
    requires a in w.clients
  {
    && x in w.calls && x.client == a && x.checksum == w.clients[a].checksum
    && x.id != HEART_BEAT && x.id in hs
  }

  /** Some continuation in which the client makes no call accepts a reply to `x` next. */
  ghost predicate MayBeAnswered<S>(hs: map<Byte, Handler<S>>, w: World<S>, a: Addr, x: Call)
    requires |w.buf| == MAX_MSG && a in w.clients
  {
    exists acts :: NoCallBy(acts, a) && AnsweredNext(w, Run(hs, w, acts), a, x)
  }

  predicate AnsweredNext<S>(w: World<S>, w': World<S>, a: Addr, x: Call)
    requires a in w.clients
  {
    && a in w'.clients
    && var n := |w.clients[a].accepted|;
       n < |w'.clients[a].accepted| && w'.clients[a].accepted[n].cause == Some(x)
  }

  lemma {:induction false} RunKeepsCallsBy<S>(hs: map<Byte, Handler<S>>, w: World<S>, acts: seq<Action>, a: Addr)
    requires |w.buf| == MAX_MSG && NoCallBy(acts, a)
    ensures forall x :: x in Run(hs, w, acts).calls && x.client == a ==> x in w.calls
    decreases |acts|
  {
    if acts != [] {
      assert !(acts[0].DoCall? && acts[0].client == a);
      RunKeepsCallsBy(hs, Step(hs, w, acts[0]), acts[1..], a);
    }
  }

  lemma OnlyOutstandingAnswered<S(!new)>(hs: map<Byte, Handler<S>>, w: World<S>, acts: seq<Action>, a: Addr, x: Call)
    requires Inv(hs, w) && a in w.clients && |w.clients[a].accepted| < U64_RANGE - 1
    requires NoCallBy(acts, a) && AnsweredNext(w, Run(hs, w, acts), a, x)
    ensures Outstanding(hs, w, a, x)
  {
    var w' := Run(hs, w, acts);
    RunKeepsInv(hs, w, acts);
    RunKeepsCallsBy(hs, w, acts, a);
    assert GoodClient(w.executions, a, w.clients[a]);
    assert GoodClient(w'.executions, a, w'.clients[a]);
    var acc := w'.clients[a].accepted[|w.clients[a].accepted|];
    assert Justified(w'.executions, a, acc);
    var answer :| Executed(w'.executions, x, answer);
    var e :| e in w'.executions && e.call == x;
    assert GoodExecution(hs, w'.calls, e);
  }

  /** Delivering the request of `x`: one execution and its reply, for whoever else is waiting. */
  lemma ServeOutstanding<S(!new)>(hs: map<Byte, Handler<S>>, w: World<S>, x: Call)
    requires Inv(hs, w) && w.alive && GoodCall(w.calls, x) && x.id in hs && (x.client, Datagram(x)) in w.requests
    ensures var (s, answer) := hs[x.id](w.server, x.parameter);
            var w' := Step(hs, w, DoServe(x.client, Datagram(x)));
            && Inv(hs, w') && w'.alive && w'.clients == w.clients && w'.requests == w.requests && w'.calls == w.calls
            && w'.server == s && w'.executions == w.executions + [Execution(x, w.server, answer)]
            && ReplyPacket(x.client, AnswerReply(x.id, x.checksum, answer), Some(x)) in w'.replies
  {
    ServeSentRequest(hs, w, x);
    StepKeepsInv(hs, w, DoServe(x.client, Datagram(x)));
  }

  /** The world after client `a` accepted the server's answer to `x`, executed just before. */
  predicate Answered<S(==)>(hs: map<Byte, Handler<S>>, w: World<S>, w': World<S>, a: Addr, x: Call)
    requires a in w.clients && x.id in hs
  {
    var (s, answer) := hs[x.id](w.server, x.parameter);
    && a in w'.clients
    && w'.clients[a].accepted == w.clients[a].accepted + [Acceptance(x.checksum, ResultOf(answer), Some(x))]
    && w'.calls == w.calls && w'.server == s
    && w'.executions == w.executions + [Execution(x, w.server, answer)]
  }

  /** Deliver the request of `x`, then the server's reply to it: two steps, and it is accepted. */
  lemma OutstandingCanBeAnswered<S(!new)>(hs: map<Byte, Handler<S>>, w: World<S>, a: Addr, x: Call)
      returns (acts: seq<Action>)
    requires Inv(hs, w) && w.alive && a in w.clients && Outstanding(hs, w, a, x)
    requires GoodCall(w.calls, x) && (a, Datagram(x)) in w.requests
    ensures NoCallBy(acts, a) && AnsweredNext(w, Run(hs, w, acts), a, x)
    ensures Answered(hs, w, Run(hs, w, acts), a, x)
  {
    var answer := hs[x.id](w.server, x.parameter).1;
    var p := ReplyPacket(a, AnswerReply(x.id, x.checksum, answer), Some(x));
    var serve, receive := DoServe(a, Datagram(x)), DoReceive(p, false);
    ServeOutstanding(hs, w, x);
    ReceiveAnswer(hs, Step(hs, w, serve), p, x, answer);
    RunOfTwo(hs, w, serve, receive);
    acts := [serve, receive];
  }

  lemma ReceiveAnswer<S>(hs: map<Byte, Handler<S>>, w: World<S>, p: ReplyPacket, x: Call, answer: Option<seq<Byte>>)
    requires |w.buf| == MAX_MSG && p in w.replies && p.peer in w.clients
    requires x.id != HEART_BEAT && x.checksum == w.clients[p.peer].checksum < U64_RANGE
    requires p == ReplyPacket(p.peer, AnswerReply(x.id, x.checksum, answer), Some(x))
    ensures var c := w.clients[p.peer];
            Step(hs, w, DoReceive(p, false)) ==
            w.(clients := w.clients[p.peer :=
              Client(NextChecksum(c.checksum), c.accepted + [Acceptance(c.checksum, ResultOf(answer), Some(x))])])
  {
    ReactToAnswer(x, answer, x.checksum, false);
  }

  lemma {:induction false} RunAppend<S>(hs: map<Byte, Handler<S>>, w: World<S>, acts: seq<Action>, more: seq<Action>)
    requires |w.buf| == MAX_MSG
    ensures Run(hs, w, acts + more) == Run(hs, Run(hs, w, acts), more)
    decreases |acts|
  {
    if acts == [] {
      assert acts + more == more;
    } else {
      assert (acts + more)[1..] == acts[1..] + more;
      RunAppend(hs, Step(hs, w, acts[0]), acts[1..], more);
    }
  }

  lemma RunOfTwo<S>(hs: map<Byte, Handler<S>>, w: World<S>, first: Action, second: Action)
    requires |w.buf| == MAX_MSG
    ensures Run(hs, w, [first, second]) == Step(hs, Step(hs, w, first), second)
  {
    assert [first, second][1..] == [second] && [second][1..] == [];
    assert Run(hs, Step(hs, w, first), [second]) == Run(hs, Step(hs, Step(hs, w, first), second), []);
  }

  /** Every call in the log left its datagram in the network. */
  ghost predicate Logged<S>(w: World<S>) {
    forall c :: c in w.calls ==> GoodCall(w.calls, c) && (c.client, Datagram(c)) in w.requests
  }

  lemma {:induction false} RunKeepsLogged<S(!new)>(hs: map<Byte, Handler<S>>, w: World<S>, acts: seq<Action>)
    requires Inv(hs, w) && Logged(w)
    ensures Logged(Run(hs, w, acts))
    decreases |acts|
  {
    if acts != [] {
      var w' := Step(hs, w, acts[0]);
      StepKeepsInv(hs, w, acts[0]);
      if acts[0].DoCall? && acts[0].client in w.clients {
        assert GoodClient(w.executions, acts[0].client, w.clients[acts[0].client]);
        CallOutcomeBySize(acts[0].id, w.clients[acts[0].client].checksum, acts[0].parameter);
        forall c | c in w'.calls
          ensures GoodCall(w'.calls, c) && (c.client, Datagram(c)) in w'.requests
        {
          assert c in w.calls ==> GoodCall(w.calls, c);
        }
      }
      RunKeepsLogged(hs, w', acts[1..]);
    }
  }

  /**
   * Exactly the calls still outstanding under the current checksum may be answered next. So
   * after a timeout, the retry's reply may be one to the abandoned call, and a reply is sure
   * to answer the latest call exactly when no other call went out under its checksum.
   */
  lemma NextAnswerIff<S(!new)>(
      hs: map<Byte, Handler<S>>, addrs: set<Addr>, s0: S, history: seq<Action>, a: Addr, x: Call)
    requires BuiltInHeartbeat(hs)
    requires var w := Run(hs, Init(addrs, s0), history);
             w.alive && a in w.clients && |w.clients[a].accepted| < U64_RANGE - 1
    ensures var w := Run(hs, Init(addrs, s0), history);
            MayBeAnswered(hs, w, a, x) <==> Outstanding(hs, w, a, x)
  {
    var w := Run(hs, Init(addrs, s0), history);
    RunKeepsInv(hs, Init(addrs, s0), history);
    RunKeepsLogged(hs, Init(addrs, s0), history);
    if MayBeAnswered(hs, w, a, x) {
      var acts :| NoCallBy(acts, a) && AnsweredNext(w, Run(hs, w, acts), a, x);
      OnlyOutstandingAnswered(hs, w, acts, a, x);
    }
    if Outstanding(hs, w, a, x) {
      var acts := OutstandingCanBeAnswered(hs, w, a, x);
    }
  }

  /** Two calls in a row without a reply, as after a timeout: the first may answer the second. */
  lemma RetryMayGetTheOldAnswer<S(!new)>(
      hs: map<Byte, Handler<S>>, s0: S, a: Addr, id: Byte, p: seq<Byte>, q: seq<Byte>)
    requires BuiltInHeartbeat(hs) && id in hs && id != HEART_BEAT
    requires |p| <= 4054 && |q| <= 4054 && p != q
    ensures var w := Run(hs, Init({a}, s0), [DoCall(a, id, p), DoCall(a, id, q)]);
            && a in w.clients
            && MayBeAnswered(hs, w, a, Call(a, 1, id, p)) && MayBeAnswered(hs, w, a, Call(a, 1, id, q))
  {
    var first, second := DoCall(a, id, p), DoCall(a, id, q);
    var w := Run(hs, Init({a}, s0), [first, second]);
    RunOfTwo(hs, Init({a}, s0), first, second);
    CallOutcomeBySize(id, 1, p);
    CallOutcomeBySize(id, 1, q);
    NextAnswerIff(hs, {a}, s0, [first, second], a, Call(a, 1, id, p));
    NextAnswerIff(hs, {a}, s0, [first, second], a, Call(a, 1, id, q));
  }

  // ---- two runs of a client that waits in vain at first ----

  /** A fresh client's calls, all under its first checksum. */
  lemma CallsOnly<S(!new)>(
      hs: map<Byte, Handler<S>>, s0: S, a: Addr, id: Byte, p: seq<Byte>, id': Byte, p': seq<Byte>)
    requires BuiltInHeartbeat(hs) && |p| <= 4054 && |p'| <= 4054
    ensures var w := Run(hs, Init({a}, s0), [DoCall(a, id, p), DoCall(a, id', p')]);
            && Inv(hs, w) && Logged(w) && w.alive && w.server == s0 && w.executions == []
            && a in w.clients && w.clients[a] == Client(1, [])
            && w.calls == [Call(a, 1, id, p), Call(a, 1, id', p')]
  {
    var first, second := DoCall(a, id, p), DoCall(a, id', p');
    RunOfTwo(hs, Init({a}, s0), first, second);
    RunKeepsInv(hs, Init({a}, s0), [first, second]);
    RunKeepsLogged(hs, Init({a}, s0), [first, second]);
    CallOutcomeBySize(id, 1, p);
    CallOutcomeBySize(id', 1, p');
  }

  lemma OneCallOnly<S(!new)>(hs: map<Byte, Handler<S>>, s0: S, a: Addr, id: Byte, p: seq<Byte>)
    requires BuiltInHeartbeat(hs) && |p| <= 4054
    ensures var w := Run(hs, Init({a}, s0), [DoCall(a, id, p)]);
            && Inv(hs, w) && Logged(w) && w.alive && w.server == s0 && w.executions == []
            && a in w.clients && w.clients[a] == Client(1, []) && w.calls == [Call(a, 1, id, p)]
  {
    var w0 := Init({a}, s0);
    assert [DoCall(a, id, p)][1..] == [];
    assert Run(hs, w0, [DoCall(a, id, p)]) == Step(hs, w0, DoCall(a, id, p));
    RunKeepsInv(hs, w0, [DoCall(a, id, p)]);
    RunKeepsLogged(hs, w0, [DoCall(a, id, p)]);
    CallOutcomeBySize(id, 1, p);
  }

  /** The client gives up on its first call and then accepts the late reply to it. */
  lemma LateReplyRun<S(!new)>(
      hs: map<Byte, Handler<S>>, s0: S, a: Addr, id: Byte, p: seq<Byte>, id': Byte, p': seq<Byte>)
      returns (acts: seq<Action>)
    requires BuiltInHeartbeat(hs) && id in hs && id != HEART_BEAT && |p| <= 4054 && |p'| <= 4054
    ensures var w := Run(hs, Init({a}, s0), acts);
            var x := Call(a, 1, id, p);
            var (s, answer) := hs[id](s0, p);
            && a in w.clients && w.clients[a].accepted == [Acceptance(1, ResultOf(answer), Some(x))]
            && w.calls == [x, Call(a, 1, id', p')]
            && w.server == s && w.executions == [Execution(x, s0, answer)]
  {
    var calls := [DoCall(a, id, p), DoCall(a, id', p')];
    var w := Run(hs, Init({a}, s0), calls);
    CallsOnly(hs, s0, a, id, p, id', p');
    assert w.calls[0] in w.calls;
    var rest := OutstandingCanBeAnswered(hs, w, a, Call(a, 1, id, p));
    RunAppend(hs, Init({a}, s0), calls, rest);
    acts := calls + rest;
  }

  /** The request arrives twice, the reply to the first is lost and the second is accepted. */
  lemma SecondReplyRun<S(!new)>(hs: map<Byte, Handler<S>>, s0: S, a: Addr, id: Byte, p: seq<Byte>)
      returns (acts: seq<Action>)
    requires BuiltInHeartbeat(hs) && id in hs && id != HEART_BEAT && |p| <= 4054
    ensures var w := Run(hs, Init({a}, s0), acts);
            var x := Call(a, 1, id, p);
            var (s1, first) := hs[id](s0, p);
            var (s2, second) := hs[id](s1, p);
            && a in w.clients && w.clients[a].accepted == [Acceptance(1, ResultOf(second), Some(x))]
            && w.calls == [x] && w.server == s2
            && w.executions == [Execution(x, s0, first), Execution(x, s1, second)]
  {
    var x := Call(a, 1, id, p);
    var call, serve := DoCall(a, id, p), DoServe(a, Datagram(x));
    var w := Run(hs, Init({a}, s0), [call]);
    OneCallOnly(hs, s0, a, id, p);
    assert w.calls[0] in w.calls;
    ServeOutstanding(hs, w, x);
    var rest := OutstandingCanBeAnswered(hs, Step(hs, w, serve), a, x);
    RunAppend(hs, Init({a}, s0), [call], [serve] + rest);
    assert ([serve] + rest)[1..] == rest;
    acts := [call] + ([serve] + rest);
  }

  // ---- what the handlers keep holds throughout ----

  ghost predicate Kept<S(!new)>(hs: map<Byte, Handler<S>>, good: S -> bool) {
    forall id, s, p :: id in hs && good(s) ==> good(hs[id](s, p).0)
  }

  ghost predicate GoodThroughout<S>(w: World<S>, good: S -> bool) {
    good(w.server) && forall e :: e in w.executions ==> good(e.pre)
  }

  lemma StepKeepsGood<S(!new)>(hs: map<Byte, Handler<S>>, w: World<S>, act: Action, good: S -> bool)
    requires |w.buf| == MAX_MSG && Kept(hs, good) && GoodThroughout(w, good)
    ensures GoodThroughout(Step(hs, w, act), good)
  {
  }

  /** A property that every handler keeps holds of the server in every run, whatever the network does. */
  lemma {:induction false} HandlersInvariant<S(!new)>(
      hs: map<Byte, Handler<S>>, w: World<S>, acts: seq<Action>, good: S -> bool)
    requires |w.buf| == MAX_MSG && Kept(hs, good) && GoodThroughout(w, good)
    ensures GoodThroughout(Run(hs, w, acts), good)
    decreases |acts|
  {
    if acts != [] {
      StepKeepsGood(hs, w, acts[0], good);
      HandlersInvariant(hs, Step(hs, w, acts[0]), acts[1..], good);
    }
  }
}
