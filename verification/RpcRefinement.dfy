/**
 * The loops of the code are runs of the protocol: one pass of the server's event loop is a
 * sequence of serve and garbage steps, and one receive_reply a sequence of receive steps.
 */
module RpcRefinement {
  import opened Bytes
  import opened Wrappers
  import opened SRpcSpec
  import opened RpcSafety

  type Requests = set<(Addr, seq<Byte>)>

  /**
   * The steps for the datagrams that come before the first quiet moment: a datagram that a
   * client sent is served, any other one is garbage.
   */
  function LoopSteps(requests: Requests, inbox: seq<ServerEvent>): seq<Action> {
    if inbox == [] || inbox[0].Quiet? then []
    else [LoopAction(requests, inbox[0].source, inbox[0].datagram)] + LoopSteps(requests, inbox[1..])
  }

  function LoopAction(requests: Requests, a: Addr, d: seq<Byte>): Action {
    if (a, d) in requests then DoServe(a, d) else DoGarbage(a, d)
  }

  /** What the network may put into the inbox: sent requests, and bytes that do not decode. */
  predicate Deliverable(requests: Requests, buf: seq<Byte>, inbox: seq<ServerEvent>)
    requires |buf| == MAX_MSG
    decreases |inbox|
  {
    inbox == [] || inbox[0].Quiet?
    || var (a, d) := (inbox[0].source, inbox[0].datagram);
       && ((a, d) in requests || DecodeRequest(Overlay(d, buf)).Undecodable?)
       && Deliverable(requests, Overlay(d, buf), inbox[1..])
  }

  /** The replies that the network has carried so far, without their recorded causes. */
  function InFlight(packets: set<ReplyPacket>): set<(Addr, seq<Byte>)> {
    set p | p in packets :: (p.peer, p.bytes)
  }

  function Elements(replies: seq<(Addr, seq<Byte>)>): set<(Addr, seq<Byte>)> {
    set r | r in replies
  }

  /** The loop about to fetch its next message, with the server as in `w`. */
  function LoopAt<S>(w: World<S>, inbox: seq<ServerEvent>, replies: seq<(Addr, seq<Byte>)>, count: nat): LoopState<S> {
    LoopState(w.server, None, w.buf, inbox, replies, count, false)
  }

  lemma ServeSteadies<S>(hs: map<Byte, Handler<S>>, w: World<S>, a: Addr, d: seq<Byte>)
    requires |w.buf| == MAX_MSG
    ensures var w' := ServeOne(hs, w, a, d);
            match Serve(hs, w.server, Overlay(d, w.buf)) {
              case Crashed => w' == w.(alive := false)
              case Replied(s, r) =>
                w'.server == s && w'.buf == Overlay(d, w.buf) && w'.alive == w.alive && w'.requests == w.requests
                && InFlight(w'.replies) == InFlight(w.replies) + {(a, r)}
            }
  {
    match Serve(hs, w.server, Overlay(d, w.buf))
    case Crashed =>
    case Replied(s, r) =>
      OneMoreReply(w.replies, ReplyPacket(a, r, CauseOf(a, DecodeRequest(Overlay(d, w.buf)))));
  }

  lemma OneMoreReply(packets: set<ReplyPacket>, p: ReplyPacket)
    ensures InFlight(packets + {p}) == InFlight(packets) + {(p.peer, p.bytes)}
  {
    forall r | r in InFlight(packets) + {(p.peer, p.bytes)}
      ensures r in InFlight(packets + {p})
    {
      if r in InFlight(packets) {
        var q :| q in packets && r == (q.peer, q.bytes);
        assert q in packets + {p};
      } else {
        assert p in packets + {p};
      }
    }
  }

  lemma {:induction false} DeadStaysDead<S>(
      hs: map<Byte, Handler<S>>, w: World<S>, requests: Requests, inbox: seq<ServerEvent>)
    requires |w.buf| == MAX_MSG && !w.alive
    ensures Run(hs, w, LoopSteps(requests, inbox)) == w
  {
    if inbox != [] && inbox[0].Arrived? {
      assert LoopSteps(requests, inbox)[1..] == LoopSteps(requests, inbox[1..]);
      DeadStaysDead(hs, w, requests, inbox[1..]);
    }
  }

  /** What the loop leaves in the inbox: what comes after the first quiet moment. */
  function Later(inbox: seq<ServerEvent>): seq<ServerEvent> {
    if inbox == [] then [] else if inbox[0].Quiet? then inbox[1..] else Later(inbox[1..])
  }

  /** The world where the loop ended, with the replies `before` it in flight. */
  predicate Matches<S(==)>(before: set<(Addr, seq<Byte>)>, inbox: seq<ServerEvent>, w: World<S>, e: LoopState<S>) {
    && w.alive == !e.crashed
    && InFlight(w.replies) == before + Elements(e.replies)
    && w.server == e.state
    && (!e.crashed ==> w.buf == e.buf && e.inbox == Later(inbox) && e.current == None)
  }

  /** One more reply of the loop is one more step of the run. */
  lemma LoopReplies<S>(
      hs: map<Byte, Handler<S>>, w: World<S>, inbox: seq<ServerEvent>, replies: seq<(Addr, seq<Byte>)>, count: nat)
      returns (w1: World<S>, reply: (Addr, seq<Byte>))
    requires |w.buf| == MAX_MSG && w.alive && Deliverable(w.requests, w.buf, inbox)
    requires inbox != [] && inbox[0].Arrived?
    requires Serve(hs, w.server, Overlay(inbox[0].datagram, w.buf)).Replied?
    ensures |w1.buf| == MAX_MSG && w1.alive && w1.requests == w.requests
    ensures Deliverable(w1.requests, w1.buf, inbox[1..])
    ensures InFlight(w1.replies) == InFlight(w.replies) + {reply}
    ensures Run(hs, w, LoopSteps(w.requests, inbox)) == Run(hs, w1, LoopSteps(w1.requests, inbox[1..]))
    ensures Drain(hs, Fill(LoopAt(w, inbox, replies, count)))
         == Drain(hs, Fill(LoopAt(w1, inbox[1..], replies + [reply], count + 1)))
    ensures reply in Drain(hs, Fill(LoopAt(w, inbox, replies, count))).replies
  {
    var (a, d) := (inbox[0].source, inbox[0].datagram);
    var served := Serve(hs, w.server, Overlay(d, w.buf));
    w1, reply := ServeOne(hs, w, a, d), (a, served.reply);
    ServeSteadies(hs, w, a, d);
    RunLoopSteps(hs, w, inbox);
    var next := LoopAt(w1, inbox[1..], replies + [reply], count + 1);
    assert Replying(Fill(LoopAt(w, inbox, replies, count)), served.state, served.reply) == next;
    DrainKeepsReplies(hs, Fill(next), reply);
  }

  lemma LoopCrashes<S>(
      hs: map<Byte, Handler<S>>, w: World<S>, inbox: seq<ServerEvent>, replies: seq<(Addr, seq<Byte>)>, count: nat)
    requires |w.buf| == MAX_MSG && w.alive && Deliverable(w.requests, w.buf, inbox)
    requires Elements(replies) <= InFlight(w.replies) && inbox != [] && inbox[0].Arrived?
    requires Serve(hs, w.server, Overlay(inbox[0].datagram, w.buf)).Crashed?
    ensures Matches(InFlight(w.replies), inbox,
                    Run(hs, w, LoopSteps(w.requests, inbox)),
                    Drain(hs, Fill(LoopAt(w, inbox, replies, count))))
  {
    ServeSteadies(hs, w, inbox[0].source, inbox[0].datagram);
    RunLoopSteps(hs, w, inbox);
    DeadStaysDead(hs, w.(alive := false), w.requests, inbox[1..]);
  }

  /**
   * The event loop is a run of serve and garbage steps: same server state, same buffer, and
   * the replies in flight are those from before and the loop's.
   */
  lemma {:induction false} EventLoopIsRun<S>(
      hs: map<Byte, Handler<S>>, w: World<S>, inbox: seq<ServerEvent>, replies: seq<(Addr, seq<Byte>)>, count: nat)
    requires |w.buf| == MAX_MSG && w.alive && Deliverable(w.requests, w.buf, inbox)
    requires Elements(replies) <= InFlight(w.replies)
    ensures Matches(InFlight(w.replies), inbox,
                    Run(hs, w, LoopSteps(w.requests, inbox)),
                    Drain(hs, Fill(LoopAt(w, inbox, replies, count))))
    decreases |inbox|
  {
    if inbox != [] && inbox[0].Arrived? {
      if Serve(hs, w.server, Overlay(inbox[0].datagram, w.buf)).Crashed? {
        LoopCrashes(hs, w, inbox, replies, count);
      } else {
        var w1, reply := LoopReplies(hs, w, inbox, replies, count);
        assert Elements(replies + [reply]) == Elements(replies) + {reply};
        EventLoopIsRun(hs, w1, inbox[1..], replies + [reply], count + 1);
        MatchesBefore(InFlight(w.replies), reply, inbox,
                      Run(hs, w, LoopSteps(w.requests, inbox)), Drain(hs, Fill(LoopAt(w, inbox, replies, count))));
      }
    }
  }

  lemma MatchesBefore<S>(
      before: set<(Addr, seq<Byte>)>, reply: (Addr, seq<Byte>), inbox: seq<ServerEvent>, w: World<S>, e: LoopState<S>)
    requires inbox != [] && inbox[0].Arrived? && reply in e.replies
    requires Matches(before + {reply}, inbox[1..], w, e)
    ensures Matches(before, inbox, w, e)
  {
  }

  lemma DrainKeepsReplies<S>(hs: map<Byte, Handler<S>>, l: LoopState<S>, r: (Addr, seq<Byte>))
    requires |l.buf| == MAX_MSG && r in l.replies
    ensures r in Drain(hs, l).replies
  {
    DrainAddsSent(hs, l);
  }

  lemma RunLoopSteps<S>(hs: map<Byte, Handler<S>>, w: World<S>, inbox: seq<ServerEvent>)
    requires |w.buf| == MAX_MSG && w.alive && inbox != [] && inbox[0].Arrived?
    requires Deliverable(w.requests, w.buf, inbox)
    ensures Run(hs, w, LoopSteps(w.requests, inbox))
         == Run(hs, ServeOne(hs, w, inbox[0].source, inbox[0].datagram), LoopSteps(w.requests, inbox[1..]))
  {
    assert LoopSteps(w.requests, inbox)[1..] == LoopSteps(w.requests, inbox[1..]);
  }

  // ---- the client ----

  /** What a receive runs into: a reply in flight, bytes that do not decode, or no message. */
  datatype Arrival = Packet(packet: ReplyPacket) | Noise(bytes: seq<Byte>) | NoMessage(failed: bool)

  function EventOf(x: Arrival): ClientEvent {
    match x
    case Packet(p) => Delivered(p.bytes)
    case Noise(bytes) => Delivered(bytes)
    case NoMessage(failed) => if failed then RecvError else TimedOut
  }

  function ActionOf(a: Addr, x: Arrival, heartbeat: bool): Action {
    match x
    case Packet(p) => DoReceive(p, heartbeat)
    case Noise(bytes) => DoNoise(a, bytes, heartbeat)
    case NoMessage(_) => DoLapse(a)
  }

  predicate Possible(replies: set<ReplyPacket>, a: Addr, x: Arrival) {
    match x
    case Packet(p) => p in replies && p.peer == a
    case Noise(bytes) => DecodeReply(Overlay(bytes, Zeros(MAX_MSG))).BadReply?
    case NoMessage(_) => true
  }

  function Events(arrivals: seq<Arrival>): (inbox: seq<ClientEvent>)
    ensures |inbox| == |arrivals|
  {
    seq(|arrivals|, i requires 0 <= i < |arrivals| => EventOf(arrivals[i]))
  }

  function ReceiveSteps(a: Addr, arrivals: seq<Arrival>, heartbeat: bool): (acts: seq<Action>)
    ensures |acts| == |arrivals|
  {
    seq(|arrivals|, i requires 0 <= i < |arrivals| => ActionOf(a, arrivals[i], heartbeat))
  }

  /** The client after a receive that settled with `o`. */
  predicate Received(before: Client, after: Client, arrivals: seq<Arrival>, o: Outcome)
    requires o.consumed <= |arrivals|
  {
    && after.checksum == o.checksum
    && if o.checksum == before.checksum then after.accepted == before.accepted
       else
         && 0 < o.consumed && arrivals[o.consumed - 1].Packet?
         && after.accepted == before.accepted +
              [Acceptance(before.checksum, o.result, arrivals[o.consumed - 1].packet.cause)]
  }

  /**
   * receive_reply is a run of steps over whatever it consumes, timeouts, receive errors and
   * corrupted datagrams included: the counter ends where the run leaves it, and it moved
   * exactly if the last thing consumed is a reply, which is then the run's one new acceptance.
   */
  lemma {:induction false} ReceiveReplyIsRun<S>(
      hs: map<Byte, Handler<S>>, w: World<S>, a: Addr, arrivals: seq<Arrival>, heartbeat: bool)
    requires |w.buf| == MAX_MSG && a in w.clients
    requires forall x :: x in arrivals ==> Possible(w.replies, a, x)
    ensures var o := Settle(Events(arrivals), w.clients[a].checksum, heartbeat);
            var w' := Run(hs, w, ReceiveSteps(a, arrivals[..o.consumed], heartbeat));
            a in w'.clients && Received(w.clients[a], w'.clients[a], arrivals, o)
    decreases |arrivals|
  {
    if arrivals != [] {
      var x, rest := arrivals[0], arrivals[1..];
      var o := Settle(Events(arrivals), w.clients[a].checksum, heartbeat);
      assert x in arrivals;
      SettleStep(arrivals, w.clients[a].checksum, heartbeat);
      FirstReceive(hs, w, a, arrivals[..o.consumed], heartbeat);
      FirstArrival(hs, w, a, x, heartbeat);
      if Skipped(x, w.clients[a].checksum, heartbeat) {
        assert arrivals[..o.consumed][1..] == rest[..o.consumed - 1];
        ReceiveReplyIsRun(hs, w, a, rest, heartbeat);
      } else {
        assert ReceiveSteps(a, arrivals[..o.consumed][1..], heartbeat) == [];
      }
    }
  }

  predicate Skipped(x: Arrival, checksum: nat, heartbeat: bool) {
    EventOf(x).Delivered? && React(Overlay(EventOf(x).datagram, Zeros(MAX_MSG)), checksum, heartbeat).Ignored?
  }

  /** What the first arrival alone settles; only a reply moves the counter. */
  function SettledBy(x: Arrival, checksum: nat, heartbeat: bool): Outcome
    requires !Skipped(x, checksum, heartbeat)
  {
    match x
    case NoMessage(failed) => Outcome(if failed then IoFailed else IoTimeout, checksum, 1)
    case _ =>
      var r := React(Overlay(EventOf(x).datagram, Zeros(MAX_MSG)), checksum, heartbeat);
      Outcome(r.result, r.checksum, 1)
  }

  lemma SettleStep(arrivals: seq<Arrival>, checksum: nat, heartbeat: bool)
    requires arrivals != []
    ensures var o := Settle(Events(arrivals), checksum, heartbeat);
            if Skipped(arrivals[0], checksum, heartbeat) then
              var rest := Settle(Events(arrivals[1..]), checksum, heartbeat);
              o == rest.(consumed := rest.consumed + 1)
            else o == SettledBy(arrivals[0], checksum, heartbeat)
  {
    assert Events(arrivals)[1..] == Events(arrivals[1..]);
  }

  lemma FirstReceive<S>(hs: map<Byte, Handler<S>>, w: World<S>, a: Addr, arrivals: seq<Arrival>, heartbeat: bool)
    requires |w.buf| == MAX_MSG && arrivals != []
    ensures Run(hs, w, ReceiveSteps(a, arrivals, heartbeat))
         == Run(hs, Step(hs, w, ActionOf(a, arrivals[0], heartbeat)), ReceiveSteps(a, arrivals[1..], heartbeat))
  {
    assert ReceiveSteps(a, arrivals, heartbeat)[1..] == ReceiveSteps(a, arrivals[1..], heartbeat);
  }

  lemma FirstArrival<S>(hs: map<Byte, Handler<S>>, w: World<S>, a: Addr, x: Arrival, heartbeat: bool)
    requires |w.buf| == MAX_MSG && a in w.clients && Possible(w.replies, a, x)
    ensures var w' := Step(hs, w, ActionOf(a, x, heartbeat));
            var c := w.clients[a];
            if Skipped(x, c.checksum, heartbeat) then w' == w
            else a in w'.clients && Received(c, w'.clients[a], [x], SettledBy(x, c.checksum, heartbeat))
  {
    if x.Noise? {
      NoiseMovesNothing(hs, w, a, x.bytes, heartbeat);
    }
  }
}
