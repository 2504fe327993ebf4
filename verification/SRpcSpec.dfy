/** What the RPC code computes on byte strings: building, serving and settling messages. */
module SRpcSpec {
  import opened Bytes
  import opened MsgCodec
  import opened Wrappers

  const MAX_MSG := 4096
  const HEART_BEAT: Byte := 0

  // CallStatus values that travel in a reply header
  const STATUS_OK: Byte := 0
  const STATUS_NOP: Byte := 1
  const STATUS_FATAL: Byte := 4

  const INVALID_CHECKSUM := 0

  /** A datagram's return address. */
  type Addr = nat

  /** A handler's effect on the server's state and its answer; None when it throws. */
  type Handler<!S> = (S, seq<Byte>) -> (S, Option<seq<Byte>>)

  /** The heartbeat handler is the built-in one. */
  ghost predicate BuiltInHeartbeat<S(!new)>(hs: map<Byte, Handler<S>>) {
    HEART_BEAT in hs && forall s, p :: hs[HEART_BEAT](s, p) == (s, Some([49]))
  }

  // ---- message layouts ----

  function RequestHeader(id: Byte, checksum: nat): (h: seq<Byte>)
    ensures |h| == 9
  {
    [id] + ToLE(checksum, 8)
  }

  function ReplyHeader(status: Byte, checksum: nat, dummy: Byte): (h: seq<Byte>)
    ensures |h| == 10
  {
    [status] + ToLE(checksum, 8) + [dummy]
  }

  function EncodeRequest(id: Byte, checksum: nat, parameter: seq<Byte>): seq<Byte> {
    Encode([RequestHeader(id, checksum), parameter])
  }

  function EncodeReply(status: Byte, checksum: nat, dummy: Byte, body: Option<seq<Byte>>): seq<Byte> {
    Encode([ReplyHeader(status, checksum, dummy)] + if body.Some? then [body.value] else [])
  }

  // ---- client: call ----

  datatype CallOutcome = Send(datagram: seq<Byte>) | TooLarge | Aborted

  /** The size given to create_exact: one byte for the id, and 32 bits wide. */
  function ExactSize(headerSize: nat, payload: nat): (r: nat)
    ensures headerSize + payload < U32_RANGE ==> r == headerSize + payload
  {
    (headerSize + payload) % 0x1_0000_0000
  }

  function CallSpec(id: Byte, checksum: nat, parameter: seq<Byte>): CallOutcome {
    if ExactSize(1, |parameter|) + HEADER_SIZE > MAX_MSG then TooLarge
    else if HEADER_SIZE + 9 + |parameter| > MAX_MSG then Aborted
    else Send(EncodeRequest(id, checksum, parameter))
  }

  /** Only eight sizes, or ones that wrap 32 bits, hit the assertion between the two limits. */
  lemma CallOutcomeBySize(id: Byte, checksum: nat, parameter: seq<Byte>)
    ensures CallSpec(id, checksum, parameter).Send? <==> |parameter| <= 4054
    ensures |parameter| < U32_RANGE - 1 ==>
      (CallSpec(id, checksum, parameter).Aborted? <==> 4055 <= |parameter| <= 4062)
  {
  }

  // ---- server ----

  datatype Request = Undecodable | WildRead | Request(id: Byte, checksum: nat, parameter: Fetched)

  function DecodeRequest(buf: seq<Byte>): Request
    requires HEADER_SIZE <= |buf|
  {
    if |buf| > MAX_MSG || !Accepts(buf, |buf|) then Undecodable
    else
      match Fetch(buf, 0)
      case Missing => Undecodable
      case OutOfBounds => WildRead
      case Found(h) => if |h| < 9 then Undecodable else Request(h[0], FromLE(h[1..9]), Fetch(buf, 1))
  }

  datatype Served<+S> = Replied(state: S, reply: seq<Byte>) | Crashed

  function NopReply(checksum: nat): seq<Byte> {
    EncodeReply(STATUS_NOP, checksum, 0, None)
  }

  /** A handler that threw, or an answer that create_exact refuses. */
  predicate BecomesNop(answer: Option<seq<Byte>>) {
    answer.None? || ExactSize(10, |answer.value|) + HEADER_SIZE > MAX_MSG
  }

  /** The reply to a handler's answer; the bodyless case needs an answer of about 4 GiB. */
  function AnswerReply(id: Byte, checksum: nat, answer: Option<seq<Byte>>): seq<Byte> {
    if BecomesNop(answer) then NopReply(checksum)
    else
      EncodeReply(STATUS_OK, checksum, if id == HEART_BEAT then 1 else 0,
                  if HEADER_SIZE + 10 + |answer.value| > MAX_MSG then None else answer)
  }

  /** One iteration of the event loop on the buffer that holds the current message. */
  function Serve<S>(hs: map<Byte, Handler<S>>, state: S, buf: seq<Byte>): Served<S>
    requires HEADER_SIZE <= |buf|
  {
    match DecodeRequest(buf)
    case Undecodable => Replied(state, EncodeReply(STATUS_FATAL, INVALID_CHECKSUM, 0, None))
    case WildRead => Crashed
    case Request(id, checksum, parameter) =>
      match parameter
      case Missing => Replied(state, NopReply(checksum))
      case OutOfBounds => Crashed
      case Found(p) =>
        if id !in hs then Crashed
        else
          var (state', answer) := hs[id](state, p);
          Replied(state', AnswerReply(id, checksum, answer))
  }

  // ---- client: receive_reply ----

  datatype Reply = BadReply | WildReply | Reply(status: Byte, checksum: nat, dummy: Byte, body: Fetched)

  function DecodeReply(buf: seq<Byte>): Reply
    requires HEADER_SIZE <= |buf|
  {
    if |buf| > MAX_MSG || !Accepts(buf, |buf|) then BadReply
    else
      match Fetch(buf, 0)
      case Missing => BadReply
      case OutOfBounds => WildReply
      case Found(h) => if |h| < 10 then BadReply else Reply(h[0], FromLE(h[1..9]), h[9], Fetch(buf, 1))
  }

  datatype IoResult = IoOk(value: seq<Byte>) | IoErr(why: string) | IoTimeout | IoFailed | IoWild

  datatype Reaction = Ignored | Settled(result: IoResult, checksum: nat)

  function NextChecksum(checksum: nat): (r: nat)
    ensures r < U64_RANGE && (checksum + 1 < U64_RANGE ==> r == checksum + 1)
    ensures checksum + 1 == U64_RANGE ==> r == 0
  {
    (checksum + 1) % 0x1_0000_0000_0000_0000
  }

  /** What the client does with one received buffer. */
  function React(buf: seq<Byte>, checksum: nat, heartbeat: bool): Reaction
    requires HEADER_SIZE <= |buf|
  {
    match DecodeReply(buf)
    case BadReply => Settled(IoErr("decode reply error"), checksum)
    case WildReply => Settled(IoWild, checksum)
    case Reply(status, echoed, dummy, body) =>
      if dummy != 0 then (if heartbeat then Settled(IoOk([]), checksum) else Ignored)
      else if echoed != checksum then Settled(IoErr("Fatal checksum error"), checksum)
      else
        Settled(
          if status == STATUS_OK then
            (match body
             case Missing => IoErr("decode reply error")
             case OutOfBounds => IoWild
             case Found(b) => IoOk(b))
          else if status == STATUS_NOP then IoErr("Not ready")
          else IoErr("unknown error"),
          NextChecksum(checksum))
  }

  // ---- round trips ----

  lemma RequestHeaderFields(id: Byte, checksum: nat)
    requires checksum < U64_RANGE
    ensures var h := RequestHeader(id, checksum); h[0] == id && FromLE(h[1..9]) == checksum
  {
    Pow256Of8();
    FromLEOfToLE(checksum, 8);
    assert RequestHeader(id, checksum)[1..9] == ToLE(checksum, 8);
  }

  lemma ReplyHeaderFields(status: Byte, checksum: nat, dummy: Byte)
    requires checksum < U64_RANGE
    ensures var h := ReplyHeader(status, checksum, dummy);
            h[0] == status && FromLE(h[1..9]) == checksum && h[9] == dummy
  {
    Pow256Of8();
    FromLEOfToLE(checksum, 8);
    assert ReplyHeader(status, checksum, dummy)[1..9] == ToLE(checksum, 8);
  }

  /** A one- or two-part message that fits 4096 bytes is read back over any stale bytes. */
  lemma ReceivedParts(msgs: seq<seq<Byte>>, stale: seq<Byte>)
    requires 1 <= |msgs| <= 2 && |stale| == MAX_MSG
    requires HEADER_SIZE + |msgs[0]| + (if |msgs| == 2 then |msgs[1]| else 0) <= MAX_MSG
    ensures var buf := Overlay(Encode(msgs), stale);
            && Accepts(buf, |buf|)
            && Fetch(buf, 0) == Found(msgs[0])
            && Fetch(buf, 1) == (if |msgs| == 2 then Found(msgs[1]) else Missing)
  {
    assert Start(msgs, 1) == HEADER_SIZE + |msgs[0]|;
    EncodeLength(msgs);
    var tail := stale[|Encode(msgs)|..];
    EncodingAccepted(msgs, tail);
    FetchOfEncode(msgs, tail, 0);
    FetchOfEncode(msgs, tail, 1);
  }

  /** The server reads back exactly what the client's call wrote. */
  lemma RequestRoundTrip(id: Byte, checksum: nat, parameter: seq<Byte>, stale: seq<Byte>)
    requires checksum < U64_RANGE && |stale| == MAX_MSG
    requires |parameter| <= 4054
    ensures |EncodeRequest(id, checksum, parameter)| <= MAX_MSG
    ensures DecodeRequest(Overlay(EncodeRequest(id, checksum, parameter), stale))
         == Request(id, checksum, Found(parameter))
  {
    var msgs := [RequestHeader(id, checksum), parameter];
    EncodeLength(msgs);
    assert Start(msgs, 1) == HEADER_SIZE + 9;
    ReceivedParts(msgs, stale);
    RequestHeaderFields(id, checksum);
  }

  /** The client reads back exactly what the server replied. */
  lemma ReplyRoundTrip(status: Byte, checksum: nat, dummy: Byte, body: Option<seq<Byte>>, stale: seq<Byte>)
    requires checksum < U64_RANGE && |stale| == MAX_MSG
    requires body.Some? ==> |body.value| <= 4053
    ensures |EncodeReply(status, checksum, dummy, body)| <= MAX_MSG
    ensures DecodeReply(Overlay(EncodeReply(status, checksum, dummy, body), stale))
         == Reply(status, checksum, dummy, if body.Some? then Found(body.value) else Missing)
  {
    var msgs := [ReplyHeader(status, checksum, dummy)] + if body.Some? then [body.value] else [];
    EncodeLength(msgs);
    assert Start(msgs, 1) == HEADER_SIZE + 10;
    ReceivedParts(msgs, stale);
    ReplyHeaderFields(status, checksum, dummy);
  }

  /** A request on the wire: two entries, the header's id and little-endian checksum, the parameter. */
  lemma RequestLayout(id: Byte, checksum: nat, parameter: seq<Byte>)
    requires checksum < U64_RANGE && |parameter| <= 4054
    ensures var d := EncodeRequest(id, checksum, parameter);
            && |d| == 42 + |parameter| && d[0] == 2
            && d[33] == id && FromLE(d[34..42]) == checksum && d[42..] == parameter
  {
    var h := RequestHeader(id, checksum);
    TwoParts(h, parameter);
    RequestHeaderFields(id, checksum);
    assert EncodeRequest(id, checksum, parameter)[34..42] == h[1..9];
  }

  /** A reply on the wire: status, checksum and heartbeat mark, then the body as a second entry. */
  lemma ReplyLayout(status: Byte, checksum: nat, dummy: Byte, body: Option<seq<Byte>>)
    requires checksum < U64_RANGE && (body.Some? ==> |body.value| <= 4053)
    ensures var d := EncodeReply(status, checksum, dummy, body);
            && d[0] == (if body.Some? then 2 else 1) && |d| == 43 + (if body.Some? then |body.value| else 0)
            && d[33] == status && FromLE(d[34..42]) == checksum && d[42] == dummy
            && d[43..] == if body.Some? then body.value else []
  {
    var h := ReplyHeader(status, checksum, dummy);
    ReplyHeaderFields(status, checksum, dummy);
    if body.Some? {
      TwoParts(h, body.value);
      assert [h] + [body.value] == [h, body.value];
    } else {
      OnePart(h);
      assert [h] + [] == [h];
    }
    assert EncodeReply(status, checksum, dummy, body)[34..42] == h[1..9];
  }

  lemma OnePart(a: seq<Byte>)
    requires |a| < 60000
    ensures |Encode([a])| == 33 + |a| && Encode([a])[0] == 1 && Encode([a])[33..] == a
  {
    assert Start([a], 1) == HEADER_SIZE + |a|;
    EncodeLength([a]);
    EncodingLayout([a], 0);
  }

  lemma TwoParts(a: seq<Byte>, b: seq<Byte>)
    requires |a| + |b| < 60000
    ensures |Encode([a, b])| == 33 + |a| + |b| && Encode([a, b])[0] == 2 && Encode([a, b])[33..] == a + b
  {
    var msgs := [a, b];
    assert Start(msgs, 1) == HEADER_SIZE + |a| && Start(msgs, 2) == Start(msgs, 1) + |b|;
    EncodeLength(msgs);
    EncodingLayout(msgs, 0);
    EncodingTiles(msgs, 0);
    EncodingLayout(msgs, 1);
    PayloadSlice(msgs, 1);
    var d := Encode(msgs);
    assert d[33..] == d[33..33 + |a|] + d[33 + |a|..];
  }

  /** The server moves on with what the handler leaves, if one is called, and as it was otherwise. */
  lemma ServedState<S>(hs: map<Byte, Handler<S>>, state: S, buf: seq<Byte>)
    requires HEADER_SIZE <= |buf| && Serve(hs, state, buf).Replied?
    ensures var q := DecodeRequest(buf);
            if q.Request? && q.parameter.Found? then
              q.id in hs && Serve(hs, state, buf).state == hs[q.id](state, q.parameter.value).0
            else Serve(hs, state, buf).state == state
  {
  }

  /**
   * The status that a reply carries: 4 for an undecodable request, 1 for a missing parameter, a
   * handler that throws or an answer over 4053 bytes, and 0 with the whole answer otherwise.
   */
  lemma ServedStatus<S>(hs: map<Byte, Handler<S>>, state: S, buf: seq<Byte>)
    requires HEADER_SIZE <= |buf| && Serve(hs, state, buf).Replied?
    requires forall id, s, p :: id in hs && hs[id](s, p).1.Some? ==> |hs[id](s, p).1.value| < U32_RANGE - 10
    ensures var q, d := DecodeRequest(buf), Serve(hs, state, buf).reply;
            match q {
              case Undecodable => |d| == 43 && d[33] == 4
              case Request(id, checksum, Found(p)) =>
                var answer := hs[id](state, p).1;
                if answer.None? || 4053 < |answer.value| then |d| == 43 && d[33] == 1
                else
                  && |d| == 43 + |answer.value| && d[33] == 0 && d[42] == (if id == 0 then 1 else 0)
                  && d[43..] == answer.value
              case _ => |d| == 43 && d[33] == 1
            }
  {
    DecodedChecksumBound(buf);
    match DecodeRequest(buf)
    case Undecodable => ReplyLayout(STATUS_FATAL, INVALID_CHECKSUM, 0, None);
    case Request(id, checksum, Missing) => ReplyLayout(STATUS_NOP, checksum, 0, None);
    case Request(id, checksum, Found(p)) =>
      var answer := hs[id](state, p).1;
      if BecomesNop(answer) {
        ReplyLayout(STATUS_NOP, checksum, 0, None);
      } else {
        ReplyLayout(STATUS_OK, checksum, if id == HEART_BEAT then 1 else 0, answer);
      }
    case _ =>
  }

  /**
   * When the client takes a buffer for a success: a heartbeat mark that it waits for, or a reply
   * under its own checksum with status 0 and a body. Undecodable bytes, foreign checksums and
   * every other status are errors. The counter moves exactly on a reply under its own checksum
   * without the mark, and only marks are skipped.
   */
  lemma ReactOkIff(buf: seq<Byte>, checksum: nat, heartbeat: bool)
    requires HEADER_SIZE <= |buf| && checksum < U64_RANGE
    ensures var q, r := DecodeReply(buf), React(buf, checksum, heartbeat);
            && (forall v, next :: r == Settled(IoOk(v), next) <==>
                  || (q.Reply? && q.dummy != 0 && heartbeat && v == [] && next == checksum)
                  || (q == Reply(0, checksum, 0, Found(v)) && next == NextChecksum(checksum)))
            && (r.Settled? && r.checksum != checksum <==> q.Reply? && q.dummy == 0 && q.checksum == checksum)
            && (r.Ignored? <==> q.Reply? && q.dummy != 0 && !heartbeat)
            && (r.Settled? && r.result == IoErr("Not ready") <==>
                  q.Reply? && q.dummy == 0 && q.checksum == checksum && q.status == 1)
            && (r.Settled? && r.result == IoWild <==>
                  q.WildReply? || q == Reply(0, checksum, 0, OutOfBounds))
            && (r.Settled? ==> r.result.IoOk? || r.result.IoErr? || r.result.IoWild?)
  {
  }

  lemma DecodedChecksumBound(buf: seq<Byte>)
    requires HEADER_SIZE <= |buf|
    ensures DecodeRequest(buf).Request? ==> DecodeRequest(buf).checksum < U64_RANGE
  {
    if DecodeRequest(buf).Request? {
      var h := Fetch(buf, 0).value;
      FromLEBound(h[1..9]);
      Pow256Of8();
    }
  }

  /** What the client reads from the reply to a handler's answer. */
  function AnswerSeen(id: Byte, checksum: nat, answer: Option<seq<Byte>>): Reply {
    if BecomesNop(answer) then Reply(STATUS_NOP, checksum, 0, Missing)
    else
      Reply(STATUS_OK, checksum, if id == HEART_BEAT then 1 else 0,
            if |answer.value| <= 4053 then Found(answer.value) else Missing)
  }

  lemma AnswerRoundTrip(id: Byte, checksum: nat, answer: Option<seq<Byte>>, stale: seq<Byte>)
    requires checksum < U64_RANGE && |stale| == MAX_MSG
    ensures |AnswerReply(id, checksum, answer)| <= MAX_MSG
    ensures DecodeReply(Overlay(AnswerReply(id, checksum, answer), stale)) == AnswerSeen(id, checksum, answer)
  {
    if BecomesNop(answer) {
      ReplyRoundTrip(STATUS_NOP, checksum, 0, None, stale);
    } else {
      var dummy: Byte := if id == HEART_BEAT then 1 else 0;
      ReplyRoundTrip(STATUS_OK, checksum, dummy, if |answer.value| <= 4053 then answer else None, stale);
    }
  }

  /** Below 4 GiB an answer arrives whole or, past 4053 bytes, as Nop; never cut short. */
  lemma AnswerWholeOrNop(id: Byte, checksum: nat, answer: seq<Byte>, stale: seq<Byte>)
    requires checksum < U64_RANGE && |stale| == MAX_MSG && |answer| < U32_RANGE - 10
    ensures var seen := DecodeReply(Overlay(AnswerReply(id, checksum, Some(answer)), stale));
            && (|answer| <= 4053 ==> seen.Reply? && seen.status == STATUS_OK && seen.body == Found(answer))
            && (|answer| > 4053 ==> seen == Reply(STATUS_NOP, checksum, 0, Missing))
  {
    AnswerRoundTrip(id, checksum, Some(answer), stale);
  }

  /** The checksum every reply to `buf` carries. */
  function Echo(buf: seq<Byte>): nat
    requires HEADER_SIZE <= |buf|
  {
    if DecodeRequest(buf).Request? then DecodeRequest(buf).checksum else INVALID_CHECKSUM
  }

  /** Whatever the buffer holds, a reply fits a datagram and echoes the request's checksum, or 0. */
  lemma ReplyEchoes<S>(hs: map<Byte, Handler<S>>, state: S, buf: seq<Byte>, stale: seq<Byte>)
    requires HEADER_SIZE <= |buf| && |stale| == MAX_MSG
    requires Serve(hs, state, buf).Replied?
    ensures var seen := DecodeReply(Overlay(Serve(hs, state, buf).reply, stale));
            seen.Reply? && seen.checksum == Echo(buf)
    ensures |Serve(hs, state, buf).reply| <= MAX_MSG
  {
    DecodedChecksumBound(buf);
    match DecodeRequest(buf)
    case Undecodable => ReplyRoundTrip(STATUS_FATAL, INVALID_CHECKSUM, 0, None, stale);
    case Request(id, checksum, Missing) => ReplyRoundTrip(STATUS_NOP, checksum, 0, None, stale);
    case Request(id, checksum, Found(p)) => AnswerRoundTrip(id, checksum, hs[id](state, p).1, stale);
    case _ =>
  }

  /** The only ways an iteration does not reply: an unregistered id, or a header that lies. */
  lemma ServeCrashesIff<S>(hs: map<Byte, Handler<S>>, state: S, buf: seq<Byte>)
    requires HEADER_SIZE <= |buf|
    ensures Serve(hs, state, buf).Crashed? <==>
      && |buf| <= MAX_MSG && Accepts(buf, |buf|)
      && var first := Fetch(buf, 0);
         (first == OutOfBounds
          || (first.Found? && 9 <= |first.value|
              && (Fetch(buf, 1) == OutOfBounds || (Fetch(buf, 1).Found? && first.value[0] !in hs))))
  {
  }

  // ---- the client's retry loop ----

  datatype ClientEvent = Delivered(datagram: seq<Byte>) | TimedOut | RecvError

  datatype Outcome = Outcome(result: IoResult, checksum: nat, consumed: nat)

  /** receive_reply over the events its socket will see; no event left means a timeout. */
  function Settle(inbox: seq<ClientEvent>, checksum: nat, heartbeat: bool): (o: Outcome)
    ensures o.consumed <= |inbox|
    decreases |inbox|
  {
    if inbox == [] then Outcome(IoTimeout, checksum, 0)
    else
      match inbox[0]
      case TimedOut => Outcome(IoTimeout, checksum, 1)
      case RecvError => Outcome(IoFailed, checksum, 1)
      case Delivered(d) =>
        match React(Overlay(d, Zeros(MAX_MSG)), checksum, heartbeat)
        case Settled(r, c) => Outcome(r, c, 1)
        case Ignored =>
          var rest := Settle(inbox[1..], checksum, heartbeat);
          rest.(consumed := rest.consumed + 1)
  }

  /** A delivered datagram that carries the heartbeat mark. */
  predicate IsHeartbeatReply(e: ClientEvent) {
    e.Delivered? && var seen := DecodeReply(Overlay(e.datagram, Zeros(MAX_MSG))); seen.Reply? && seen.dummy != 0
  }

  /** A normal receive skips heartbeat replies and settles on the first event that is not one. */
  lemma {:induction false} SettlesOnFirstNormal(inbox: seq<ClientEvent>, checksum: nat)
    ensures var n := Settle(inbox, checksum, false).consumed;
            && (forall i :: 0 <= i < n - 1 ==> IsHeartbeatReply(inbox[i]))
            && ((0 < n && !IsHeartbeatReply(inbox[n - 1]))
                || (n == |inbox| && Settle(inbox, checksum, false) == Outcome(IoTimeout, checksum, n)
                    && forall i :: 0 <= i < n ==> IsHeartbeatReply(inbox[i])))
    decreases |inbox|
  {
    if inbox != [] && IsHeartbeatReply(inbox[0]) {
      SettlesOnFirstNormal(inbox[1..], checksum);
      var n := Settle(inbox, checksum, false).consumed;
      assert forall i :: 0 < i < n ==> inbox[i] == inbox[1..][i - 1];
    }
  }

  // ---- the server's event loop ----

  datatype ServerEvent = Arrived(source: Addr, datagram: seq<Byte>) | Quiet

  datatype LoopState<S> = LoopState(
    state: S, current: Option<Addr>, buf: seq<Byte>, inbox: seq<ServerEvent>,
    replies: seq<(Addr, seq<Byte>)>, count: nat, crashed: bool)

  /** RecvChannel::start and the receive in RecvChannel::next, on the reused buffer. */
  function Fill<S>(l: LoopState<S>): LoopState<S>
    requires l.current.None?
  {
    if l.inbox == [] then l
    else
      match l.inbox[0]
      case Quiet => l.(inbox := l.inbox[1..])
      case Arrived(source, d) => l.(current := Some(source), buf := Overlay(d, l.buf), inbox := l.inbox[1..])
  }

  /** One reply sent: the message is dropped and counted. */
  function Replying<S>(l: LoopState<S>, state: S, reply: seq<Byte>): LoopState<S>
    requires l.current.Some?
  {
    l.(state := state, replies := l.replies + [(l.current.value, reply)], count := l.count + 1, current := None)
  }

  /** The rest of the loop from its guard on. */
  function Drain<S>(hs: map<Byte, Handler<S>>, l: LoopState<S>): LoopState<S>
    requires HEADER_SIZE <= |l.buf|
    decreases |l.inbox|, l.current.Some?
  {
    if l.current.None? then l
    else
      match Serve(hs, l.state, l.buf)
      case Crashed => l.(crashed := true)
      case Replied(s, r) => Drain(hs, Fill(Replying(l, s, r)))
  }

  /** The messages the loop receives: each sender, and the buffer as the loop body sees it. */
  function Received(buf: seq<Byte>, inbox: seq<ServerEvent>): seq<(Addr, seq<Byte>)>
    decreases |inbox|
  {
    if inbox == [] || inbox[0].Quiet? then []
    else
      var filled := Overlay(inbox[0].datagram, buf);
      [(inbox[0].source, filled)] + Received(filled, inbox[1..])
  }

  function Taken<S>(l: LoopState<S>): seq<(Addr, seq<Byte>)> {
    if l.current.None? then [] else [(l.current.value, l.buf)] + Received(l.buf, l.inbox)
  }

  /** A reply that goes to the sender of the message and carries the message's checksum, or 0. */
  predicate Answers(reply: (Addr, seq<Byte>), message: (Addr, seq<Byte>)) {
    && HEADER_SIZE <= |message.1|
    && reply.0 == message.0
    && var seen := DecodeReply(Overlay(reply.1, Zeros(MAX_MSG)));
       seen.Reply? && seen.checksum == Echo(message.1)
  }

  predicate AnswerEach(replies: seq<(Addr, seq<Byte>)>, messages: seq<(Addr, seq<Byte>)>) {
    if replies == [] || messages == [] then replies == [] && messages == []
    else Answers(replies[0], messages[0]) && AnswerEach(replies[1..], messages[1..])
  }

  lemma ReplyAnswers<S>(hs: map<Byte, Handler<S>>, l: LoopState<S>)
    requires HEADER_SIZE <= |l.buf| && l.current.Some? && Serve(hs, l.state, l.buf).Replied?
    ensures Answers((l.current.value, Serve(hs, l.state, l.buf).reply), (l.current.value, l.buf))
  {
    ReplyEchoes(hs, l.state, l.buf, Zeros(MAX_MSG));
  }

  /** The replies that the loop adds. */
  function Sent<S>(hs: map<Byte, Handler<S>>, l: LoopState<S>): seq<(Addr, seq<Byte>)>
    requires HEADER_SIZE <= |l.buf|
    decreases |l.inbox|, l.current.Some?
  {
    if l.current.None? then []
    else
      match Serve(hs, l.state, l.buf)
      case Crashed => []
      case Replied(s, r) => [(l.current.value, r)] + Sent(hs, Fill(Replying(l, s, r)))
  }

  /** The loop after one reply, with the next message fetched. */
  function AfterReply<S>(hs: map<Byte, Handler<S>>, l: LoopState<S>): LoopState<S>
    requires HEADER_SIZE <= |l.buf| && l.current.Some? && Serve(hs, l.state, l.buf).Replied?
  {
    var served := Serve(hs, l.state, l.buf);
    Fill(Replying(l, served.state, served.reply))
  }

  lemma LoopStep<S>(hs: map<Byte, Handler<S>>, l: LoopState<S>)
    requires HEADER_SIZE <= |l.buf| && l.current.Some? && Serve(hs, l.state, l.buf).Replied?
    ensures var next := AfterReply(hs, l);
            && Drain(hs, l) == Drain(hs, next)
            && Sent(hs, l) == [(l.current.value, Serve(hs, l.state, l.buf).reply)] + Sent(hs, next)
            && next.replies == l.replies + [(l.current.value, Serve(hs, l.state, l.buf).reply)]
            && next.count == l.count + 1
            && |next.buf| == |l.buf| && next.crashed == l.crashed
            && (|next.inbox| < |l.inbox| || next.current.None?) && |next.inbox| <= |l.inbox|
  {
  }

  lemma {:induction false} DrainAddsSent<S>(hs: map<Byte, Handler<S>>, l: LoopState<S>)
    requires HEADER_SIZE <= |l.buf|
    ensures Drain(hs, l).replies == l.replies + Sent(hs, l)
    ensures Drain(hs, l).count == l.count + |Sent(hs, l)|
    decreases |l.inbox|, l.current.Some?
  {
    if l.current.Some? && Serve(hs, l.state, l.buf).Replied? {
      var next := AfterReply(hs, l);
      LoopStep(hs, l);
      DrainAddsSent(hs, next);
      assert next.replies + Sent(hs, next) == l.replies + Sent(hs, l);
    }
  }

  lemma {:induction false} SentAnswersTaken<S>(hs: map<Byte, Handler<S>>, l: LoopState<S>)
    requires HEADER_SIZE <= |l.buf| && !Drain(hs, l).crashed
    ensures AnswerEach(Sent(hs, l), Taken(l))
    decreases |l.inbox|, l.current.Some?
  {
    if l.current.Some? {
      var next := AfterReply(hs, l);
      LoopStep(hs, l);
      SentAnswersTaken(hs, next);
      ReplyAnswers(hs, l);
      assert Sent(hs, l)[1..] == Sent(hs, next);
      assert Taken(l)[1..] == Taken(next);
    }
  }

  /**
   * Unless it crashes, the loop answers each message it takes up once and in order, and
   * the count it returns is the number of replies it sent.
   */
  lemma OneReplyPerDatagram<S>(hs: map<Byte, Handler<S>>, l: LoopState<S>)
    requires HEADER_SIZE <= |l.buf| && !Drain(hs, l).crashed && l.replies == [] && l.count == 0
    ensures AnswerEach(Drain(hs, l).replies, Taken(l))
    ensures Drain(hs, l).count == |Drain(hs, l).replies|
  {
    DrainAddsSent(hs, l);
    SentAnswersTaken(hs, l);
    assert Drain(hs, l).replies == Sent(hs, l);
  }
}
