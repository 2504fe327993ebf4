/**
 * The RPC endpoints as objects: channels over a socket's event queues, the client SRpc
 * with its checksum counter, and the server SRpcHandler with its event loop. Each method
 * is tied to the functions of SRpcSpec.
 */
module SRpcEndpoints {
  import opened Bytes
  import opened Wrappers
  import opened MultiMsgs
  import opened SRpcSpec

  /** recvfrom: the datagram overwrites the start of the buffer, cut to its size. */
  method ReceiveInto(buf: ByteString, datagram: seq<Byte>)
    requires buf.Valid()
    modifies buf.data
    ensures buf.Contents() == Overlay(datagram, old(buf.Contents()))
  {
    var n := Min(|datagram|, buf.size);
    ghost var before := buf.Contents();
    for i := 0 to n
      invariant buf.data[..i] == datagram[..i]
      invariant buf.data[i..buf.size] == before[i..]
    {
      buf.data[i] := datagram[i];
    }
    assert buf.Contents() == buf.data[..n] + buf.data[n..buf.size];
  }

  datatype RecvStatus = RecvOk | RecvTimeout | RecvErr

  class SendChannel {
    var inbox: seq<ClientEvent>
    var outbox: seq<seq<Byte>>
    ghost var refused: nat // history: how often sendto failed

    /** sendto may fail; then nothing leaves. */
    method Send(buf: ByteString) returns (ok: bool)
      requires buf.Valid()
      modifies `outbox, `refused
      ensures outbox == if ok then old(outbox) + [buf.Contents()] else old(outbox)
      ensures refused == if ok then old(refused) else old(refused) + 1
    {
      ok := *;
      if ok {
        outbox := outbox + [buf.data[..buf.size]];
      } else {
        refused := refused + 1;
      }
    }

    /** recv: a fresh zeroed buffer each time. */
    method Recv() returns (status: RecvStatus, buf: ByteString)
      modifies `inbox
      ensures fresh(buf) && fresh(buf.data) && buf.Valid()
      ensures if old(inbox) == [] then inbox == [] && status == RecvTimeout
              else inbox == old(inbox)[1..] && match old(inbox)[0] {
                case TimedOut => status == RecvTimeout
                case RecvError => status == RecvErr
                case Delivered(d) => status == RecvOk && buf.Contents() == Overlay(d, Zeros(MAX_MSG))
              }
    {
      buf := new ByteString(Zeros(MAX_MSG));
      if inbox == [] {
        return RecvTimeout, buf;
      }
      var event := inbox[0];
      inbox := inbox[1..];
      match event
      case TimedOut => status := RecvTimeout;
      case RecvError => status := RecvErr;
      case Delivered(d) =>
        ReceiveInto(buf, d);
        status := RecvOk;
    }
  }

  datatype CallResult = CallOk | CallSendErr | CallTooLarge | CallAborted

  class SRpc {
    const channel: SendChannel
    var checksum: nat

    constructor (channel: SendChannel)
      ensures this.channel == channel && checksum == INVALID_CHECKSUM + 1
    {
      this.channel := channel;
      checksum := INVALID_CHECKSUM + 1;
    }

    /** call: frames the request; the counter stays, so a retry reuses the same checksum. */
    method Call(id: Byte, parameter: seq<Byte>) returns (r: CallResult)
      modifies channel`outbox, channel`refused
      ensures channel.refused == if r == CallSendErr then old(channel.refused) + 1 else old(channel.refused)
      ensures match CallSpec(id, checksum, parameter) {
                case TooLarge => r == CallTooLarge && channel.outbox == old(channel.outbox)
                case Aborted => r == CallAborted && channel.outbox == old(channel.outbox)
                case Send(d) =>
                  || (r == CallOk && channel.outbox == old(channel.outbox) + [d])
                  || (r == CallSendErr && channel.outbox == old(channel.outbox))
              }
    {
      var size := ExactSize(1, |parameter|);
      var exact := MultiMsg.CreateExact(MAX_MSG, size);
      if exact.None? {
        return CallTooLarge;
      }
      var m := exact.value;
      var header := RequestHeader(id, checksum);
      AppendSpecTotal([], header, MAX_MSG);
      var headerTaken := m.Append(header);
      assert m.msgs == [header] && headerTaken;
      var taken := m.Append(parameter);
      if !taken {
        return CallAborted;
      }
      assert m.msgs == [header, parameter];
      var ok := channel.Send(m.buf);
      return if ok then CallOk else CallSendErr;
    }

    /** The body of receive_reply's loop on one received buffer; None is `goto retry`. */
    method ReactTo(buf: ByteString, heartbeat: bool) returns (r: Option<IoResult>)
      requires buf.Valid() && buf.size == MAX_MSG
      modifies `checksum
      ensures match React(buf.Contents(), old(checksum), heartbeat) {
                case Ignored => r == None && checksum == old(checksum)
                case Settled(result, next) => r == Some(result) && checksum == next
              }
    {
      var decoded := MultiMsg.CreateFrom(MAX_MSG, buf);
      if !decoded.Taken? {
        return Some(IoErr("decode reply error"));
      }
      var first := decoded.msg.QueryOne(0);
      if first.OutOfBounds? {
        return Some(IoWild);
      }
      if first.Missing? || |first.value| < 10 {
        return Some(IoErr("decode reply error"));
      }
      var status, echoed, dummy := first.value[0], FromLE(first.value[1..9]), first.value[9];
      if dummy != 0 {
        return if heartbeat then Some(IoOk([])) else None;
      }
      if echoed != checksum {
        return Some(IoErr("Fatal checksum error"));
      }
      checksum := NextChecksum(checksum);
      if status == STATUS_OK {
        var body := decoded.msg.QueryOne(1);
        return Some(match body
                    case Missing => IoErr("decode reply error")
                    case OutOfBounds => IoWild
                    case Found(b) => IoOk(b));
      }
      return Some(if status == STATUS_NOP then IoErr("Not ready") else IoErr("unknown error"));
    }

    /** receive_reply: consumes events until one settles the call. */
    method ReceiveReply(heartbeat: bool) returns (r: IoResult)
      modifies this, channel`inbox
      ensures var o := Settle(old(channel.inbox), old(checksum), heartbeat);
              r == o.result && checksum == o.checksum && channel.inbox == old(channel.inbox)[o.consumed..]
    {
      ghost var skipped := 0;
      while true
        invariant 0 <= skipped <= |old(channel.inbox)| && channel.inbox == old(channel.inbox)[skipped..]
        invariant checksum == old(checksum)
        invariant var o := Settle(channel.inbox, checksum, heartbeat);
                  Settle(old(channel.inbox), old(checksum), heartbeat) == o.(consumed := skipped + o.consumed)
        decreases |channel.inbox|
      {
        var status, buf := channel.Recv();
        match status
        case RecvTimeout => return IoTimeout;
        case RecvErr => return IoFailed;
        case RecvOk =>
          var settled := ReactTo(buf, heartbeat);
          if settled.Some? {
            return settled.value;
          }
          skipped := skipped + 1;
      }
    }
  }

  /** The server's channel: one buffer, reused for every datagram. */
  class RecvChannel {
    var inbox: seq<ServerEvent>
    var outbox: seq<(Addr, seq<Byte>)>
    var curClient: Option<Addr>
    const curMsg: ByteString

    ghost predicate Valid()
      reads this, curMsg
    {
      curMsg.Valid() && curMsg.size == MAX_MSG
    }

    constructor (inbox: seq<ServerEvent>)
      ensures Valid() && this.inbox == inbox && outbox == [] && curClient == None
      ensures fresh(curMsg) && fresh(curMsg.data)
    {
      this.inbox := inbox;
      outbox := [];
      curClient := None;
      curMsg := new ByteString(Zeros(MAX_MSG));
    }

    method Start()
      requires Valid()
      modifies `inbox, `curClient, curMsg.data
      ensures Valid()
      ensures old(curClient.Some?) ==>
        inbox == old(inbox) && curClient == old(curClient) && curMsg.Contents() == old(curMsg.Contents())
      ensures old(curClient.None?) ==>
        var l := Fill(LoopState((), None, old(curMsg.Contents()), old(inbox), [], 0, false));
        curClient == l.current && inbox == l.inbox && curMsg.Contents() == l.buf
    {
      if curClient.Some? || inbox == [] {
        return;
      }
      var event := inbox[0];
      inbox := inbox[1..];
      if event.Arrived? {
        ReceiveInto(curMsg, event.datagram);
        curClient := Some(event.source);
      }
    }

    method Next()
      requires Valid()
      modifies `inbox, `curClient, curMsg.data
      ensures Valid()
      ensures var l := Fill(LoopState((), None, old(curMsg.Contents()), old(inbox), [], 0, false));
              curClient == l.current && inbox == l.inbox && curMsg.Contents() == l.buf
    {
      curClient := None;
      Start();
    }

    method ReplyCur(buf: ByteString)
      requires curClient.Some? && buf.Valid()
      modifies `outbox
      ensures outbox == old(outbox) + [(curClient.value, buf.Contents())]
    {
      outbox := outbox + [(curClient.value, buf.data[..buf.size])];
    }
  }

  function HeartbeatHandler<S>(state: S, request: seq<Byte>): (S, Option<seq<Byte>>) {
    (state, Some([49]))
  }

  class SRpcHandler<S(!new)> {
    const channel: RecvChannel
    var handlers: map<Byte, Handler<S>>
    var state: S

    constructor (channel: RecvChannel, state: S)
      ensures this.channel == channel && this.state == state
      ensures handlers == map[HEART_BEAT := HeartbeatHandler] && BuiltInHeartbeat(handlers)
    {
      this.channel := channel;
      this.state := state;
      var builtIn: map<Byte, Handler<S>> := map[HEART_BEAT := HeartbeatHandler];
      handlers := builtIn;
    }

    /** The first registration of an id wins, the built-in heartbeat included. */
    method RegisterHandler(id: Byte, f: Handler<S>) returns (ok: bool)
      modifies `handlers
      ensures old(BuiltInHeartbeat(handlers)) ==> BuiltInHeartbeat(handlers)
      ensures ok <==> id !in old(handlers)
      ensures handlers == if ok then old(handlers)[id := f] else old(handlers)
    {
      ok := id !in handlers;
      if ok {
        var extended: map<Byte, Handler<S>> := handlers[id := f];
        handlers := extended;
      }
    }

    static method SmallReply(status: Byte, checksum: nat) returns (m: MultiMsg)
      ensures fresh(m) && m.buf.Valid() && m.buf.Contents() == EncodeReply(status, checksum, 0, None)
    {
      var exact := MultiMsg.CreateExact(MAX_MSG, 10);
      m := exact.value;
      var header := ReplyHeader(status, checksum, 0);
      AppendSpecTotal([], header, MAX_MSG);
      var _ := m.Append(header);
      assert m.msgs == [header] + [];
    }

    static method AnswerMessage(id: Byte, checksum: nat, answer: Option<seq<Byte>>) returns (m: MultiMsg)
      ensures fresh(m) && m.buf.Valid() && m.buf.Contents() == AnswerReply(id, checksum, answer)
    {
      if answer.Some? {
        var size := ExactSize(10, |answer.value|);
        var exact := MultiMsg.CreateExact(MAX_MSG, size);
        if exact.Some? {
          m := exact.value;
          var header := ReplyHeader(STATUS_OK, checksum, if id == HEART_BEAT then 1 else 0);
          AppendSpecTotal([], header, MAX_MSG);
          var _ := m.Append(header);
          assert m.msgs == [header];
          var bodyTaken := m.Append(answer.value);
          assert m.msgs == [header] + if bodyTaken then [answer.value] else [];
          return;
        }
      }
      m := SmallReply(STATUS_NOP, checksum);
    }

    /** The loop body: decode in place, dispatch, build the reply; None is undefined behaviour. */
    method ServeCurrent() returns (r: Option<MultiMsg>)
      requires channel.Valid()
      modifies `state
      ensures match Serve(handlers, old(state), channel.curMsg.Contents()) {
                case Crashed => r.None?
                case Replied(s, reply) =>
                  r.Some? && fresh(r.value) && r.value.buf.Valid() && r.value.buf.Contents() == reply && state == s
              }
    {
      var m: MultiMsg;
      var decoded := MultiMsg.CreateFrom(MAX_MSG, channel.curMsg);
      if !decoded.Taken? {
        m := SmallReply(STATUS_FATAL, INVALID_CHECKSUM);
        return Some(m);
      }
      var first := decoded.msg.QueryOne(0);
      if first.OutOfBounds? {
        return None;
      }
      if first.Missing? || |first.value| < 9 {
        m := SmallReply(STATUS_FATAL, INVALID_CHECKSUM);
        return Some(m);
      }
      var id, checksum := first.value[0], FromLE(first.value[1..9]);
      var parameter := decoded.msg.QueryOne(1);
      match parameter
      case Missing =>
        m := SmallReply(STATUS_NOP, checksum);
        return Some(m);
      case OutOfBounds =>
        return None;
      case Found(p) =>
        if id !in handlers {
          return None;
        }
        var (s, answer) := handlers[id](state, p);
        state := s;
        m := AnswerMessage(id, checksum, answer);
        return Some(m);
    }

    ghost function View(count: nat, crashed: bool): LoopState<S>
      requires channel.Valid()
      reads this, channel, channel.curMsg, channel.curMsg.data
    {
      LoopState(state, channel.curClient, channel.curMsg.Contents(), channel.inbox, channel.outbox, count, crashed)
    }

    /** Loop body and increment: reply to the current message and fetch the next one. */
    method ServeAndNext(ghost count: nat) returns (crashed: bool)
      requires channel.Valid() && channel.curClient.Some?
      modifies `state, channel, channel.curMsg.data
      ensures channel.Valid()
      ensures var l := old(View(count, false));
              && crashed == Serve(handlers, l.state, l.buf).Crashed?
              && (!crashed ==> View(count + 1, false) == AfterReply(handlers, l))
    {
      var reply := ServeCurrent();
      if reply.None? {
        return true;
      }
      channel.ReplyCur(reply.value.buf);
      channel.Next();
      return false;
    }

    /** The same in terms of where the whole loop ends. */
    method Iterate(ghost count: nat) returns (crashed: bool)
      requires channel.Valid() && channel.curClient.Some?
      modifies `state, channel, channel.curMsg.data
      ensures channel.Valid()
      ensures crashed ==> Drain(handlers, old(View(count, false))).crashed
      ensures !crashed ==> Drain(handlers, View(count + 1, false)) == Drain(handlers, old(View(count, false)))
      ensures !crashed ==>
        && |channel.inbox| <= |old(channel.inbox)|
        && (|channel.inbox| < |old(channel.inbox)| || channel.curClient.None?)
    {
      crashed := ServeAndNext(count);
      if !crashed {
        LoopStep(handlers, old(View(count, false)));
      }
    }

    /** run_one_event_loop: the number of requests served, or None once behaviour is undefined. */
    method RunOneEventLoop() returns (r: Option<nat>)
      requires channel.Valid()
      modifies `state, channel, channel.curMsg.data
      ensures channel.Valid()
      ensures var l := old(View(0, false));
              var e := Drain(handlers, if l.current.Some? then l else Fill(l));
              if e.crashed then r.None? else r == Some(e.count) && View(e.count, false) == e
    {
      var count := 0;
      channel.Start();
      ghost var end := Drain(handlers, View(0, false));
      while channel.curClient.Some?
        invariant channel.Valid()
        invariant Drain(handlers, View(count, false)) == end
        decreases |channel.inbox|, channel.curClient.Some?
      {
        var crashed := Iterate(count);
        if crashed {
          return None;
        }
        count := count + 1;
      }
      return Some(count);
    }
  }
}
