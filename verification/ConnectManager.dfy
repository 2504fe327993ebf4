/**
 * The client's side of the control plane: waiting for the daemon with heartbeats, creating
 * and connecting a queue pair, and deleting it again, on top of the RPC client.
 */
module ConnectManagers {
  import opened Bytes
  import opened ControlPlane
  import opened MsgCodec
  import opened Proto
  import opened Registry
  import opened SRpcEndpoints
  import opened SRpcSpec
  import opened Wrappers

  datatype Outcome<+T> = Done(value: T) | Error(why: string) | TimeOut

  function ReplyOf(r: IoResult): Option<RCReply> {
    if r.IoOk? then ParseReply(r.value) else None
  }

  /**
   * What delete_remote_rc makes of the reply: its last error is built and thrown away, so
   * that without a reply, or with another status, it reports success.
   */
  function DeleteResult(r: IoResult): Outcome<()> {
    match ReplyOf(r)
    case None => Done(())
    case Some(reply) =>
      if reply.status == ST_WRONG_ARG then Error("wrong arg")
      else if reply.status == ST_AUTH_ERR then Error("auth failure")
      else Done(())
  }

  /** cc_rc goes on to connect, and returns the key, on a reply with Ok. */
  predicate SaysOk(r: IoResult) {
    ReplyOf(r).Some? && ReplyOf(r).value.status == ST_OK
  }

  /** What cc_rc makes of the reply, if the connect that follows an Ok ends with `connected`. */
  function CreateResult(r: IoResult, connected: bool): (o: Outcome<U64>)
    ensures o.Done? <==> SaysOk(r) && connected
    ensures o.Done? ==> o.value == ReplyOf(r).value.key
  {
    if !r.IoOk? then Error("unknown error")
    else
      match ReplyOf(r)
      case None => Error("Decode reply error")
      case Some(reply) =>
        if reply.status == ST_OK then (if connected then Done(reply.key) else Error("connect failed"))
        else if reply.status == ST_CONNECT_ERR then Error("Remote connect error")
        else if reply.status == ST_WRONG_ARG then Error("Wrong arguments, possible the QP has exsists")
        else Error("Unknown status code")
  }

  /** Which report goes with which status of the reply, and with none. */
  lemma ReportsByStatus(r: IoResult, connected: bool)
    ensures ReplyOf(r).Some? ==>
              var reply := ReplyOf(r).value;
              && DeleteResult(r) == (if reply.status == 3 then Error("wrong arg")
                                     else if reply.status == 5 then Error("auth failure") else Done(()))
              && CreateResult(r, connected)
                 == (if reply.status == 0 && connected then Done(reply.key)
                     else Error(if reply.status == 0 then "connect failed"
                                else if reply.status == 4 then "Remote connect error"
                                else if reply.status == 3 then "Wrong arguments, possible the QP has exsists"
                                else "Unknown status code"))
    ensures ReplyOf(r).None? ==>
              && DeleteResult(r) == Done(())
              && CreateResult(r, connected) == Error(if r.IoOk? then "Decode reply error" else "unknown error")
  {
  }

  /** A heartbeat receive settles on whatever comes first: it never skips an event. */
  lemma HeartbeatTakesFirst(inbox: seq<ClientEvent>, checksum: nat)
    ensures Settle(inbox, checksum, true).consumed == if inbox == [] then 0 else 1
  {
  }

  /** Events that a wait for the daemon ran into and took for a timeout. */
  predicate Lapsed(inbox: seq<ClientEvent>, n: nat) {
    forall i :: 0 <= i < n && i < |inbox| ==> inbox[i].TimedOut?
  }

  /** After `n` timeouts the next event settles a heartbeat receive with `r`. */
  predicate HeartbeatSettles(inbox: seq<ClientEvent>, n: nat, checksum: nat, r: IoResult, next: nat) {
    && n < |inbox| && Lapsed(inbox, n)
    && match inbox[n] {
         case TimedOut => false
         case RecvError => r == IoFailed && next == checksum
         case Delivered(d) => React(Overlay(d, Zeros(MAX_MSG)), checksum, true) == Settled(r, next)
       }
  }

  /**
   * When wait_ready finds the daemon ready: the first event after the timeouts is a reply with
   * the heartbeat mark, or an Ok under the client's own checksum.
   */
  lemma HeartbeatReadyIff(inbox: seq<ClientEvent>, n: nat, checksum: nat, v: seq<Byte>, next: nat)
    requires checksum < U64_RANGE
    ensures HeartbeatSettles(inbox, n, checksum, IoOk(v), next) <==>
              && n < |inbox| && Lapsed(inbox, n) && inbox[n].Delivered?
              && var q := DecodeReply(Overlay(inbox[n].datagram, Zeros(MAX_MSG)));
                 || (q.Reply? && q.dummy != 0 && v == [] && next == checksum)
                 || (q == Reply(0, checksum, 0, Found(v)) && next == NextChecksum(checksum))
  {
    if n < |inbox| && inbox[n].Delivered? {
      ReactOkIff(Overlay(inbox[n].datagram, Zeros(MAX_MSG)), checksum, true);
    }
  }

  function Repeat(d: seq<Byte>, n: nat): (ds: seq<seq<Byte>>)
    ensures |ds| == n
  {
    seq(n, _ => d)
  }

  class ConnectManager {
    const rpc: SRpc

    constructor (rpc: SRpc)
      ensures this.rpc == rpc
    {
      this.rpc := rpc;
    }

    /** A call and the receive after it; nothing is received when the call fails. */
    method Exchange(id: Byte, parameter: seq<Byte>, heartbeat: bool) returns (reply: Option<IoResult>)
      requires |parameter| <= 4054
      modifies rpc, rpc.channel
      ensures reply.None? ==>
        && rpc.channel.refused == old(rpc.channel.refused) + 1
        && rpc.channel.outbox == old(rpc.channel.outbox) && rpc.channel.inbox == old(rpc.channel.inbox)
        && rpc.checksum == old(rpc.checksum)
      ensures reply.Some? ==>
        var o := Settle(old(rpc.channel.inbox), old(rpc.checksum), heartbeat);
        && rpc.channel.refused == old(rpc.channel.refused)
        && rpc.channel.outbox == old(rpc.channel.outbox) + [EncodeRequest(id, old(rpc.checksum), parameter)]
        && reply.value == o.result && rpc.checksum == o.checksum
        && rpc.channel.inbox == old(rpc.channel.inbox)[o.consumed..]
    {
      CallOutcomeBySize(id, rpc.checksum, parameter);
      var res := rpc.Call(id, parameter);
      if res != CallOk {
        return None;
      }
      var settled := rpc.ReceiveReply(heartbeat);
      return Some(settled);
    }

    /**
     * wait_ready: a heartbeat per try, all under the same checksum, `sent` of them. It gives up
     * after `retry` timeouts; any other event settles it, with `settled`: ready on an Ok reply,
     * an error otherwise. A send that fails stops it at once.
     */
    method WaitReady(retry: nat)
        returns (r: Outcome<seq<Byte>>, ghost sent: nat, ghost settled: IoResult)
      modifies rpc, rpc.channel
      ensures rpc.channel.outbox ==
                old(rpc.channel.outbox) + Repeat(EncodeRequest(HEART_BEAT, old(rpc.checksum), [48]), sent)
      ensures sent <= retry
      ensures r.TimeOut? ==> sent == retry && Lapsed(old(rpc.channel.inbox), retry)
      ensures r == Error("send failed") ==> sent < retry && Lapsed(old(rpc.channel.inbox), sent)
      ensures r.TimeOut? || r == Error("send failed") ==> rpc.checksum == old(rpc.checksum)
      ensures rpc.channel.refused == old(rpc.channel.refused) + if r == Error("send failed") then 1 else 0
      ensures !r.TimeOut? && r != Error("send failed") ==>
        && 0 < sent
        && HeartbeatSettles(old(rpc.channel.inbox), sent - 1, old(rpc.checksum), settled, rpc.checksum)
        && rpc.channel.inbox == old(rpc.channel.inbox)[sent..]
        && r == if settled.IoOk? then Done(settled.value) else Error("receive failed")
    {
      ghost var request := EncodeRequest(HEART_BEAT, rpc.checksum, [48]);
      ghost var inbox, outbox := rpc.channel.inbox, rpc.channel.outbox;
      ghost var taken := 0;
      sent, settled := 0, IoTimeout;
      assert outbox == outbox + Repeat(request, 0);
      for i := 0 to retry
        invariant rpc.checksum == old(rpc.checksum) && rpc.channel.refused == old(rpc.channel.refused)
        invariant sent == i && taken == if i <= |inbox| then i else |inbox|
        invariant rpc.channel.inbox == inbox[taken..] && Lapsed(inbox, i)
        invariant rpc.channel.outbox == outbox + Repeat(request, i)
      {
        assert Repeat(request, i + 1) == Repeat(request, i) + [request];
        HeartbeatTakesFirst(rpc.channel.inbox, rpc.checksum);
        var answered := Exchange(HEART_BEAT, [48], true);
        if answered.None? {
          return Error("send failed"), sent, settled;
        }
        sent := sent + 1;
        var reply := answered.value;
        if reply != IoTimeout {
          assert rpc.channel.inbox == inbox[taken + 1..] && inbox[taken..][0] == inbox[taken];
          assert HeartbeatSettles(inbox, taken, old(rpc.checksum), reply, rpc.checksum);
          return if reply.IoOk? then Done(reply.value) else Error("receive failed"), sent, reply;
        }
        if taken < |inbox| {
          TimeoutIsTimedOut(inbox[taken..], rpc.checksum);
          assert inbox[taken..][0] == inbox[taken];
          taken := taken + 1;
        }
      }
      return TimeOut, sent, settled;
    }

    /** delete_remote_rc: refused unsent for a long name, and failed if the request cannot be sent. */
    method DeleteRemoteRc(name: Name, key: U64) returns (r: Outcome<()>)
      modifies rpc, rpc.channel
      ensures |name| > MAX_NAME_LEN || rpc.channel.refused != old(rpc.channel.refused) ==>
        && r == Error(if |name| > MAX_NAME_LEN then "Name to long" else "call failed")
        && rpc.channel.outbox == old(rpc.channel.outbox) && rpc.channel.inbox == old(rpc.channel.inbox)
        && rpc.checksum == old(rpc.checksum)
      ensures |name| <= MAX_NAME_LEN && rpc.channel.refused == old(rpc.channel.refused) ==>
        var o := Settle(old(rpc.channel.inbox), old(rpc.checksum), false);
        && rpc.channel.outbox == old(rpc.channel.outbox)
             + [EncodeRequest(DELETE_RC, old(rpc.checksum), DumpDelete(DelReq(name, key)))]
        && rpc.channel.inbox == old(rpc.channel.inbox)[o.consumed..] && rpc.checksum == o.checksum
        && r == DeleteResult(o.result)
    {
      if |name| > MAX_NAME_LEN {
        return Error("Name to long");
      }
      var reply := Exchange(DELETE_RC, DumpDelete(DelReq(name, key)), false);
      if reply.None? {
        return Error("call failed");
      }
      if reply.value.IoOk? {
        var parsed := ParseReply(reply.value.value);
        if parsed.Some? {
          if parsed.value.status == ST_OK {
            return Done(());
          } else if parsed.value.status == ST_WRONG_ARG {
            return Error("wrong arg");
          } else if parsed.value.status == ST_AUTH_ERR {
            return Error("auth failure");
          }
        }
      }
      return Done(());
    }

    /**
     * cc_rc: refused unsent for a long name, and failed if the request cannot be sent. Once it
     * is out, the result is that of CreateResult for the reply, and the local queue pair is
     * connected on an Ok, and only then.
     */
    method CcRc(name: Name, nicId: U64, config: seq<Byte>, local: RC, env: Env) returns (r: Outcome<U64>)
      requires |config| == 40
      modifies rpc, rpc.channel, local
      ensures |name| > MAX_NAME_LEN || rpc.channel.refused != old(rpc.channel.refused) ==>
        && r == Error(if |name| > MAX_NAME_LEN then "Name to long" else "call failed")
        && rpc.channel.outbox == old(rpc.channel.outbox) && rpc.channel.inbox == old(rpc.channel.inbox)
        && rpc.checksum == old(rpc.checksum) && local.state == old(local.state)
      ensures |name| <= MAX_NAME_LEN && rpc.channel.refused == old(rpc.channel.refused) ==>
        var o := Settle(old(rpc.channel.inbox), old(rpc.checksum), false);
        var (state, connected) := ConnectSpec(local.valid, old(local.state), env);
        && rpc.channel.outbox == old(rpc.channel.outbox)
             + [EncodeRequest(CREATE_RC, old(rpc.checksum), DumpCreate(RCReq(name, 1, nicId), config, local.attr))]
        && rpc.channel.inbox == old(rpc.channel.inbox)[o.consumed..] && rpc.checksum == o.checksum
        && r == CreateResult(o.result, connected)
        && local.state == (if SaysOk(o.result) then state else old(local.state))
    {
      if |name| > MAX_NAME_LEN {
        return Error("Name to long");
      }
      var reply := Exchange(CREATE_RC, DumpCreate(RCReq(name, 1, nicId), config, local.attr), false);
      if reply.None? {
        return Error("call failed");
      }
      if !reply.value.IoOk? {
        return Error("unknown error");
      }
      var parsed := ParseReply(reply.value.value);
      if parsed.None? {
        return Error("Decode reply error");
      }
      if parsed.value.status == ST_OK {
        var connected := local.Connect(env);
        return if connected then Done(parsed.value.key) else Error("connect failed");
      } else if parsed.value.status == ST_CONNECT_ERR {
        return Error("Remote connect error");
      } else if parsed.value.status == ST_WRONG_ARG {
        return Error("Wrong arguments, possible the QP has exsists");
      }
      return Error("Unknown status code");
    }
  }

  lemma TimeoutIsTimedOut(inbox: seq<ClientEvent>, checksum: nat)
    requires inbox != [] && Settle(inbox, checksum, true).result == IoTimeout
    ensures inbox[0].TimedOut? && Settle(inbox, checksum, true).checksum == checksum
  {
  }
}
