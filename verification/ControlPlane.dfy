/**
 * The daemon's handlers behind the RPC protocol: what clients can rely on although their
 * requests may be lost, duplicated and reordered on the way.
 */
module ControlPlane {
  import opened Bytes
  import opened Proto
  import opened Registry
  import opened RpcSafety
  import opened SRpcSpec
  import opened Wrappers

  const FETCH_MR: Byte := 1
  const CREATE_RC: Byte := 2
  const CREATE_RCM: Byte := 3
  const DELETE_RC: Byte := 4
  const FETCH_QP_ATTR: Byte := 5
  const FETCH_DC_ATTR: Byte := 6

  type OtherReply = b: seq<Byte> | |b| == OTHER_REPLY_SIZE witness Zeros(OTHER_REPLY_SIZE)

  /**
   * The daemon: its registry, its opened NICs, what the driver will answer next, and what
   * fetch_mr_handler and fetch_dc_attr_wrapper will answer next; None when they throw.
   */
  datatype Ctrl = Ctrl(store: Store, nics: set<U64>, envs: seq<Env>, others: seq<Option<OtherReply>>)

  const UNANSWERED := Env(false, false, false, false, NO_ATTR, 1, false)

  function NextEnv(s: Ctrl): Env {
    if s.envs == [] then UNANSWERED else s.envs[0]
  }

  /** The request that a registry handler reads from its parameter. */
  function ParseRequest(id: Byte, s: Ctrl, p: seq<Byte>): Option<Registry.Request> {
    if id == CREATE_RC then Some(Create(ParseCreate(p), NextEnv(s)))
    else if id == CREATE_RCM then Some(CreateMsg(ParseCreate(p), NextEnv(s)))
    else if id == DELETE_RC then Some(Delete(ParseDelete(p)))
    else if id == FETCH_QP_ATTR then Some(Fetch(ParseFetch(p)))
    else None
  }

  /** A request that may ask the driver for a queue pair. */
  predicate Asks(r: Registry.Request) {
    r.Create? || r.CreateMsg?
  }

  /** The registry handlers, the RecvManager's included. */
  function Respond(s: Ctrl, r: Registry.Request): (Ctrl, Option<seq<Byte>>) {
    var (store, reply) := Handle(s.store, s.nics, r);
    (s.(store := store, envs := if Asks(r) && s.envs != [] then s.envs[1..] else s.envs),
     if reply.None? then None else Some(DumpReply(reply.value)))
  }

  /** The handlers that answer from other factories and leave the registry alone. */
  function RespondOther(s: Ctrl): (Ctrl, Option<seq<Byte>>) {
    if s.others == [] then (s, None) else (s.(others := s.others[1..]), s.others[0])
  }

  function Dispatch(id: Byte, s: Ctrl, p: seq<Byte>): (Ctrl, Option<seq<Byte>>) {
    if id == HEART_BEAT then (s, Some([49]))
    else
      match ParseRequest(id, s, p)
      case Some(r) => Respond(s, r)
      case None => RespondOther(s)
  }

  function HandlerFor(id: Byte): Handler<Ctrl> {
    (s: Ctrl, p: seq<Byte>) => Dispatch(id, s, p)
  }

  function RegisteredIds(): set<Byte> {
    {HEART_BEAT, FETCH_MR, CREATE_RC, CREATE_RCM, DELETE_RC, FETCH_QP_ATTR, FETCH_DC_ATTR}
  }

  function Handlers(): map<Byte, Handler<Ctrl>> {
    map id | id in RegisteredIds() :: HandlerFor(id)
  }

  lemma RegistryHandler(id: Byte, s: Ctrl, p: seq<Byte>)
    requires ParseRequest(id, s, p).Some?
    ensures id in Handlers() && id != HEART_BEAT && Handlers()[id](s, p) == Respond(s, ParseRequest(id, s, p).value)
  {
  }

  /** Which id does what, the built-in heartbeat included, and what goes out as a reply. */
  lemma HandlersById(id: Byte, s: Ctrl, p: seq<Byte>)
    ensures id in Handlers() <==> id <= 6
    ensures id == 0 ==> Handlers()[id](s, p) == (s, Some([49]))
    ensures id == 2 ==> Carries(Handlers()[id](s, p), s, Create(ParseCreate(p), NextEnv(s)))
    ensures id == 3 ==> Carries(Handlers()[id](s, p), s, CreateMsg(ParseCreate(p), NextEnv(s)))
    ensures id == 4 ==> Carries(Handlers()[id](s, p), s, Delete(ParseDelete(p)))
    ensures id == 5 ==> Carries(Handlers()[id](s, p), s, Fetch(ParseFetch(p)))
    ensures id == 1 || id == 6 ==> Handlers()[id](s, p).0.store == s.store
  {
    if 2 <= id <= 5 {
      var r := ParseRequest(id, s, p).value;
      RegistryHandler(id, s, p);
      RespondCarries(s, r);
    }
  }

  lemma RespondCarries(s: Ctrl, r: Registry.Request)
    ensures Carries(Respond(s, r), s, r)
  {
    var reply := Handle(s.store, s.nics, r).1;
    if reply.Some? {
      ReplyArrives(reply.value);
    }
  }

  /** A handler's result holds what the registry makes of a request: its store, and its reply in bytes. */
  predicate Carries(result: (Ctrl, Option<seq<Byte>>), s: Ctrl, r: Registry.Request) {
    var (store, reply) := Handle(s.store, s.nics, r);
    && result.0.store == store && result.0.nics == s.nics
    && (result.1.None? <==> reply.None?)
    && (reply.Some? ==> |result.1.value| == RC_REPLY_SIZE && ParseReply(result.1.value) == reply)
  }

  lemma OtherHandler(id: Byte, s: Ctrl, p: seq<Byte>)
    requires id in Handlers() && id != HEART_BEAT && ParseRequest(id, s, p).None?
    ensures Handlers()[id](s, p) == RespondOther(s)
  {
  }

  predicate GoodCtrl(s: Ctrl) {
    GoodStore(s.store)
  }

  lemma DispatchKeepsRegistry(id: Byte, s: Ctrl, p: seq<Byte>)
    requires GoodCtrl(s)
    ensures GoodCtrl(Dispatch(id, s, p).0)
  {
    var r := ParseRequest(id, s, p);
    if r.Some? {
      HandleKeepsGood(s.store, s.nics, r.value);
    }
  }

  lemma HandlersKeepRegistry()
    ensures BuiltInHeartbeat(Handlers())
    ensures Kept(Handlers(), GoodCtrl)
  {
    forall id: Byte, s: Ctrl, p: seq<Byte> | id in Handlers() && GoodCtrl(s)
      ensures GoodCtrl(Handlers()[id](s, p).0)
    {
      DispatchKeepsRegistry(id, s, p);
    }
  }

  /** Every queue pair in the registry is at RTS, after any run of the protocol. */
  lemma RegistryGoodInEveryRun(addrs: set<Addr>, s0: Ctrl, acts: seq<Action>)
    requires GoodCtrl(s0)
    ensures GoodCtrl(Run(Handlers(), Init(addrs, s0), acts).server)
  {
    HandlersKeepRegistry();
    HandlersInvariant(Handlers(), Init(addrs, s0), acts, GoodCtrl);
  }

  /** A reply struct comes through the RPC as it was written. */
  lemma ReplyArrives(reply: RCReply)
    ensures ResultOf(Some(DumpReply(reply))) == IoOk(DumpReply(reply))
    ensures ParseReply(DumpReply(reply)) == Some(reply)
  {
    ReplyStructRoundTrip(reply, []);
    assert DumpReply(reply) + [] == DumpReply(reply);
  }

  /** A reply that reads as an RCReply comes from a registry handler, and reads as it was meant. */
  lemma ParsedReplyIs(id: Byte, s: Ctrl, p: seq<Byte>, reply: RCReply)
    requires id in Handlers() && id != HEART_BEAT
    requires var answer := Handlers()[id](s, p).1;
             ResultOf(answer).IoOk? && ParseReply(ResultOf(answer).value) == Some(reply)
    ensures var r := ParseRequest(id, s, p);
            r.Some? && Handle(s.store, s.nics, r.value).1 == Some(reply)
  {
    var r := ParseRequest(id, s, p);
    if r.Some? {
      RegistryHandler(id, s, p);
      var sent := Handle(s.store, s.nics, r.value).1;
      assert sent.Some?;
      ReplyArrives(sent.value);
    } else {
      OtherHandler(id, s, p);
    }
  }

  /** Acceptance `k` of client `a` holds a reply that reads as `reply`. */
  predicate AcceptedReply<S>(w: World<S>, a: Addr, k: nat, reply: RCReply) {
    && a in w.clients && k < |w.clients[a].accepted|
    && w.clients[a].accepted[k].result.IoOk?
    && ParseReply(w.clients[a].accepted[k].result.value) == Some(reply)
  }

  lemma ExecutionsAreGood(addrs: set<Addr>, s0: Ctrl, acts: seq<Action>, e: Execution<Ctrl>)
    requires GoodCtrl(s0) && e in Run(Handlers(), Init(addrs, s0), acts).executions
    ensures GoodCall(Run(Handlers(), Init(addrs, s0), acts).calls, e.call) && GoodCtrl(e.pre)
  {
    HandlersKeepRegistry();
    HandlersInvariant(Handlers(), Init(addrs, s0), acts, GoodCtrl);
    RunKeepsInv(Handlers(), Init(addrs, s0), acts);
    assert GoodExecution(Handlers(), Run(Handlers(), Init(addrs, s0), acts).calls, e);
  }

  /** An accepted reply is the registry's answer to a request that this client sent for it. */
  lemma AcceptedReplyIs(addrs: set<Addr>, s0: Ctrl, acts: seq<Action>, a: Addr, k: nat, reply: RCReply)
      returns (e: Execution<Ctrl>)
    requires GoodCtrl(s0) && k < U64_RANGE - 1
    requires AcceptedReply(Run(Handlers(), Init(addrs, s0), acts), a, k, reply)
    ensures var w := Run(Handlers(), Init(addrs, s0), acts);
            && e in w.executions && w.clients[a].accepted[k].cause == Some(e.call)
            && GoodCall(w.calls, e.call) && e.call.client == a && e.call.checksum == k + 1
            && e.call.id != HEART_BEAT && GoodCtrl(e.pre)
            && var r := ParseRequest(e.call.id, e.pre, e.call.parameter);
               r.Some? && Handle(e.pre.store, e.pre.nics, r.value).1 == Some(reply)
  {
    HandlersKeepRegistry();
    e := AcceptedRepliesAreAnswers(Handlers(), addrs, s0, acts, a, k);
    ExecutionsAreGood(addrs, s0, acts, e);
    ParsedReplyIs(e.call.id, e.pre, e.call.parameter, reply);
  }

  /**
   * A client that accepts a reply with a key sent the create request that put a queue pair
   * into the registry under that key, connected: no lost, repeated or late datagram, and no
   * other client's request, can make it believe so.
   */
  lemma AcceptedKeyMeansInserted(addrs: set<Addr>, s0: Ctrl, acts: seq<Action>, a: Addr, k: nat, reply: RCReply)
      returns (e: Execution<Ctrl>, name: Name)
    requires GoodCtrl(s0) && k < U64_RANGE - 1 && reply.key != 0
    requires AcceptedReply(Run(Handlers(), Init(addrs, s0), acts), a, k, reply)
    ensures var w := Run(Handlers(), Init(addrs, s0), acts);
            && e in w.executions && e.call.client == a && e.call.checksum == k + 1
            && e.call.id in {CREATE_RC, CREATE_RCM}
            && var r := ParseRequest(e.call.id, e.pre, e.call.parameter).value;
               && Inserts(e.pre.store, e.pre.nics, r, name, reply.key)
               && Handle(e.pre.store, e.pre.nics, r).0[name].state == RTS
  {
    e := AcceptedReplyIs(addrs, s0, acts, a, k, reply);
    name := KeyIsInserted(e.call.id, e.pre, e.call.parameter, reply);
  }

  lemma KeyIsInserted(id: Byte, s: Ctrl, p: seq<Byte>, reply: RCReply) returns (name: Name)
    requires GoodCtrl(s) && reply.key != 0 && ParseRequest(id, s, p).Some?
    requires Handle(s.store, s.nics, ParseRequest(id, s, p).value).1 == Some(reply)
    ensures id in {CREATE_RC, CREATE_RCM}
    ensures var r := ParseRequest(id, s, p).value;
            && Inserts(s.store, s.nics, r, name, reply.key)
            && Handle(s.store, s.nics, r).0[name].state == RTS
  {
    var r := ParseRequest(id, s, p).value;
    ReplyKeyIffInserts(s.store, s.nics, r, reply.key);
    name :| Inserts(s.store, s.nics, r, name, reply.key);
    InsertsMeansCreate(s.store, s.nics, r, name, reply.key);
    HandleKeepsGood(s.store, s.nics, r);
  }

  lemma InsertsMeansCreate(store: Store, nics: set<U64>, r: Registry.Request, name: Name, key: U64)
    requires Inserts(store, nics, r, name, key)
    ensures Asks(r)
  {
  }

  lemma HandleKeepsGood(store: Store, nics: set<U64>, r: Registry.Request)
    requires GoodStore(store)
    ensures GoodStore(Handle(store, nics, r).0)
  {
    assert HandleAll(store, nics, [r]) == HandleAll(Handle(store, nics, r).0, nics, []);
    RegisteredReachedRTS(store, nics, [r]);
  }
}
