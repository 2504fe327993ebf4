/**
 * What the client's create call can tell its caller about the registry, over every run of the
 * protocol: exactly when its report says whether the request inserted a queue pair, and
 * exactly when the key it returns is that queue pair's.
 */
module CreateTruthfulness {
  import opened Bytes
  import opened ConnectManagers
  import opened ControlPlane
  import opened Proto
  import opened Registry
  import opened RpcSafety
  import opened SRpcSpec
  import opened Truthfulness
  import opened Wrappers

  /** A create request as cc_rc sends it. */
  predicate Sendable(c: RCReq, config: seq<Byte>) {
    |c.name| <= MAX_NAME_LEN && 0 !in c.name && |config| == 40 && c.whetherCreate == 1
  }

  // ---- what the answer to a sole create means ----

  /**
   * With no other call outstanding, an accepted Ok to a create means that the execution it
   * answers inserted the queue pair under the key in the reply, and any other reply that it
   * inserted none: arguments or driver failed, or the name was taken, possibly by an earlier
   * execution of the same request.
   */
  lemma SoleCreateReport(
      addrs: set<Addr>, s0: Ctrl, acts: seq<Action>, a: Addr, k: nat, c: RCReq, config: seq<Byte>, attr: QPAttr)
      returns (e: Execution<Ctrl>)
    requires Sendable(c, config) && k < U64_RANGE - 1
    requires var w := Run(Handlers(), Init(addrs, s0), acts);
             && a in w.clients && k < |w.clients[a].accepted|
             && OnlyCall(w, a, k, CREATE_RC, DumpCreate(c, config, attr))
    ensures var w := Run(Handlers(), Init(addrs, s0), acts);
            var reply := ReplyOf(w.clients[a].accepted[k].result);
            && e in w.executions && e.call == Call(a, k + 1, CREATE_RC, DumpCreate(c, config, attr))
            && (WillInsert(e.pre, c) <==> reply == Some(RCReply(ST_OK, NextEnv(e.pre).attr, NextEnv(e.pre).key)))
            && (!WillInsert(e.pre, c) <==> reply.None? || reply == Some(WRONG_ARG))
  {
    HandlersKeepRegistry();
    e := AcceptedRepliesAreAnswers(Handlers(), addrs, s0, acts, a, k);
    CreateServed(e.pre, c, config, attr);
    ReplyArrives(RCReply(ST_OK, NextEnv(e.pre).attr, NextEnv(e.pre).key));
    ReplyArrives(WRONG_ARG);
  }

  /** The client is told that its create failed, and its queue pair stays under a key it never sees. */
  lemma DuplicateCreateLeavesEntry(s0: Ctrl, c: RCReq, config: seq<Byte>, attr: QPAttr) returns (acts: seq<Action>)
    requires Sendable(c, config) && WillInsert(s0, c)
    ensures var w := Run(Handlers(), Init({0}, s0), acts);
            && w.calls == [Call(0, 1, CREATE_RC, DumpCreate(c, config, attr))]
            && 0 in w.clients && |w.clients[0].accepted| == 1
            && (ReplyOf(w.clients[0].accepted[0].result).None?
                || ReplyOf(w.clients[0].accepted[0].result) == Some(WRONG_ARG))
            && Inserted(w, 0, 0, c, NextEnv(s0).key)
            && HasEntry(w.server, DelReq(c.name, NextEnv(s0).key))
  {
    var p := DumpCreate(c, config, attr);
    var result := SecondCreateRefused(s0, c, config, attr);
    acts := TwiceRun(s0, CREATE_RC, p, result);
    FirstInserted(Run(Handlers(), Init({0}, s0), acts), c, config, attr);
  }

  lemma SecondCreateRefused(s0: Ctrl, c: RCReq, config: seq<Byte>, attr: QPAttr) returns (result: IoResult)
    requires Sendable(c, config) && WillInsert(s0, c)
    ensures CREATE_RC in Handlers()
    ensures var p := DumpCreate(c, config, attr);
            var s1 := Handlers()[CREATE_RC](s0, p).0;
            var (s2, answer) := Handlers()[CREATE_RC](s1, p);
            result == ResultOf(answer) && HasEntry(s2, DelReq(c.name, NextEnv(s0).key))
    ensures ReplyOf(result).None? || ReplyOf(result) == Some(WRONG_ARG)
  {
    var p := DumpCreate(c, config, attr);
    CreateServed(s0, c, config, attr);
    var s1 := Handlers()[CREATE_RC](s0, p).0;
    CreateServed(s1, c, config, attr);
    result := RefusedResult(Handlers()[CREATE_RC](s1, p).1);
  }

  lemma RefusedResult(answer: Option<seq<Byte>>) returns (result: IoResult)
    requires answer.None? || answer == Some(DumpReply(WRONG_ARG))
    ensures result == ResultOf(answer)
    ensures ReplyOf(result).None? || ReplyOf(result) == Some(WRONG_ARG)
  {
    ReplyArrives(WRONG_ARG);
    result := ResultOf(answer);
  }

  lemma FirstInserted(w: World<Ctrl>, c: RCReq, config: seq<Byte>, attr: QPAttr)
    requires Sendable(c, config)
    requires w.executions != [] && w.executions[0].call == Call(0, 1, CREATE_RC, DumpCreate(c, config, attr))
    requires WillInsert(w.executions[0].pre, c)
    ensures Inserted(w, 0, 0, c, NextEnv(w.executions[0].pre).key)
  {
    CreateRoundTrip(c, config, attr);
    assert w.executions[0] in w.executions && IsCreate(w.executions[0].call, 0, 0, c);
  }

  // ---- what the client's request did ----

  /** A call of the client under its checksum number `k` asks for the create `c`. */
  predicate IsCreate(x: Call, a: Addr, k: nat, c: RCReq) {
    x.client == a && x.checksum == k + 1 && x.id == CREATE_RC && ParseCreate(x.parameter) == Some(c)
  }

  /** The daemon executed this client's create so that it put a queue pair there under `key`. */
  ghost predicate Inserted(w: World<Ctrl>, a: Addr, k: nat, c: RCReq, key: U64) {
    exists e :: e in w.executions && IsCreate(e.call, a, k, c) && WillInsert(e.pre, c) && NextEnv(e.pre).key == key
  }

  ghost predicate InsertedSome(w: World<Ctrl>, a: Addr, k: nat, c: RCReq) {
    exists key :: Inserted(w, a, k, c, key)
  }

  /** With no other call outstanding, Ok and error of a create say whether it inserted a queue pair. */
  ghost predicate CreateReportTells(c: RCReq, config: seq<Byte>, attr: QPAttr, once: bool)
    requires Sendable(c, config)
  {
    forall addrs, s0, acts, a, k: nat ::
      SoleSituation(addrs, s0, acts, a, k, CREATE_RC, DumpCreate(c, config, attr), once) ==>
      var w := Run(Handlers(), Init(addrs, s0), acts);
      (SaysOk(w.clients[a].accepted[k].result) <==> InsertedSome(w, a, k, c))
  }

  lemma OnceCreateTells(
      addrs: set<Addr>, s0: Ctrl, acts: seq<Action>, a: Addr, k: nat, c: RCReq, config: seq<Byte>, attr: QPAttr)
    requires Sendable(c, config)
    requires SoleSituation(addrs, s0, acts, a, k, CREATE_RC, DumpCreate(c, config, attr), true)
    ensures var w := Run(Handlers(), Init(addrs, s0), acts);
            SaysOk(w.clients[a].accepted[k].result) <==> InsertedSome(w, a, k, c)
  {
    var w, p := Run(Handlers(), Init(addrs, s0), acts), DumpCreate(c, config, attr);
    var e := SoleCreateReport(addrs, s0, acts, a, k, c, config, attr);
    CreateRoundTrip(c, config, attr);
    if WillInsert(e.pre, c) {
      assert Inserted(w, a, k, c, NextEnv(e.pre).key);
    }
    if InsertedSome(w, a, k, c) {
      var key :| Inserted(w, a, k, c, key);
      var f :| f in w.executions && IsCreate(f.call, a, k, c) && WillInsert(f.pre, c);
      SoleExecution(addrs, s0, acts, a, k, CREATE_RC, p, f);
      OnlyOne(w, Call(a, k + 1, CREATE_RC, p), e, f);
    }
  }

  /** One run in which the report and the insertion differ. */
  lemma UntoldCreate(c: RCReq, config: seq<Byte>, attr: QPAttr, s0: Ctrl, acts: seq<Action>, key: U64)
    requires Sendable(c, config)
    requires SoleSituation({0}, s0, acts, 0, 0, CREATE_RC, DumpCreate(c, config, attr), false)
    requires var w := Run(Handlers(), Init({0}, s0), acts);
             !SaysOk(w.clients[0].accepted[0].result) && Inserted(w, 0, 0, c, key)
    ensures !CreateReportTells(c, config, attr, false)
  {
    assert InsertedSome(Run(Handlers(), Init({0}, s0), acts), 0, 0, c);
  }

  lemma TwiceCreateMisleads(c: RCReq, config: seq<Byte>, attr: QPAttr, s0: Ctrl)
    requires Sendable(c, config) && GoodCtrl(s0) && WillInsert(s0, c)
    ensures !CreateReportTells(c, config, attr, false)
  {
    var acts := DuplicateCreateLeavesEntry(s0, c, config, attr);
    SoleInRun(s0, acts, CREATE_RC, DumpCreate(c, config, attr));
    UntoldCreate(c, config, attr, s0, acts, NextEnv(s0).key);
  }

  /**
   * The report of a create with no other call outstanding says, in every run, whether the
   * client's request inserted a queue pair, exactly if the request is executed at most once.
   */
  lemma CreateReportTellsIff(c: RCReq, config: seq<Byte>, attr: QPAttr, once: bool)
    requires Sendable(c, config)
    ensures CreateReportTells(c, config, attr, once) <==> once
  {
    if once {
      forall addrs, s0, acts, a, k: nat |
        SoleSituation(addrs, s0, acts, a, k, CREATE_RC, DumpCreate(c, config, attr), once)
        ensures var w := Run(Handlers(), Init(addrs, s0), acts);
                SaysOk(w.clients[a].accepted[k].result) <==> InsertedSome(w, a, k, c)
      {
        OnceCreateTells(addrs, s0, acts, a, k, c, config, attr);
      }
    } else {
      TwiceCreateMisleads(c, config, attr, Ctrl(map[], {c.nicId}, [ALL_WELL], []));
    }
  }

  // ---- with other calls outstanding: whose key is it? ----

  type Others = set<(Byte, seq<Byte>)>

  /** Under its checksum number `k` the client sent the create, and otherwise only `others`. */
  ghost predicate SentCreate(w: World<Ctrl>, a: Addr, k: nat, c: RCReq, others: Others) {
    && (exists x :: x in w.calls && IsCreate(x, a, k, c))
    && forall x :: x in w.calls && x.client == a && x.checksum == k + 1 && x.id != HEART_BEAT ==>
         IsCreate(x, a, k, c) || (x.id, x.parameter) in others
  }

  /** cc_rc succeeds, on an accepted reply with a key (`keyed`) or with key zero. */
  predicate ReportsKey(w: World<Ctrl>, a: Addr, k: nat, keyed: bool) {
    && a in w.clients && k < |w.clients[a].accepted| && SaysOk(w.clients[a].accepted[k].result)
    && (keyed <==> ReplyOf(w.clients[a].accepted[k].result).value.key != 0)
  }

  ghost predicate CreateSituation(
      addrs: set<Addr>, s0: Ctrl, acts: seq<Action>, a: Addr, k: nat, c: RCReq, others: Others, keyed: bool)
  {
    var w := Run(Handlers(), Init(addrs, s0), acts);
    GoodCtrl(s0) && k < U64_RANGE - 1 && SentCreate(w, a, k, c, others) && ReportsKey(w, a, k, keyed)
  }

  /** Whatever the network and other clients did, the key is that of the queue pair this create made. */
  ghost predicate KeyAlwaysOwn(c: RCReq, others: Others, keyed: bool) {
    forall addrs, s0, acts, a, k: nat :: CreateSituation(addrs, s0, acts, a, k, c, others, keyed) ==>
      var w := Run(Handlers(), Init(addrs, s0), acts);
      Inserted(w, a, k, c, ReplyOf(w.clients[a].accepted[k].result).value.key)
  }

  /**
   * A request whose Ok cc_rc may take for its own: with a key only another create has one;
   * with key zero a query, or a delete that may succeed.
   */
  predicate Passes(c: RCReq, y: (Byte, seq<Byte>), keyed: bool) {
    var (id, p) := y;
    && |p| <= 4054
    && if keyed then
         && id in {CREATE_RC, CREATE_RCM} && ParseCreate(p).Some? && ParseCreate(p).value.whetherCreate == 1
         && (id == CREATE_RC ==> ParseCreate(p).value != c)
       else
         || (id in {CREATE_RC, CREATE_RCM} && ParseCreate(p).Some? && ParseCreate(p).value.whetherCreate >= 2)
         || (id == FETCH_QP_ATTR && ParseFetch(p).Some?)
         || (id == DELETE_RC && ParseDelete(p).Some? && ParseDelete(p).value.key != 0)
  }

  /** The same in terms of what the request asks for. */
  predicate Luring(r: Registry.Request, keyed: bool) {
    match r
    case Create(req, _) => req.Some? && if keyed then req.value.whetherCreate == 1 else req.value.whetherCreate >= 2
    case CreateMsg(req, _) => req.Some? && if keyed then req.value.whetherCreate == 1 else req.value.whetherCreate >= 2
    case Delete(req) => !keyed && req.Some? && req.value.key != 0
    case Fetch(name) => !keyed && name.Some?
  }

  /** An Ok is the answer to a luring request only. */
  lemma OkIsLuring(store: Store, nics: set<U64>, r: Registry.Request)
    requires GoodStore(store)
    requires var reply := Handle(store, nics, r).1; reply.Some? && reply.value.status == ST_OK
    ensures Luring(r, Handle(store, nics, r).1.value.key != 0)
  {
    if Asks(r) {
      CreateCases(store, nics, r.create, r.env);
    }
  }

  lemma LuringPasses(c: RCReq, id: Byte, s: Ctrl, p: seq<Byte>, keyed: bool)
    requires |p| <= 4054 && ParseRequest(id, s, p).Some? && Luring(ParseRequest(id, s, p).value, keyed)
    requires c.whetherCreate == 1
    ensures Passes(c, (id, p), keyed) || (keyed && id == CREATE_RC && ParseCreate(p) == Some(c))
    ensures id == CREATE_RC && ParseCreate(p) == Some(c) ==> keyed
  {
  }

  lemma OwnOkInserted(s: Ctrl, p: seq<Byte>, c: RCReq, reply: RCReply)
    requires ParseCreate(p) == Some(c) && c.whetherCreate == 1 && reply.status == ST_OK
    requires Handle(s.store, s.nics, ParseRequest(CREATE_RC, s, p).value).1 == Some(reply)
    ensures WillInsert(s, c) && NextEnv(s).key == reply.key
  {
    CreateAnswer(s, c);
  }

  lemma NoOtherPasses(
      addrs: set<Addr>, s0: Ctrl, acts: seq<Action>, a: Addr, k: nat, c: RCReq, others: Others, keyed: bool)
    requires CreateSituation(addrs, s0, acts, a, k, c, others, keyed) && c.whetherCreate == 1
    requires forall y :: y in others ==> !Passes(c, y, keyed)
    ensures var w := Run(Handlers(), Init(addrs, s0), acts);
            Inserted(w, a, k, c, ReplyOf(w.clients[a].accepted[k].result).value.key)
  {
    var w := Run(Handlers(), Init(addrs, s0), acts);
    var reply := ReplyOf(w.clients[a].accepted[k].result).value;
    var e := AcceptedReplyIs(addrs, s0, acts, a, k, reply);
    OkIsLuring(e.pre.store, e.pre.nics, ParseRequest(e.call.id, e.pre, e.call.parameter).value);
    LuringPasses(c, e.call.id, e.pre, e.call.parameter, keyed);
    assert IsCreate(e.call, a, k, c);
    OwnOkInserted(e.pre, e.call.parameter, c, reply);
  }

  // ---- one that passes ----

  /** A state in which the request is answered with Ok. */
  function LureState(y: (Byte, seq<Byte>), keyed: bool): Ctrl {
    match ParseRequest(y.0, Ctrl(map[], {}, [ALL_WELL], []), y.1)
    case Some(Create(Some(c), _)) => CreatingState(c, keyed)
    case Some(CreateMsg(Some(c), _)) => CreatingState(c, keyed)
    case Some(Delete(Some(d))) => Ctrl(map[d.name := Entry(NO_ATTR, RTS, d.key)], {}, [ALL_WELL], [])
    case Some(Fetch(Some(name))) => Ctrl(map[name := Entry(NO_ATTR, RTS, 1)], {}, [ALL_WELL], [])
    case _ => Ctrl(map[], {}, [ALL_WELL], [])
  }

  /** The NIC is there; the name is, too, if it is to be queried only. */
  function CreatingState(c: RCReq, keyed: bool): Ctrl {
    Ctrl(if keyed then map[] else map[c.name := Entry(NO_ATTR, RTS, 1)], {c.nicId}, [ALL_WELL], [])
  }

  /** What the state of a luring request holds. */
  predicate Lured(r: Registry.Request, store: Store, nics: set<U64>, keyed: bool) {
    match r
    case Create(req, env) => req.Some? && env == ALL_WELL && LuredCreate(req.value, store, nics, keyed)
    case CreateMsg(req, env) => req.Some? && env == ALL_WELL && LuredCreate(req.value, store, nics, keyed)
    case Delete(req) => req.Some? && store == map[req.value.name := Entry(NO_ATTR, RTS, req.value.key)]
    case Fetch(name) => name.Some? && store == map[name.value := Entry(NO_ATTR, RTS, 1)]
  }

  predicate LuredCreate(c: RCReq, store: Store, nics: set<U64>, keyed: bool) {
    nics == {c.nicId} && store == if keyed then map[] else map[c.name := Entry(NO_ATTR, RTS, 1)]
  }

  lemma PassingIsLured(c: RCReq, y: (Byte, seq<Byte>), keyed: bool)
    requires Passes(c, y, keyed)
    ensures var s := LureState(y, keyed);
            var r := ParseRequest(y.0, s, y.1);
            r.Some? && Luring(r.value, keyed) && Lured(r.value, s.store, s.nics, keyed)
  {
  }

  lemma LuredIsAnswered(r: Registry.Request, store: Store, nics: set<U64>, keyed: bool)
    requires Luring(r, keyed) && Lured(r, store, nics, keyed)
    ensures GoodStore(store)
    ensures var reply := Handle(store, nics, r).1;
            reply.Some? && reply.value.status == ST_OK && (keyed <==> reply.value.key != 0)
  {
  }

  lemma PassingIsAnswered(c: RCReq, y: (Byte, seq<Byte>), keyed: bool) returns (result: IoResult)
    requires Passes(c, y, keyed)
    ensures GoodCtrl(LureState(y, keyed)) && y.0 in Handlers() && y.0 != HEART_BEAT
    ensures result == ResultOf(Handlers()[y.0](LureState(y, keyed), y.1).1)
    ensures SaysOk(result) && (keyed <==> ReplyOf(result).value.key != 0)
  {
    var s := LureState(y, keyed);
    PassingIsLured(c, y, keyed);
    var r := ParseRequest(y.0, s, y.1).value;
    LuredIsAnswered(r, s.store, s.nics, keyed);
    var reply := Handle(s.store, s.nics, r).1.value;
    RegistryHandler(y.0, s, y.1);
    ReplyArrives(reply);
    result := ResultOf(Some(DumpReply(reply)));
  }

  /** The create's request is lost, and the late Ok to the other request is accepted. */
  lemma PassingRun(c: RCReq, y: (Byte, seq<Byte>), others: Others, keyed: bool) returns (acts: seq<Action>)
    requires Sendable(c, Zeros(40)) && Passes(c, y, keyed) && y in others
    ensures CreateSituation({0}, LureState(y, keyed), acts, 0, 0, c, others, keyed)
    ensures forall key :: !Inserted(Run(Handlers(), Init({0}, LureState(y, keyed)), acts), 0, 0, c, key)
  {
    var s, p := LureState(y, keyed), DumpCreate(c, Zeros(40), NO_ATTR);
    var result := PassingIsAnswered(c, y, keyed);
    acts := LateRun(s, y.0, y.1, CREATE_RC, p, result);
    OnlyPassingExecuted(Run(Handlers(), Init({0}, s), acts), c, y, others, keyed);
  }

  lemma OnlyPassingExecuted(w: World<Ctrl>, c: RCReq, y: (Byte, seq<Byte>), others: Others, keyed: bool)
    requires Sendable(c, Zeros(40)) && Passes(c, y, keyed) && y in others
    requires w.calls == [Call(0, 1, y.0, y.1), Call(0, 1, CREATE_RC, DumpCreate(c, Zeros(40), NO_ATTR))]
    requires forall e :: e in w.executions ==> e.call == Call(0, 1, y.0, y.1)
    ensures SentCreate(w, 0, 0, c, others)
    ensures forall key :: !Inserted(w, 0, 0, c, key)
  {
    CreateRoundTrip(c, Zeros(40), NO_ATTR);
    assert IsCreate(w.calls[1], 0, 0, c);
  }

  lemma KeyOwnUnlessPassed(c: RCReq, others: Others, keyed: bool)
    requires c.whetherCreate == 1 && forall y :: y in others ==> !Passes(c, y, keyed)
    ensures KeyAlwaysOwn(c, others, keyed)
  {
    forall addrs, s0, acts, a, k: nat | CreateSituation(addrs, s0, acts, a, k, c, others, keyed)
      ensures var w := Run(Handlers(), Init(addrs, s0), acts);
              Inserted(w, a, k, c, ReplyOf(w.clients[a].accepted[k].result).value.key)
    {
      NoOtherPasses(addrs, s0, acts, a, k, c, others, keyed);
    }
  }

  lemma KeyOwnHere(
      addrs: set<Addr>, s0: Ctrl, acts: seq<Action>, a: Addr, k: nat, c: RCReq, others: Others, keyed: bool)
    requires KeyAlwaysOwn(c, others, keyed) && CreateSituation(addrs, s0, acts, a, k, c, others, keyed)
    ensures exists key :: Inserted(Run(Handlers(), Init(addrs, s0), acts), a, k, c, key)
  {
  }

  lemma PassingMisleads(c: RCReq, y: (Byte, seq<Byte>), others: Others, keyed: bool)
    requires Sendable(c, Zeros(40)) && Passes(c, y, keyed) && y in others
    ensures !KeyAlwaysOwn(c, others, keyed)
  {
    var acts := PassingRun(c, y, others, keyed);
    if KeyAlwaysOwn(c, others, keyed) {
      KeyOwnHere({0}, LureState(y, keyed), acts, 0, 0, c, others, keyed);
      assert false;
    }
  }

  /**
   * The key that cc_rc returns belongs, in every run, to the queue pair that this create made
   * exactly if no other request that the client sent under the same checksum can be answered
   * Ok with such a key. A caller that gets a nonzero key has only its other creates to fear.
   */
  lemma KeyAlwaysOwnIff(c: RCReq, others: Others, keyed: bool)
    requires |c.name| <= MAX_NAME_LEN && 0 !in c.name && c.whetherCreate == 1
    ensures KeyAlwaysOwn(c, others, keyed) <==> forall y :: y in others ==> !Passes(c, y, keyed)
  {
    if y :| y in others && Passes(c, y, keyed) {
      PassingMisleads(c, y, others, keyed);
    } else {
      KeyOwnUnlessPassed(c, others, keyed);
    }
  }
}
