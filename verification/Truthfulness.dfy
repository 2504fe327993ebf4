/**
 * What the client's delete call can tell its caller about the registry, over every run of the
 * protocol: exactly when a reported success means a removal, exactly when an error means that
 * there was none, and the runs in which a report misleads.
 */
module Truthfulness {
  import opened Bytes
  import opened ConnectManagers
  import opened ControlPlane
  import opened Proto
  import opened Registry
  import opened RpcSafety
  import opened SRpcSpec
  import opened Wrappers

  /** The call number `k` of client `a` asks for the delete `req`. */
  predicate IsDelete(c: Call, a: Addr, k: nat, req: DelReq) {
    c.client == a && c.checksum == k + 1 && c.id == DELETE_RC && ParseDelete(c.parameter) == Some(req)
  }

  predicate HasEntry(s: Ctrl, req: DelReq) {
    req.name in s.store && s.store[req.name].key == req.key
  }

  /** The daemon executed this client's delete when the entry was there, and so removed it. */
  ghost predicate Removed(w: World<Ctrl>, a: Addr, k: nat, req: DelReq) {
    exists e :: e in w.executions && IsDelete(e.call, a, k, req) && HasEntry(e.pre, req)
  }

  /** Under its checksum number `k` the client sent the delete, and otherwise only `others`. */
  ghost predicate Sent(w: World<Ctrl>, a: Addr, k: nat, req: DelReq, others: set<(Byte, seq<Byte>)>) {
    && (exists c :: c in w.calls && IsDelete(c, a, k, req))
    && forall c :: c in w.calls && c.client == a && c.checksum == k + 1 && c.id != HEART_BEAT ==>
         IsDelete(c, a, k, req) || (c.id, c.parameter) in others
  }

  /**
   * delete_remote_rc reports success: on an accepted reply that parses (`replied`), or on
   * anything else, such as a timeout.
   */
  predicate ReportsDone(w: World<Ctrl>, a: Addr, k: nat, replied: bool) {
    && a in w.clients
    && var accepted := w.clients[a].accepted;
       if k < |accepted| then
         DeleteResult(accepted[k].result).Done? && replied == ReplyOf(accepted[k].result).Some?
       else
         k == |accepted| && DeleteResult(IoTimeout).Done? && !replied
  }

  ghost predicate Situation(
      addrs: set<Addr>, s0: Ctrl, acts: seq<Action>, a: Addr, k: nat,
      req: DelReq, others: set<(Byte, seq<Byte>)>, replied: bool)
  {
    var w := Run(Handlers(), Init(addrs, s0), acts);
    GoodCtrl(s0) && k < U64_RANGE - 1 && Sent(w, a, k, req, others) && ReportsDone(w, a, k, replied)
  }

  /** Whatever the network and other clients did, the reported success means a removal. */
  ghost predicate AlwaysTruthful(req: DelReq, others: set<(Byte, seq<Byte>)>, replied: bool) {
    forall addrs, s0, acts, a, k :: Situation(addrs, s0, acts, a, k, req, others, replied) ==>
      Removed(Run(Handlers(), Init(addrs, s0), acts), a, k, req)
  }

  /**
   * A request whose reply a client may take for the success of the delete `req`: a create or
   * query that is not refused outright, or a delete of something else.
   */
  predicate Misleading(req: DelReq, y: (Byte, seq<Byte>)) {
    var (id, p) := y;
    && |p| <= 4054
    && (|| (id in {CREATE_RC, CREATE_RCM} && ParseCreate(p).Some? && ParseCreate(p).value.whetherCreate != 0)
        || (id == FETCH_QP_ATTR && ParseFetch(p).Some?)
        || (id == DELETE_RC && ParseDelete(p).Some? && ParseDelete(p).value != req && ParseDelete(p).value.key != 0))
  }

  // ---- no other request misleads: then success means removal ----

  /** A harmless request is refused in every good state. */
  lemma HarmlessIsRefused(req: DelReq, id: Byte, p: seq<Byte>, s: Ctrl)
    requires GoodCtrl(s) && |p| <= 4054 && !Misleading(req, (id, p))
    requires id == DELETE_RC ==> ParseDelete(p) != Some(req)
    requires var r := ParseRequest(id, s, p); r.Some? && Handle(s.store, s.nics, r.value).1.Some?
    ensures Handle(s.store, s.nics, ParseRequest(id, s, p).value).1 == Some(WRONG_ARG)
  {
  }

  lemma HarmlessIsTruthful(
      addrs: set<Addr>, s0: Ctrl, acts: seq<Action>, a: Addr, k: nat, req: DelReq, others: set<(Byte, seq<Byte>)>)
    requires Situation(addrs, s0, acts, a, k, req, others, true)
    requires forall y :: y in others ==> !Misleading(req, y)
    ensures Removed(Run(Handlers(), Init(addrs, s0), acts), a, k, req)
  {
    var w := Run(Handlers(), Init(addrs, s0), acts);
    var reply := ReplyOf(w.clients[a].accepted[k].result).value;
    var e := AcceptedReplyIs(addrs, s0, acts, a, k, reply);
    if !IsDelete(e.call, a, k, req) {
      assert (e.call.id, e.call.parameter) in others;
      HarmlessIsRefused(req, e.call.id, e.call.parameter, e.pre);
      assert false;
    }
  }

  // ---- one that misleads ----

  const ALL_WELL := Env(true, true, true, true, NO_ATTR, 1, true)

  /** A state in which the misleading request is answered, and not with a refusal. */
  function MisledState(y: (Byte, seq<Byte>)): Ctrl {
    match ParseRequest(y.0, Ctrl(map[], {}, [ALL_WELL], []), y.1)
    case Some(Create(Some(c), _)) => Ctrl(map[], {c.nicId}, [ALL_WELL], [])
    case Some(CreateMsg(Some(c), _)) => Ctrl(map[], {c.nicId}, [ALL_WELL], [])
    case Some(Delete(Some(d))) => Ctrl(map[d.name := Entry(NO_ATTR, RTS, d.key)], {}, [ALL_WELL], [])
    case _ => Ctrl(map[], {}, [ALL_WELL], [])
  }

  /** What the misleading request asks for: all that its answer depends on. */
  predicate Tempting(r: Registry.Request) {
    match r
    case Create(req, env) => req.Some? && req.value.whetherCreate != 0 && env == ALL_WELL
    case CreateMsg(req, env) => req.Some? && req.value.whetherCreate != 0 && env == ALL_WELL
    case Delete(req) => req.Some? && req.value.key != 0
    case Fetch(name) => name.Some?
  }

  lemma MisleadingIsTempting(req: DelReq, y: (Byte, seq<Byte>))
    requires Misleading(req, y)
    ensures var s := MisledState(y);
            var r := ParseRequest(y.0, s, y.1);
            && r.Some? && Tempting(r.value) && s.envs == [ALL_WELL]
            && s.nics == (if Asks(r.value) then {r.value.create.value.nicId} else {})
            && s.store == (if r.value.Delete? then map[r.value.delete.value.name :=
                             Entry(NO_ATTR, RTS, r.value.delete.value.key)] else map[])
  {
  }

  lemma TemptingIsAnswered(r: Registry.Request, store: Store, nics: set<U64>)
    requires Tempting(r)
    requires nics == if Asks(r) then {r.create.value.nicId} else {}
    requires store == if r.Delete? then map[r.delete.value.name := Entry(NO_ATTR, RTS, r.delete.value.key)] else map[]
    ensures GoodStore(store)
    ensures Handle(store, nics, r).1.Some? && Handle(store, nics, r).1.value.status in {ST_OK, ST_NOT_FOUND}
  {
  }

  lemma MisledReply(req: DelReq, y: (Byte, seq<Byte>)) returns (reply: RCReply)
    requires Misleading(req, y)
    ensures var s := MisledState(y);
            var r := ParseRequest(y.0, s, y.1);
            && GoodCtrl(s) && r.Some? && Respond(s, r.value).1 == Some(DumpReply(reply))
            && reply.status in {ST_OK, ST_NOT_FOUND}
  {
    var s := MisledState(y);
    MisleadingIsTempting(req, y);
    var r := ParseRequest(y.0, s, y.1).value;
    TemptingIsAnswered(r, s.store, s.nics);
    reply := Handle(s.store, s.nics, r).1.value;
  }

  lemma DoneByStatus(r: IoResult, reply: RCReply)
    requires ReplyOf(r) == Some(reply)
    ensures DeleteResult(r) == Done(()) <==> reply.status !in {ST_WRONG_ARG, ST_AUTH_ERR}
  {
  }

  lemma MisleadingIsAnswered(req: DelReq, y: (Byte, seq<Byte>)) returns (result: IoResult)
    requires Misleading(req, y)
    ensures GoodCtrl(MisledState(y)) && y.0 in Handlers() && y.0 != HEART_BEAT
    ensures result == ResultOf(Handlers()[y.0](MisledState(y), y.1).1)
    ensures ReplyOf(result).Some? && DeleteResult(result) == Done(())
  {
    var reply := MisledReply(req, y);
    RegistryHandler(y.0, MisledState(y), y.1);
    ReplyArrives(reply);
    result := ResultOf(Some(DumpReply(reply)));
    DoneByStatus(result, reply);
  }

  /** A first call whose reply is late, a second one that is lost, and the late reply accepted. */
  lemma LateRun(s0: Ctrl, id: Byte, p: seq<Byte>, id': Byte, p': seq<Byte>, result: IoResult)
      returns (acts: seq<Action>)
    requires id in Handlers() && id != HEART_BEAT && |p| <= 4054 && |p'| <= 4054
    requires result == ResultOf(Handlers()[id](s0, p).1)
    ensures var w := Run(Handlers(), Init({0}, s0), acts);
            && w.calls == [Call(0, 1, id, p), Call(0, 1, id', p')]
            && w.server == Handlers()[id](s0, p).0
            && (forall e :: e in w.executions ==> e.call == Call(0, 1, id, p) && e.pre == s0)
            && 0 in w.clients && |w.clients[0].accepted| == 1 && w.clients[0].accepted[0].result == result
  {
    HandlersKeepRegistry();
    acts := LateReplyRun(Handlers(), s0, 0, id, p, id', p');
  }

  /** The delete's request is lost, and the late reply to the misleading request is accepted. */
  lemma MisleadingRun(req: DelReq, y: (Byte, seq<Byte>), others: set<(Byte, seq<Byte>)>) returns (acts: seq<Action>)
    requires |req.name| <= MAX_NAME_LEN && 0 !in req.name
    requires Misleading(req, y) && y in others
    ensures Situation({0}, MisledState(y), acts, 0, 0, req, others, true)
    ensures !Removed(Run(Handlers(), Init({0}, MisledState(y)), acts), 0, 0, req)
  {
    var s := MisledState(y);
    var result := MisleadingIsAnswered(req, y);
    acts := LateRun(s, y.0, y.1, DELETE_RC, DumpDelete(req), result);
    OnlyOtherExecuted(Run(Handlers(), Init({0}, s), acts), req, y, others);
    FirstReported(Run(Handlers(), Init({0}, s), acts), result);
  }

  lemma FirstReported(w: World<Ctrl>, result: IoResult)
    requires 0 in w.clients && |w.clients[0].accepted| == 1 && w.clients[0].accepted[0].result == result
    ensures DeleteResult(result).Done? ==> ReportsDone(w, 0, 0, ReplyOf(result).Some?)
  {
  }

  lemma OnlyOtherExecuted(w: World<Ctrl>, req: DelReq, y: (Byte, seq<Byte>), others: set<(Byte, seq<Byte>)>)
    requires |req.name| <= MAX_NAME_LEN && 0 !in req.name
    requires Misleading(req, y) && y in others
    requires w.calls == [Call(0, 1, y.0, y.1), Call(0, 1, DELETE_RC, DumpDelete(req))]
    requires forall e :: e in w.executions ==> e.call == Call(0, 1, y.0, y.1)
    ensures Sent(w, 0, 0, req, others) && !Removed(w, 0, 0, req)
  {
    DeleteRoundTrip(req);
    assert IsDelete(w.calls[1], 0, 0, req);
  }

  /** Nothing was delivered yet: the timeout is reported as a success. */
  lemma TimeoutRun(req: DelReq, s0: Ctrl, others: set<(Byte, seq<Byte>)>)
    requires |req.name| <= MAX_NAME_LEN && 0 !in req.name && GoodCtrl(s0)
    ensures var acts := [DoCall(0, DELETE_RC, DumpDelete(req))];
            && Situation({0}, s0, acts, 0, 0, req, others, false)
            && !Removed(Run(Handlers(), Init({0}, s0), acts), 0, 0, req)
            && Run(Handlers(), Init({0}, s0), acts).server == s0
  {
    HandlersKeepRegistry();
    DeleteRoundTrip(req);
    OneCallOnly(Handlers(), s0, 0, DELETE_RC, DumpDelete(req));
    var w := Run(Handlers(), Init({0}, s0), [DoCall(0, DELETE_RC, DumpDelete(req))]);
    assert IsDelete(w.calls[0], 0, 0, req);
  }

  /**
   * The success that delete_remote_rc reports means, in every run, that the entry was removed
   * exactly if a reply came and no other request that the client sent under the same checksum
   * can be answered like a delete. The caller knows what else it sent, but not whether a reply
   * came: that is lost inside delete_remote_rc.
   */
  lemma DeleteTruthfulIff(req: DelReq, others: set<(Byte, seq<Byte>)>, replied: bool)
    requires |req.name| <= MAX_NAME_LEN && 0 !in req.name
    ensures AlwaysTruthful(req, others, replied) <==>
              replied && forall y :: y in others ==> !Misleading(req, y)
  {
    if replied && forall y :: y in others ==> !Misleading(req, y) {
      forall addrs, s0, acts, a, k | Situation(addrs, s0, acts, a, k, req, others, replied)
        ensures Removed(Run(Handlers(), Init(addrs, s0), acts), a, k, req)
      {
        HarmlessIsTruthful(addrs, s0, acts, a, k, req, others);
      }
    } else if !replied {
      TimeoutRun(req, Ctrl(map[], {}, [], []), others);
    } else {
      var y :| y in others && Misleading(req, y);
      var acts := MisleadingRun(req, y, others);
    }
  }

  /** A create that goes through in state `s`. */
  predicate WillInsert(s: Ctrl, c: RCReq) {
    var env := NextEnv(s);
    && c.whetherCreate == 1 && c.nicId in s.nics && c.name !in s.store
    && env.created && env.initOk && env.rtrOk && env.rtsOk
  }

  lemma CreateAnswer(s: Ctrl, c: RCReq)
    requires c.whetherCreate == 1
    ensures var (store, reply) := CreateSpec(s.store, s.nics, Some(c), NextEnv(s));
            if WillInsert(s, c) then
              && store == s.store[c.name := Entry(NextEnv(s).attr, RTS, NextEnv(s).key)]
              && reply == Some(RCReply(ST_OK, NextEnv(s).attr, NextEnv(s).key))
            else store == s.store && (reply.None? || reply == Some(WRONG_ARG))
  {
    CreateCases(s.store, s.nics, Some(c), NextEnv(s));
  }

  /** What a create request that the client sent does to the daemon, and what comes back. */
  lemma CreateServed(s: Ctrl, c: RCReq, config: seq<Byte>, attr: QPAttr)
    requires |c.name| <= MAX_NAME_LEN && 0 !in c.name && |config| == 40 && c.whetherCreate == 1
    ensures CREATE_RC in Handlers()
    ensures var (s', answer) := Handlers()[CREATE_RC](s, DumpCreate(c, config, attr));
            if WillInsert(s, c) then
              && s'.store == s.store[c.name := Entry(NextEnv(s).attr, RTS, NextEnv(s).key)]
              && answer == Some(DumpReply(RCReply(ST_OK, NextEnv(s).attr, NextEnv(s).key)))
            else s'.store == s.store && (answer.None? || answer == Some(DumpReply(WRONG_ARG)))
    ensures var s' := Handlers()[CREATE_RC](s, DumpCreate(c, config, attr)).0;
            s'.nics == s.nics && s'.envs == if s.envs == [] then [] else s.envs[1..]
  {
    CreateRoundTrip(c, config, attr);
    RegistryHandler(CREATE_RC, s, DumpCreate(c, config, attr));
    CreateAnswer(s, c);
  }

  lemma DeleteServed(s: Ctrl, req: DelReq)
    requires |req.name| <= MAX_NAME_LEN && 0 !in req.name
    ensures DELETE_RC in Handlers()
    ensures Handlers()[DELETE_RC](s, DumpDelete(req)) ==
            if HasEntry(s, req) then
              (s.(store := s.store - {req.name}), Some(DumpReply(RCReply(ST_OK, NO_ATTR, 0))))
            else (s, Some(DumpReply(WRONG_ARG)))
  {
    DeleteRoundTrip(req);
    RegistryHandler(DELETE_RC, s, DumpDelete(req));
  }

  /**
   * A create that times out, then a delete of another entry under the same checksum whose
   * request is lost: the create's late Ok is reported as the delete's success, and the entry
   * is still registered.
   */
  lemma LateCreateReplyMisleads(s0: Ctrl, c: RCReq, config: seq<Byte>, attr: QPAttr, req: DelReq)
      returns (acts: seq<Action>)
    requires |c.name| <= MAX_NAME_LEN && 0 !in c.name && |config| == 40
    requires |req.name| <= MAX_NAME_LEN && 0 !in req.name
    requires WillInsert(s0, c) && HasEntry(s0, req)
    ensures var w := Run(Handlers(), Init({0}, s0), acts);
            && w.calls == [Call(0, 1, CREATE_RC, DumpCreate(c, config, attr)), Call(0, 1, DELETE_RC, DumpDelete(req))]
            && ReportsDone(w, 0, 0, true) && HasEntry(w.server, req)
  {
    CreateServed(s0, c, config, attr);
    var reply := RCReply(ST_OK, NextEnv(s0).attr, NextEnv(s0).key);
    var result := ResultOf(Some(DumpReply(reply)));
    ReplyArrives(reply);
    DoneByStatus(result, reply);
    acts := LateRun(s0, CREATE_RC, DumpCreate(c, config, attr), DELETE_RC, DumpDelete(req), result);
    FirstReported(Run(Handlers(), Init({0}, s0), acts), result);
  }

  // ---- what the answer to a sole request means ----

  /** Every call of the client under its checksum number `k` is this one. */
  predicate OnlyCall(w: World<Ctrl>, a: Addr, k: nat, id: Byte, p: seq<Byte>) {
    forall c :: c in w.calls && c.client == a && c.checksum == k + 1 && c.id != HEART_BEAT ==>
      c.id == id && c.parameter == p
  }

  /** What the client makes of the answer to its delete in state `s`. */
  lemma DeleteAnswer(s: Ctrl, req: DelReq) returns (result: IoResult)
    requires |req.name| <= MAX_NAME_LEN && 0 !in req.name
    ensures DELETE_RC in Handlers() && result == ResultOf(Handlers()[DELETE_RC](s, DumpDelete(req)).1)
    ensures ReplyOf(result).Some?
    ensures DeleteResult(result) == if HasEntry(s, req) then Done(()) else Error("wrong arg")
    ensures !HasEntry(Handlers()[DELETE_RC](s, DumpDelete(req)).0, req)
  {
    DeleteServed(s, req);
    var reply := if HasEntry(s, req) then RCReply(ST_OK, NO_ATTR, 0) else WRONG_ARG;
    ReplyArrives(reply);
    result := ResultOf(Some(DumpReply(reply)));
  }

  /**
   * With no other call outstanding, an accepted reply to a delete always parses. It reports
   * success exactly if the execution that it answers removed the entry, and "wrong arg"
   * exactly if that execution found no such entry: another execution of the same request may
   * have removed it before. Either way the entry is gone.
   */
  lemma SoleDeleteReport(addrs: set<Addr>, s0: Ctrl, acts: seq<Action>, a: Addr, k: nat, req: DelReq)
      returns (e: Execution<Ctrl>)
    requires |req.name| <= MAX_NAME_LEN && 0 !in req.name && k < U64_RANGE - 1
    requires var w := Run(Handlers(), Init(addrs, s0), acts);
             a in w.clients && k < |w.clients[a].accepted| && OnlyCall(w, a, k, DELETE_RC, DumpDelete(req))
    ensures var w := Run(Handlers(), Init(addrs, s0), acts);
            var result := w.clients[a].accepted[k].result;
            && e in w.executions && IsDelete(e.call, a, k, req) && ReplyOf(result).Some?
            && (DeleteResult(result) == Done(()) <==> HasEntry(e.pre, req))
            && (DeleteResult(result) == Error("wrong arg") <==> !HasEntry(e.pre, req))
            && !HasEntry(Handlers()[DELETE_RC](e.pre, DumpDelete(req)).0, req)
  {
    HandlersKeepRegistry();
    e := AcceptedRepliesAreAnswers(Handlers(), addrs, s0, acts, a, k);
    DeleteRoundTrip(req);
    var _ := DeleteAnswer(e.pre, req);
  }

  // ---- requests that arrive twice ----

  /** A call that is executed twice, and the second reply accepted. */
  lemma TwiceRun(s0: Ctrl, id: Byte, p: seq<Byte>, result: IoResult) returns (acts: seq<Action>)
    requires id in Handlers() && id != HEART_BEAT && |p| <= 4054
    requires result == ResultOf(Handlers()[id](Handlers()[id](s0, p).0, p).1)
    ensures var w := Run(Handlers(), Init({0}, s0), acts);
            && w.calls == [Call(0, 1, id, p)]
            && w.server == Handlers()[id](Handlers()[id](s0, p).0, p).0
            && w.executions != [] && w.executions[0].call == Call(0, 1, id, p) && w.executions[0].pre == s0
            && 0 in w.clients && |w.clients[0].accepted| == 1 && w.clients[0].accepted[0].result == result
  {
    HandlersKeepRegistry();
    acts := SecondReplyRun(Handlers(), s0, 0, id, p);
  }

  lemma FirstRemoved(w: World<Ctrl>, req: DelReq)
    requires |req.name| <= MAX_NAME_LEN && 0 !in req.name
    requires w.executions != [] && w.executions[0].call == Call(0, 1, DELETE_RC, DumpDelete(req))
    requires HasEntry(w.executions[0].pre, req)
    ensures Removed(w, 0, 0, req)
  {
    DeleteRoundTrip(req);
    assert w.executions[0] in w.executions && IsDelete(w.executions[0].call, 0, 0, req);
  }

  /** The client is told "wrong arg" although its own request removed the entry. */
  lemma DuplicateDeleteReportsError(s0: Ctrl, req: DelReq) returns (acts: seq<Action>)
    requires |req.name| <= MAX_NAME_LEN && 0 !in req.name && HasEntry(s0, req)
    ensures var w := Run(Handlers(), Init({0}, s0), acts);
            && w.calls == [Call(0, 1, DELETE_RC, DumpDelete(req))]
            && 0 in w.clients && |w.clients[0].accepted| == 1
            && DeleteResult(w.clients[0].accepted[0].result) == Error("wrong arg")
            && Removed(w, 0, 0, req)
  {
    var _ := DeleteAnswer(s0, req);
    var result := DeleteAnswer(Handlers()[DELETE_RC](s0, DumpDelete(req)).0, req);
    acts := TwiceRun(s0, DELETE_RC, DumpDelete(req), result);
    FirstRemoved(Run(Handlers(), Init({0}, s0), acts), req);
  }

  // ---- when a report is about the request, and not about one execution of it ----

  /** The call under checksum number `k` was executed at most once. */
  predicate AtMostOnce<S>(w: World<S>, c: Call) {
    forall i, j :: 0 <= i < j < |w.executions| ==> !(w.executions[i].call == c && w.executions[j].call == c)
  }

  ghost predicate SoleSituation(
      addrs: set<Addr>, s0: Ctrl, acts: seq<Action>, a: Addr, k: nat, id: Byte, p: seq<Byte>, once: bool)
  {
    var w := Run(Handlers(), Init(addrs, s0), acts);
    && GoodCtrl(s0) && k < U64_RANGE - 1
    && a in w.clients && k < |w.clients[a].accepted| && OnlyCall(w, a, k, id, p)
    && (once ==> AtMostOnce(w, Call(a, k + 1, id, p)))
  }

  /** With no other call outstanding, success and error of a delete say whether it removed the entry. */
  ghost predicate DeleteReportTells(req: DelReq, once: bool)
    requires |req.name| <= MAX_NAME_LEN
  {
    forall addrs, s0, acts, a, k: nat :: SoleSituation(addrs, s0, acts, a, k, DELETE_RC, DumpDelete(req), once) ==>
      var w := Run(Handlers(), Init(addrs, s0), acts);
      (DeleteResult(w.clients[a].accepted[k].result) == Done(()) <==> Removed(w, a, k, req))
  }

  /** Executions of the client's calls under a checksum with only one call are executions of that call. */
  lemma SoleExecution(
      addrs: set<Addr>, s0: Ctrl, acts: seq<Action>, a: Addr, k: nat, id: Byte, p: seq<Byte>, e: Execution<Ctrl>)
    requires OnlyCall(Run(Handlers(), Init(addrs, s0), acts), a, k, id, p)
    requires e in Run(Handlers(), Init(addrs, s0), acts).executions
    requires e.call.client == a && e.call.checksum == k + 1 && e.call.id != HEART_BEAT
    ensures e.call == Call(a, k + 1, id, p)
  {
    HandlersKeepRegistry();
    RunKeepsInv(Handlers(), Init(addrs, s0), acts);
    assert GoodExecution(Handlers(), Run(Handlers(), Init(addrs, s0), acts).calls, e);
  }

  lemma OnlyOne<S>(w: World<S>, c: Call, e: Execution<S>, f: Execution<S>)
    requires AtMostOnce(w, c) && e in w.executions && f in w.executions && e.call == c && f.call == c
    ensures e == f
  {
  }

  lemma OnceDeleteTells(addrs: set<Addr>, s0: Ctrl, acts: seq<Action>, a: Addr, k: nat, req: DelReq)
    requires |req.name| <= MAX_NAME_LEN && 0 !in req.name
    requires SoleSituation(addrs, s0, acts, a, k, DELETE_RC, DumpDelete(req), true)
    ensures var w := Run(Handlers(), Init(addrs, s0), acts);
            DeleteResult(w.clients[a].accepted[k].result) == Done(()) <==> Removed(w, a, k, req)
  {
    var w := Run(Handlers(), Init(addrs, s0), acts);
    var e := SoleDeleteReport(addrs, s0, acts, a, k, req);
    SoleExecution(addrs, s0, acts, a, k, DELETE_RC, DumpDelete(req), e);
    if Removed(w, a, k, req) {
      var f :| f in w.executions && IsDelete(f.call, a, k, req) && HasEntry(f.pre, req);
      SoleExecution(addrs, s0, acts, a, k, DELETE_RC, DumpDelete(req), f);
      OnlyOne(w, Call(a, k + 1, DELETE_RC, DumpDelete(req)), e, f);
    }
  }

  lemma SomeDeleteTells(req: DelReq, once: bool)
    requires |req.name| <= MAX_NAME_LEN && 0 !in req.name && (once || req.key == 0)
    ensures DeleteReportTells(req, once)
  {
    forall addrs, s0, acts, a, k: nat | SoleSituation(addrs, s0, acts, a, k, DELETE_RC, DumpDelete(req), once)
      ensures var w := Run(Handlers(), Init(addrs, s0), acts);
              DeleteResult(w.clients[a].accepted[k].result) == Done(()) <==> Removed(w, a, k, req)
    {
      if once {
        OnceDeleteTells(addrs, s0, acts, a, k, req);
      } else {
        NoKeyRemovesNothing(addrs, s0, acts, a, k, req);
      }
    }
  }

  lemma SoleInRun(s0: Ctrl, acts: seq<Action>, id: Byte, p: seq<Byte>)
    requires GoodCtrl(s0)
    requires var w := Run(Handlers(), Init({0}, s0), acts);
             w.calls == [Call(0, 1, id, p)] && 0 in w.clients && w.clients[0].accepted != []
    ensures SoleSituation({0}, s0, acts, 0, 0, id, p, false)
  {
  }

  /** One run in which the report and the removal differ. */
  lemma UntoldDelete(req: DelReq, s0: Ctrl, acts: seq<Action>)
    requires |req.name| <= MAX_NAME_LEN
    requires SoleSituation({0}, s0, acts, 0, 0, DELETE_RC, DumpDelete(req), false)
    requires var w := Run(Handlers(), Init({0}, s0), acts);
             DeleteResult(w.clients[0].accepted[0].result) != Done(()) && Removed(w, 0, 0, req)
    ensures !DeleteReportTells(req, false)
  {
  }

  lemma TwiceDeleteMisleads(req: DelReq, s0: Ctrl)
    requires |req.name| <= MAX_NAME_LEN && 0 !in req.name && GoodCtrl(s0) && HasEntry(s0, req)
    ensures !DeleteReportTells(req, false)
  {
    var acts := DuplicateDeleteReportsError(s0, req);
    SoleInRun(s0, acts, DELETE_RC, DumpDelete(req));
    UntoldDelete(req, s0, acts);
  }

  /**
   * The report of a delete with no other call outstanding says, in every run, whether the
   * client's request removed the entry, exactly if the request is executed at most once; a
   * key of zero, which no entry has, is refused however often.
   */
  lemma DeleteReportTellsIff(req: DelReq, once: bool)
    requires |req.name| <= MAX_NAME_LEN && 0 !in req.name
    ensures DeleteReportTells(req, once) <==> once || req.key == 0
  {
    if once || req.key == 0 {
      SomeDeleteTells(req, once);
    } else {
      TwiceDeleteMisleads(req, Ctrl(map[req.name := Entry(NO_ATTR, RTS, req.key)], {}, [], []));
    }
  }

  lemma NoKeyRemovesNothing(addrs: set<Addr>, s0: Ctrl, acts: seq<Action>, a: Addr, k: nat, req: DelReq)
    requires |req.name| <= MAX_NAME_LEN && 0 !in req.name && req.key == 0
    requires SoleSituation(addrs, s0, acts, a, k, DELETE_RC, DumpDelete(req), false)
    ensures var w := Run(Handlers(), Init(addrs, s0), acts);
            DeleteResult(w.clients[a].accepted[k].result) != Done(()) && !Removed(w, a, k, req)
  {
    HandlersKeepRegistry();
    HandlersInvariant(Handlers(), Init(addrs, s0), acts, GoodCtrl);
    var e := SoleDeleteReport(addrs, s0, acts, a, k, req);
  }
}
