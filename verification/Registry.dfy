/**
 * The control daemon's registry of queue pairs: the keyed Factory, the states a queue pair
 * goes through when it is connected, and the handlers of RCtrl that act on them. What the
 * driver answers, and the key that generate_key draws, come in as an `Env`.
 */
module Registry {
  import opened Bytes
  import opened Proto
  import opened Wrappers

  datatype QPState = RESET | INIT | RTR | RTS

  /** generate_key draws again until the key is not zero. */
  type Key = k: U64 | k != 0 witness 1

  /**
   * For one request: the driver's results, the attributes of a queue pair it creates, a fresh
   * key, and whether the receive channel that it names is registered.
   */
  datatype Env = Env(
    created: bool, initOk: bool, rtrOk: bool, rtsOk: bool, attr: QPAttr, key: Key, channel: bool)

  const WRONG_ARG := RCReply(ST_WRONG_ARG, NO_ATTR, 0)

  // ---- queue pair states ----

  /** ibv_modify_qp refuses a transition that skips a state, and may fail on any other. */
  function Modify(s: QPState, target: QPState, driverOk: bool): (QPState, bool) {
    if driverOk && ((s == RESET && target == INIT) || (s == INIT && target == RTR) || (s == RTR && target == RTS))
    then (target, true)
    else (s, false)
  }

  /** A new queue pair is brought to INIT; a failure of that is only logged. */
  function NewState(env: Env): QPState {
    Modify(RESET, INIT, env.initOk).0
  }

  /** connect: refused on a queue pair that could not be created. */
  function ConnectSpec(valid: bool, s: QPState, env: Env): (QPState, bool) {
    if !valid then (s, false)
    else if s == RTS then (s, true)
    else
      var (receiving, rtr) := Modify(s, RTR, env.rtrOk);
      if !rtr then (receiving, false) else Modify(receiving, RTS, env.rtsOk)
  }

  lemma ConnectSucceedsIff(valid: bool, s: QPState, env: Env)
    ensures ConnectSpec(valid, s, env).1 <==> valid && ConnectSpec(valid, s, env).0 == RTS
    ensures ConnectSpec(valid, s, env).1 <==> valid && (s == RTS || (s == INIT && env.rtrOk && env.rtsOk))
  {
  }

  /**
   * The state that connect leaves, for every outcome of the driver. A queue pair that got as far
   * as ready-to-receive and no further never becomes ready to send: every later connect begins
   * with the transition it has behind it.
   */
  lemma ConnectStates(valid: bool, s: QPState, env: Env, again: Env)
    ensures !valid || s == RESET || s == RTR ==> ConnectSpec(valid, s, env) == (s, false)
    ensures valid && s == RTS ==> ConnectSpec(valid, s, env) == (RTS, true)
    ensures valid && s == INIT ==>
              ConnectSpec(valid, s, env)
              == if !env.rtrOk then (INIT, false) else if !env.rtsOk then (RTR, false) else (RTS, true)
    ensures NewState(env) == if env.initOk then INIT else RESET
    ensures valid && s == INIT && env.rtrOk && !env.rtsOk ==>
              ConnectSpec(valid, ConnectSpec(valid, s, env).0, again) == (RTR, false)
  {
  }

  // ---- what the handlers do, on values ----

  datatype Entry = Entry(attr: QPAttr, state: QPState, key: U64)

  type Store = map<Name, Entry>

  function DeregSpec(store: Store, name: Name, key: U64): (Store, bool) {
    if name in store && store[name].key == key then (store - {name}, true) else (store, false)
  }

  function FetchSpec(store: Store, name: Name, key: U64): RCReply {
    if name in store then RCReply(ST_OK, store[name].attr, key) else RCReply(ST_NOT_FOUND, NO_ATTR, 0)
  }

  /** rc_handler; no reply stands for the exception of a queue pair that cannot be created. */
  function CreateSpec(store: Store, nics: set<U64>, req: Option<RCReq>, env: Env): (Store, Option<RCReply>) {
    if req.None? || req.value.whetherCreate == 0 then (store, Some(WRONG_ARG))
    else if req.value.whetherCreate != 1 then (store, Some(FetchSpec(store, req.value.name, 0)))
    else if req.value.nicId !in nics then (store, Some(WRONG_ARG))
    else if !env.created then (store, None)
    else if req.value.name in store then (store, Some(WRONG_ARG))
    else
      var (state, connected) := ConnectSpec(true, NewState(env), env);
      var registered := store[req.value.name := Entry(env.attr, state, env.key)];
      if connected then (registered, Some(FetchSpec(registered, req.value.name, env.key)))
      else (DeregSpec(registered, req.value.name, env.key).0, Some(WRONG_ARG))
  }

  /**
   * msg_rc_handler: the same, and then receive entries for the new queue pair. Without the
   * channel that throws, and leaves the queue pair registered.
   */
  function CreateMsgSpec(store: Store, nics: set<U64>, req: Option<RCReq>, env: Env): (Store, Option<RCReply>) {
    var (s, reply) := CreateSpec(store, nics, req, env);
    (s, if s != store && !env.channel then None else reply)
  }

  function DeleteSpec(store: Store, req: Option<DelReq>): (Store, RCReply) {
    if req.None? then (store, WRONG_ARG)
    else
      var (rest, removed) := DeregSpec(store, req.value.name, req.value.key);
      (rest, if removed then RCReply(ST_OK, NO_ATTR, 0) else WRONG_ARG)
  }

  datatype Request =
    | Create(create: Option<RCReq>, env: Env)
    | CreateMsg(create: Option<RCReq>, env: Env)
    | Delete(delete: Option<DelReq>)
    | Fetch(name: Option<Name>)

  function Handle(store: Store, nics: set<U64>, r: Request): (Store, Option<RCReply>) {
    match r
    case Create(req, env) => CreateSpec(store, nics, req, env)
    case CreateMsg(req, env) => CreateMsgSpec(store, nics, req, env)
    case Delete(req) => var (s, reply) := DeleteSpec(store, req); (s, Some(reply))
    case Fetch(name) => (store, Some(if name.None? then WRONG_ARG else FetchSpec(store, name.value, 0)))
  }

  function HandleAll(store: Store, nics: set<U64>, rs: seq<Request>): Store
    decreases |rs|
  {
    if rs == [] then store else HandleAll(Handle(store, nics, rs[0]).0, nics, rs[1..])
  }

  // ---- the registry over any run of requests ----

  predicate GoodStore(store: Store) {
    forall name :: name in store ==> store[name].state == RTS && store[name].key != 0
  }

  /** The request registered `name` under `key`. */
  predicate Inserts(store: Store, nics: set<U64>, r: Request, name: Name, key: U64) {
    && name !in store
    && name in Handle(store, nics, r).0
    && Handle(store, nics, r).0[name].key == key
  }

  lemma CreateCases(store: Store, nics: set<U64>, req: Option<RCReq>, env: Env)
    ensures var (s, reply) := CreateSpec(store, nics, req, env);
            || s == store
            || (&& req.Some? && req.value.whetherCreate == 1 && req.value.nicId in nics && req.value.name !in store
                && env.created && env.initOk && env.rtrOk && env.rtsOk
                && s == store[req.value.name := Entry(env.attr, RTS, env.key)]
                && reply == Some(RCReply(ST_OK, env.attr, env.key)))
  {
    if req.Some? && req.value.name !in store {
      var registered := store[req.value.name := Entry(env.attr, ConnectSpec(true, NewState(env), env).0, env.key)];
      assert registered - {req.value.name} == store;
    }
  }

  /** The request's arguments and the driver let a queue pair be made. */
  predicate Insertable(store: Store, nics: set<U64>, req: RCReq, env: Env) {
    && req.whetherCreate == 1 && req.nicId in nics && req.name !in store
    && env.created && env.initOk && env.rtrOk && env.rtsOk
  }

  /**
   * What each kind of create does and answers: the new queue pair's own attributes and key if it
   * inserts, nothing if the channel for its receive entries is missing, a registered name's
   * attributes without a key if it only queries, and a refusal or an exception otherwise.
   */
  lemma CreateAnswers(store: Store, nics: set<U64>, r: Request)
    requires (r.Create? || r.CreateMsg?) && r.create.Some?
    ensures var (req, env, s, reply) := (r.create.value, r.env, Handle(store, nics, r).0, Handle(store, nics, r).1);
            if Insertable(store, nics, req, env) then
              && s == store[req.name := Entry(env.attr, RTS, env.key)]
              && reply == if Throws(r) then None else Some(RCReply(ST_OK, env.attr, env.key))
            else
              && s == store
              && reply ==
                   if req.whetherCreate >= 2 then
                     Some(if req.name in store then RCReply(ST_OK, store[req.name].attr, 0)
                          else RCReply(ST_NOT_FOUND, NO_ATTR, 0))
                   else if req.whetherCreate == 1 && req.nicId in nics && !env.created then None
                   else Some(RCReply(ST_WRONG_ARG, NO_ATTR, 0))
  {
    var req, env := r.create.value, r.env;
    CreateCases(store, nics, r.create, env);
    ConnectStates(true, NewState(env), env, env);
    if req.name !in store {
      var registered := store[req.name := Entry(env.attr, ConnectSpec(true, NewState(env), env).0, env.key)];
      assert registered - {req.name} == store;
      assert registered != store;
    }
  }

  /** What the other requests answer, and that one that does not parse is refused. */
  lemma OtherAnswers(store: Store, nics: set<U64>, name: Name, req: DelReq, env: Env)
    ensures Handle(store, nics, Fetch(Some(name))) ==
              (store, Some(if name in store then RCReply(ST_OK, store[name].attr, 0)
                           else RCReply(ST_NOT_FOUND, NO_ATTR, 0)))
    ensures Handle(store, nics, Delete(Some(req))) ==
              if req.name in store && store[req.name].key == req.key then
                (store - {req.name}, Some(RCReply(ST_OK, NO_ATTR, 0)))
              else (store, Some(RCReply(ST_WRONG_ARG, NO_ATTR, 0)))
    ensures forall r :: r in [Create(None, env), CreateMsg(None, env), Delete(None), Fetch(None)] ==>
              Handle(store, nics, r) == (store, Some(RCReply(ST_WRONG_ARG, NO_ATTR, 0)))
  {
  }

  /** A connect that fails, for whatever reason, leaves the registry as it was. */
  lemma FailedConnectLeavesStore(store: Store, nics: set<U64>, req: Option<RCReq>, env: Env)
    requires !ConnectSpec(true, NewState(env), env).1
    ensures CreateSpec(store, nics, req, env).0 == store
  {
    CreateCases(store, nics, req, env);
    ConnectSucceedsIff(true, NewState(env), env);
  }

  /** The request hands out a key for the entry it made. */
  predicate HandsOutKey(store: Store, nics: set<U64>, r: Request) {
    var reply := Handle(store, nics, r).1;
    reply.Some? && reply.value.key != 0
  }

  /**
   * A create with receive entries that hands out no key leaves the registry as it was, unless
   * only the channel is missing: then its queue pair stays, under a key that nobody knows.
   */
  lemma MsgFailureLeavesStoreIff(store: Store, nics: set<U64>, req: Option<RCReq>, env: Env)
    ensures var r := CreateMsg(req, env);
            !HandsOutKey(store, nics, r) ==>
              (Handle(store, nics, r).0 == store <==>
                 env.channel || !HandsOutKey(store, nics, Create(req, env)))
  {
    CreateCases(store, nics, req, env);
    if req.Some? && req.value.name !in store {
      assert store[req.value.name := Entry(env.attr, RTS, env.key)] != store;
    }
  }

  /** Every queue pair in the registry reached RTS, after any requests, repeated or not. */
  lemma {:induction false} RegisteredReachedRTS(store: Store, nics: set<U64>, rs: seq<Request>)
    requires GoodStore(store)
    ensures GoodStore(HandleAll(store, nics, rs))
    decreases |rs|
  {
    if rs != [] {
      if rs[0].Create? || rs[0].CreateMsg? {
        CreateCases(store, nics, rs[0].create, rs[0].env);
      }
      RegisteredReachedRTS(Handle(store, nics, rs[0]).0, nics, rs[1..]);
    }
  }

  /** Only a delete with the entry's own key removes it; nothing changes it. */
  lemma OnlyItsKeyRemoves(store: Store, nics: set<U64>, r: Request, name: Name)
    requires name in store
    ensures var s := Handle(store, nics, r).0;
            if r.Delete? && r.delete == Some(DelReq(name, store[name].key)) then name !in s
            else name in s && s[name] == store[name]
  {
    if r.Create? || r.CreateMsg? {
      CreateCases(store, nics, r.create, r.env);
    }
  }

  /** So an entry stays as inserted through any run without that delete, repeated creates included. */
  lemma {:induction false} EntryPersists(store: Store, nics: set<U64>, rs: seq<Request>, name: Name)
    requires name in store
    requires forall r :: r in rs ==> r != Delete(Some(DelReq(name, store[name].key)))
    ensures var s := HandleAll(store, nics, rs); name in s && s[name] == store[name]
    decreases |rs|
  {
    if rs != [] {
      assert rs[0] in rs && forall r :: r in rs[1..] ==> r in rs;
      OnlyItsKeyRemoves(store, nics, rs[0], name);
      EntryPersists(Handle(store, nics, rs[0]).0, nics, rs[1..], name);
    }
  }

  /** A create with receive entries that throws after it registered the queue pair. */
  predicate Throws(r: Request) {
    r.CreateMsg? && !r.env.channel
  }

  /** A nonzero key is in a reply exactly when the request inserted an entry under that key, and did not throw. */
  lemma ReplyKeyIffInserts(store: Store, nics: set<U64>, r: Request, key: Key)
    ensures var reply := Handle(store, nics, r).1;
            (reply.Some? && reply.value.key == key) <==>
              !Throws(r) && exists name :: Inserts(store, nics, r, name, key)
  {
    if r.Create? || r.CreateMsg? {
      CreateCases(store, nics, r.create, r.env);
      var reply := Handle(store, nics, r).1;
      if reply.Some? && reply.value.key == key {
        assert Inserts(store, nics, r, r.create.value.name, key);
      }
    }
  }

  /** The name that a request is about, if it parses. */
  function NameOf(r: Request): Option<Name> {
    match r
    case Create(req, _) => if req.None? then None else Some(req.value.name)
    case CreateMsg(req, _) => if req.None? then None else Some(req.value.name)
    case Delete(req) => if req.None? then None else Some(req.value.name)
    case Fetch(name) => name
  }

  predicate Elsewhere(rs: seq<Request>, name: Name) {
    forall r :: r in rs ==> NameOf(r) != Some(name)
  }

  lemma OtherNameCommutes(store: Store, nics: set<U64>, r: Request, name: Name, e: Entry)
    requires NameOf(r) != Some(name)
    ensures Handle(store[name := e], nics, r).0 == Handle(store, nics, r).0[name := e]
    ensures name !in store ==> name !in Handle(store, nics, r).0
  {
    match r
    case Create(req, env) => CreateCommutes(store, nics, req, env, name, e);
    case CreateMsg(req, env) => CreateCommutes(store, nics, req, env, name, e);
    case Delete(req) =>
      if req.Some? {
        assert store[name := e] - {req.value.name} == (store - {req.value.name})[name := e];
      }
    case Fetch(_) =>
  }

  lemma CreateCommutes(store: Store, nics: set<U64>, req: Option<RCReq>, env: Env, name: Name, e: Entry)
    requires req.Some? ==> req.value.name != name
    ensures CreateSpec(store[name := e], nics, req, env).0 == CreateSpec(store, nics, req, env).0[name := e]
    ensures name !in store ==> name !in CreateSpec(store, nics, req, env).0
  {
    CreateCases(store, nics, req, env);
    CreateCases(store[name := e], nics, req, env);
    if req.Some? {
      var other := req.value.name;
      var made := Entry(env.attr, ConnectSpec(true, NewState(env), env).0, env.key);
      assert store[name := e][other := made] == store[other := made][name := e];
      assert (store[name := e][other := made]) - {other} == (store[other := made] - {other})[name := e];
    }
  }

  /** Requests about other names do the same to the rest of the registry, with the entry or without. */
  lemma {:induction false} OthersCommute(store: Store, nics: set<U64>, rs: seq<Request>, name: Name, e: Entry)
    requires Elsewhere(rs, name)
    ensures HandleAll(store[name := e], nics, rs) == HandleAll(store, nics, rs)[name := e]
    ensures name !in store ==> name !in HandleAll(store, nics, rs)
    decreases |rs|
  {
    if rs != [] {
      assert rs[0] in rs && forall r :: r in rs[1..] ==> r in rs;
      OtherNameCommutes(store, nics, rs[0], name, e);
      OthersCommute(Handle(store, nics, rs[0]).0, nics, rs[1..], name, e);
    }
  }

  /**
   * A create and, whatever happens to other names in between, the delete with its key: the
   * registry is then as if only the requests in between had been made. Any other key is
   * refused and changes nothing.
   */
  lemma CreateThenDeleteRestores(store: Store, nics: set<U64>, req: RCReq, env: Env, rs: seq<Request>)
    requires CreateSpec(store, nics, Some(req), env).1 == Some(RCReply(ST_OK, env.attr, env.key))
    requires req.whetherCreate == 1 && Elsewhere(rs, req.name)
    ensures var s := HandleAll(CreateSpec(store, nics, Some(req), env).0, nics, rs);
            && DeleteSpec(s, Some(DelReq(req.name, env.key)))
               == (HandleAll(store, nics, rs), RCReply(ST_OK, NO_ATTR, 0))
            && forall key :: key != env.key ==> DeleteSpec(s, Some(DelReq(req.name, key))) == (s, WRONG_ARG)
  {
    var e := Entry(env.attr, RTS, env.key);
    CreateCases(store, nics, Some(req), env);
    OthersCommute(store, nics, rs, req.name, e);
    var s := HandleAll(store, nics, rs);
    assert req.name !in s && s[req.name := e] - {req.name} == s;
  }

  /** A second create of a name changes nothing and hands out no key. */
  lemma RepeatedCreate(store: Store, nics: set<U64>, req: RCReq, env: Env, rs: seq<Request>, again: Env)
    requires req.whetherCreate == 1 && req.name !in store
    requires var s := CreateSpec(store, nics, Some(req), env).0;
             req.name in s && forall r :: r in rs ==> r != Delete(Some(DelReq(req.name, env.key)))
    ensures var s := HandleAll(CreateSpec(store, nics, Some(req), env).0, nics, rs);
            && req.name in s && s[req.name] == Entry(env.attr, RTS, env.key)
            && CreateSpec(s, nics, Some(req), again)
               == (s, if req.nicId in nics && !again.created then None else Some(WRONG_ARG))
  {
    CreateCases(store, nics, Some(req), env);
    EntryPersists(CreateSpec(store, nics, Some(req), env).0, nics, rs, req.name);
  }

  /** A create request for a registered name only queries it exactly when its flag is 2 or more. */
  lemma QueryOnlyIff(store: Store, nics: set<U64>, req: RCReq, env: Env)
    requires req.name in store
    ensures CreateSpec(store, nics, Some(req), env) == (store, Some(RCReply(ST_OK, store[req.name].attr, 0)))
       <==> req.whetherCreate >= 2
  {
  }

  // ---- the objects ----

  class RC {
    const attr: QPAttr
    /** The driver gave a queue pair; without one every later call is refused. */
    const valid: bool
    var state: QPState

    constructor (env: Env)
      ensures attr == env.attr && valid == env.created && state == if env.created then NewState(env) else RESET
    {
      attr := env.attr;
      valid := env.created;
      state := if env.created then NewState(env) else RESET;
    }

    /** connect: to ready-to-receive, then to ready-to-send, unless already there. */
    method Connect(env: Env) returns (ok: bool)
      modifies this
      ensures (state, ok) == ConnectSpec(valid, old(state), env)
    {
      if !valid {
        return false;
      }
      if state == RTS {
        return true;
      }
      var rtr := Modify(state, RTR, env.rtrOk);
      state := rtr.0;
      if !rtr.1 {
        return false;
      }
      var rts := Modify(state, RTS, env.rtsOk);
      state := rts.0;
      return rts.1;
    }
  }

  /** The keyed factory: a name is bound to an object and to the key that may remove it. */
  class Factory<V> {
    var store: map<Name, (V, U64)>

    constructor ()
      ensures store == map[]
    {
      store := map[];
    }

    method Reg(name: Name, v: V, freshKey: Key) returns (key: Option<U64>)
      modifies this
      ensures key == if name in old(store) then None else Some(freshKey)
      ensures store == if name in old(store) then old(store) else old(store)[name := (v, freshKey)]
    {
      if name in store {
        return None;
      }
      store := store[name := (v, freshKey)];
      return Some(freshKey);
    }

    method Query(name: Name) returns (v: Option<V>)
      ensures v == if name in store then Some(store[name].0) else None
    {
      return if name in store then Some(store[name].0) else None;
    }

    /** Nothing for a missing name and for a wrong key alike. */
    method Dereg(name: Name, key: U64) returns (v: Option<V>)
      modifies this
      ensures v == if name in old(store) && old(store)[name].1 == key then Some(old(store)[name].0) else None
      ensures store == if v.Some? then old(store) - {name} else old(store)
    {
      if name in store && store[name].1 == key {
        v := Some(store[name].0);
        store := store - {name};
      } else {
        v := None;
      }
    }
  }

  datatype Made = Thrown | Refused | Connected(key: U64)

  class RCtrl {
    const registeredQps: Factory<RC>
    var openedNics: set<U64>

    constructor (nics: set<U64>)
      ensures openedNics == nics && fresh(registeredQps) && View() == map[]
    {
      registeredQps := new Factory();
      openedNics := nics;
    }

    ghost function Objects(): set<RC>
      reads this, registeredQps
    {
      set name | name in registeredQps.store :: registeredQps.store[name].0
    }

    ghost function View(): Store
      reads this, registeredQps, Objects()
    {
      map name | name in registeredQps.store :: EntryAt(name)
    }

    ghost function EntryAt(name: Name): Entry
      requires name in registeredQps.store
      reads this, registeredQps, registeredQps.store[name].0
    {
      Entry(registeredQps.store[name].0.attr, registeredQps.store[name].0.state, registeredQps.store[name].1)
    }

    lemma ViewIs(changed: Store)
      requires changed.Keys == registeredQps.store.Keys
      requires forall name :: name in registeredQps.store ==> EntryAt(name) == changed[name]
      ensures View() == changed
    {
    }

    method FetchQPAttr(name: Name, key: U64) returns (reply: RCReply)
      ensures reply == FetchSpec(View(), name, key)
    {
      var rc := registeredQps.Query(name);
      return if rc.Some? then RCReply(ST_OK, rc.value.attr, key) else RCReply(ST_NOT_FOUND, NO_ATTR, 0);
    }

    /**
     * The creating part of both handlers: register the queue pair first, and take it out again
     * if connecting fails.
     */
    method MakeRc(req: RCReq, env: Env) returns (made: Made)
      modifies registeredQps
      ensures var (store, reply) := CreateSpec(old(View()), openedNics, Some(req.(whetherCreate := 1)), env);
              && View() == store
              && match made {
                   case Thrown => reply == None && store == old(View())
                   case Refused => reply == Some(WRONG_ARG) && store == old(View())
                   case Connected(key) =>
                     store != old(View()) && reply == Some(FetchSpec(store, req.name, key))
                 }
    {
      if req.nicId !in openedNics {
        return Refused;
      }
      var rc := new RC(env);
      if !rc.valid {
        ViewIs(old(View()));
        return Thrown;
      }
      var registered := registeredQps.Reg(req.name, rc, env.key);
      if registered.None? {
        ViewIs(old(View()));
        return Refused;
      }
      var connected := rc.Connect(env);
      ghost var (end, _) := ConnectSpec(true, NewState(env), env);
      ghost var withNew := old(View())[req.name := Entry(env.attr, end, env.key)];
      ViewIs(withNew);
      if !connected {
        var _ := registeredQps.Dereg(req.name, registered.value);
        ViewIs(withNew - {req.name});
        assert withNew - {req.name} == old(View());
        return Refused;
      }
      assert req.name in View() && req.name !in old(View());
      return Connected(registered.value);
    }

    /** rc_handler */
    method RcHandler(b: Option<RCReq>, env: Env) returns (reply: Option<RCReply>)
      modifies registeredQps
      ensures (View(), reply) == CreateSpec(old(View()), openedNics, b, env)
    {
      if b.None? || !(b.value.whetherCreate == 1 || b.value.whetherCreate != 0) {
        return Some(WRONG_ARG);
      }
      var req := b.value;
      var key: U64 := 0;
      if req.whetherCreate == 1 {
        assert req.(whetherCreate := 1) == req;
        var made := MakeRc(req, env);
        match made {
          case Thrown => return None;
          case Refused => return Some(WRONG_ARG);
          case Connected(k) => key := k;
        }
      }
      ghost var settled := View();
      var fetched := FetchQPAttr(req.name, key);
      ViewIs(settled);
      return Some(fetched);
    }

    method DeleteRc(b: Option<DelReq>) returns (reply: RCReply)
      modifies registeredQps
      ensures (View(), reply) == DeleteSpec(old(View()), b)
    {
      if b.None? {
        return WRONG_ARG;
      }
      var removed := registeredQps.Dereg(b.value.name, b.value.key);
      ViewIs(if removed.None? then old(View()) else old(View()) - {b.value.name});
      return if removed.None? then WRONG_ARG else RCReply(ST_OK, NO_ATTR, 0);
    }
  }

  /** Queue pairs with receive entries, created through the same registry. */
  class RecvManager {
    const rctrl: RCtrl

    constructor (rctrl: RCtrl)
      ensures this.rctrl == rctrl
    {
      this.rctrl := rctrl;
    }

    /** msg_rc_handler: asks for the channel only when the queue pair is registered and connected. */
    method MsgRcHandler(b: Option<RCReq>, env: Env) returns (reply: Option<RCReply>)
      modifies rctrl.registeredQps
      ensures (rctrl.View(), reply) == CreateMsgSpec(old(rctrl.View()), rctrl.openedNics, b, env)
    {
      if b.None? || !(b.value.whetherCreate == 1 || b.value.whetherCreate != 0) {
        return Some(WRONG_ARG);
      }
      var req := b.value;
      var key: U64 := 0;
      if req.whetherCreate == 1 {
        assert req.(whetherCreate := 1) == req;
        var made := rctrl.MakeRc(req, env);
        match made {
          case Thrown => return None;
          case Refused => return Some(WRONG_ARG);
          case Connected(k) => key := k;
        }
        if !env.channel {
          return None;
        }
      }
      ghost var settled := rctrl.View();
      var fetched := rctrl.FetchQPAttr(req.name, key);
      rctrl.ViewIs(settled);
      return Some(fetched);
    }
  }
}
