/** The whole proxy as one transition system: any number of handler threads, the cache under its lock
    at statement level, and a clock that never goes back.  A thread asks the cache, judges what it
    found by the clock of a later moment, serves it or forwards the request, and stores what the
    forwarding run made of the response.  Every sequence of actions is a run; an action that is not
    possible in a state leaves it as it is. */
module Proxy {
  import opened CacheEntries
  import opened CacheSpec
  import opened CacheTraces
  import opened Text
  import opened Response
  import opened Request
  import opened Relay
  import opened Freshness
  import opened RoundTrip
  import opened Serve
  import opened Sockets
  import Threads = CacheThreads

  /** The forwarding run that an entry comes from, with its two clock reads. */
  datatype Origin = Origin(request: Parsed, world: World, parsed: Tick, created: Tick)

  datatype Phase =
    | Resting
    | Asking(r: Parsed)
    | Judging(r: Parsed, found: Option<CacheEntry>, at: nat)
    | Forwarding(r: Parsed)
    | Storing(r: Parsed, entry: CacheEntry, origin: Origin)

  /** A decision about a cached entry: found by the lookup at position `at` of the lock order, judged
      at `time`. */
  datatype Judgement = Judgement(key: string, entry: CacheEntry, at: nat, time: Tick, served: bool)

  datatype State = State(
    cache: Threads.State, handlers: map<Threads.Tid, Phase>, now: Tick, origins: map<nat, Origin>,
    judged: seq<Judgement>)

  datatype Action =
    | Pass(ticks: nat)
    | Begin(thread: Threads.Tid, r: Parsed)
    | CacheStep(action: Threads.Action)
    | Judge(thread: Threads.Tid)
    | Fetch(thread: Threads.Tid, world: World, created: Tick)

  const INITIAL := State(Threads.INITIAL, map[], 0, map[], [])

  function HandlerOf(s: State, t: Threads.Tid): Phase {
    if t in s.handlers then s.handlers[t] else Resting
  }

  function KeyOf(r: Parsed): string { Key(r.hostname, r.uri) }

  function ClockOf(parseTime: DateParser, o: Origin): Clock { Clock(o.parsed, o.created, parseTime) }

  function OutcomeOf(parseTime: DateParser, o: Origin): Outcome {
    Forward(o.request, o.world, ClockOf(parseTime, o))
  }

  /** Which cache operation a thread in this phase may start.  Resting threads may use the rest of
      the cache's interface. */
  predicate MayStart(p: Phase, op: Op) {
    match p
    case Asking(r) => op == OpGet(KeyOf(r))
    case Storing(r, e, _) => op == OpPut(KeyOf(r), e)
    case Resting => op.OpRemove? || op.OpClear? || op.OpSize?
    case _ => false
  }

  predicate Possible(s: State, a: Action) {
    match a
    case Pass(ticks) => s.now + ticks < TWO_TO_THE_63
    case Begin(t, r) => HandlerOf(s, t) == Resting && Threads.ThreadOf(s.cache, t).pc.Idle?
    case CacheStep(ca) =>
      Threads.Enabled(s.cache, ca) && (ca.Acquire? ==> MayStart(HandlerOf(s, ca.thread), ca.op))
    case Judge(t) => HandlerOf(s, t).Judging?
    case Fetch(t, _, created) => HandlerOf(s, t).Forwarding? && s.now <= created
  }

  /** What a finished cache operation means for the thread. */
  function AfterRelease(p: Phase, th: Threads.Thread): Phase
    requires th.pc.Finished?
  {
    if p.Asking? && th.pc.reply.Found? then Judging(p.r, th.pc.reply.entry, th.index) else Resting
  }

  function Do(capacity: nat, parseTime: DateParser, s: State, a: Action): State {
    if !Possible(s, a) then s
    else
      match a
      case Pass(ticks) => s.(now := s.now + ticks)
      case Begin(t, r) =>
        s.(handlers := s.handlers[t := if r.verb == "GET" then Asking(r)
                                       else if r.verb == "POST" then Forwarding(r) else Resting])
      case CacheStep(ca) =>
        var s' := s.(cache := Threads.Do(capacity, s.cache, ca));
        var p := HandlerOf(s, ca.thread);
        if ca.Acquire? && p.Storing? then s'.(origins := s.origins[|s.cache.log| := p.origin])
        else if ca.Release? then
          s'.(handlers := s.handlers[ca.thread := AfterRelease(p, Threads.ThreadOf(s.cache, ca.thread))])
        else s'
      case Judge(t) =>
        var p := HandlerOf(s, t);
        if p.found.None? then s.(handlers := s.handlers[t := Forwarding(p.r)])
        else
          var hit := IsHit(p.found, s.now);
          s.(handlers := s.handlers[t := if hit then Resting else Forwarding(p.r)],
             judged := s.judged + [Judgement(KeyOf(p.r), p.found.value, p.at, s.now, hit)])
      case Fetch(t, w, created) =>
        var r, o := HandlerOf(s, t).r, Origin(HandlerOf(s, t).r, w, s.now, created);
        s.(handlers := s.handlers[t := match OutcomeOf(parseTime, o).stored
                                       case None => Resting
                                       case Some(e) => Storing(r, e, o)])
  }

  function Exec(capacity: nat, parseTime: DateParser, actions: seq<Action>): State {
    if actions == [] then INITIAL
    else
      Do(capacity, parseTime, Exec(capacity, parseTime, actions[..|actions| - 1]), actions[|actions| - 1])
  }

  // ---------------------------------------------------------------- the invariant

  /** The entry under this key is what the forwarding run stored. */
  ghost predicate ComesFrom(parseTime: DateParser, o: Origin, key: string, e: CacheEntry) {
    key == KeyOf(o.request) && OutcomeOf(parseTime, o).stored == Some(e)
  }

  /** What was found is what the sequential cache holds at that point of the lock order. */
  ghost predicate FoundAt(capacity: nat, log: seq<Op>, key: string, found: Option<CacheEntry>, at: nat) {
    at < |log| && log[at] == OpGet(key) && found == Get(CacheSpec.Run(capacity, log[..at]), key)
  }

  ghost predicate HandlerOk(capacity: nat, parseTime: DateParser, s: State, t: Threads.Tid) {
    var th := Threads.ThreadOf(s.cache, t);
    && (!th.pc.Idle? ==> th.index < |s.cache.log| && MayStart(HandlerOf(s, t), s.cache.log[th.index]))
    && match HandlerOf(s, t)
       case Judging(r, found, at) => FoundAt(capacity, s.cache.log, KeyOf(r), found, at)
       case Storing(r, e, o) => ComesFrom(parseTime, o, KeyOf(r), e)
       case _ => true
  }

  ghost predicate JudgedOk(capacity: nat, s: State, j: Judgement) {
    && FoundAt(capacity, s.cache.log, j.key, Some(j.entry), j.at)
    && j.time <= s.now && (j.served <==> !j.entry.IsExpired(j.time))
  }

  ghost predicate LogOk(parseTime: DateParser, s: State, i: nat) {
    i < |s.cache.log| && s.cache.log[i].OpPut? ==>
      i in s.origins && ComesFrom(parseTime, s.origins[i], s.cache.log[i].key, s.cache.log[i].value)
  }

  /** Every entry in the map, also while a writer is at work, is the value of some put. */
  ghost predicate EntriesLogged(s: Threads.State) {
    forall k :: k in s.shared.entries ==> OpPut(k, s.shared.entries[k]) in s.log
  }

  ghost predicate Inv(capacity: nat, parseTime: DateParser, s: State) {
    && Threads.Inv(capacity, s.cache)
    && EntriesLogged(s.cache)
    && (forall t: Threads.Tid :: HandlerOk(capacity, parseTime, s, t))
    && (forall i: nat :: LogOk(parseTime, s, i))
    && (forall j :: j in s.judged ==> JudgedOk(capacity, s, j))
    && (forall a, b :: 0 <= a < b < |s.judged| ==> s.judged[a].time <= s.judged[b].time)
  }

  /** One statement drops entries or writes that of its own `put`. */
  lemma StatementEntries(capacity: nat, sh: Threads.Shared, op: Op, line: Threads.Line, k: string)
    requires k in Threads.Statement(capacity, sh, op, line).0.entries
    ensures var v := Threads.Statement(capacity, sh, op, line).0.entries[k];
            (k in sh.entries && sh.entries[k] == v) || op == OpPut(k, v)
  {}

  /** A thread that is executing works on the operation that the log has for it. */
  lemma OwnOperation(capacity: nat, s: Threads.State, t: Threads.Tid)
    requires Threads.Inv(capacity, s) && Threads.Enabled(s, Threads.Execute(t))
    ensures var th := Threads.ThreadOf(s, t); th.index < |s.log| && s.log[th.index] == th.pc.op
  {
    hide Threads.Rep, Threads.Linearized, CacheSpec.Run, Threads.Effect, Threads.Abs;
  }

  lemma StatementLogged(capacity: nat, s: Threads.State, t: Threads.Tid)
    requires Threads.Inv(capacity, s) && EntriesLogged(s) && Threads.Enabled(s, Threads.Execute(t))
    ensures EntriesLogged(Threads.Do(capacity, s, Threads.Execute(t)))
  {
    OwnOperation(capacity, s, t);
    var th := Threads.ThreadOf(s, t);
    hide Threads.Inv, Threads.Statement;
    forall k | k in Threads.Do(capacity, s, Threads.Execute(t)).shared.entries
      ensures OpPut(k, Threads.Do(capacity, s, Threads.Execute(t)).shared.entries[k]) in s.log
    {
      StatementEntries(capacity, s.shared, th.pc.op, th.pc.line, k);
    }
  }

  lemma CacheStepLogged(capacity: nat, s: Threads.State, ca: Threads.Action)
    requires Threads.Inv(capacity, s) && EntriesLogged(s)
    ensures EntriesLogged(Threads.Do(capacity, s, ca))
  {
    if ca.Execute? && Threads.Enabled(s, ca) {
      StatementLogged(capacity, s, ca.thread);
    }
    hide Threads.Inv, Threads.Statement;
  }

  /** What was found stays what the sequential cache holds there. */
  lemma FoundInLonger(
    capacity: nat, log: seq<Op>, longer: seq<Op>, key: string, found: Option<CacheEntry>, at: nat)
    requires FoundAt(capacity, log, key, found, at) && log <= longer
    ensures FoundAt(capacity, longer, key, found, at)
  {
    assert longer[..at] == log[..at];
  }

  lemma AcquireHandler(
    capacity: nat, parseTime: DateParser, s: State, t: Threads.Tid, op: Op, u: Threads.Tid)
    requires HandlerOk(capacity, parseTime, s, u) && Possible(s, CacheStep(Threads.Acquire(t, op)))
    ensures HandlerOk(capacity, parseTime, Do(capacity, parseTime, s, CacheStep(Threads.Acquire(t, op))), u)
  {
    hide ComesFrom, FoundAt, CacheSpec.Run;
    var p := HandlerOf(s, u);
    if p.Judging? {
      FoundInLonger(capacity, s.cache.log, s.cache.log + [op], KeyOf(p.r), p.found, p.at);
    }
  }

  lemma ExecuteHandler(capacity: nat, parseTime: DateParser, s: State, t: Threads.Tid, u: Threads.Tid)
    requires HandlerOk(capacity, parseTime, s, u) && Possible(s, CacheStep(Threads.Execute(t)))
    requires var pc := Threads.ThreadOf(s.cache, t).pc; HandlerOk(capacity, parseTime, s, t) && !pc.Idle?
    ensures HandlerOk(capacity, parseTime, Do(capacity, parseTime, s, CacheStep(Threads.Execute(t))), u)
  {
    hide ComesFrom, FoundAt, Threads.Statement;
  }

  /** The answer that a thread is about to take away is that of the sequential cache. */
  lemma AnswerReady(capacity: nat, s: Threads.State, t: Threads.Tid)
    requires Threads.Inv(capacity, s) && Threads.Enabled(s, Threads.Release(t))
    ensures var th := Threads.ThreadOf(s, t);
            Threads.Linearized(capacity, s.log, Threads.Return(t, th.index, th.pc.op, th.pc.reply))
  {
    var th := Threads.ThreadOf(s, t);
    var r := Threads.Return(t, th.index, th.pc.op, th.pc.reply);
    Threads.DoInv(capacity, s, Threads.Release(t));
    assert Threads.Do(capacity, s, Threads.Release(t)).replies == s.replies + [r];
    hide Threads.Linearized, Threads.Rep, CacheSpec.Run, Threads.WriterOk, Threads.ReaderOk;
  }

  lemma ReleaseHandler(capacity: nat, parseTime: DateParser, s: State, t: Threads.Tid, u: Threads.Tid)
    requires HandlerOk(capacity, parseTime, s, u) && HandlerOk(capacity, parseTime, s, t)
    requires Possible(s, CacheStep(Threads.Release(t)))
    requires var th := Threads.ThreadOf(s.cache, t);
             Threads.Linearized(capacity, s.cache.log, Threads.Return(t, th.index, th.pc.op, th.pc.reply))
    ensures HandlerOk(capacity, parseTime, Do(capacity, parseTime, s, CacheStep(Threads.Release(t))), u)
  {
    hide ComesFrom, CacheSpec.Run;
  }

  lemma CacheStepHandler(capacity: nat, parseTime: DateParser, s: State, ca: Threads.Action, u: Threads.Tid)
    requires Inv(capacity, parseTime, s) && Possible(s, CacheStep(ca))
    ensures HandlerOk(capacity, parseTime, Do(capacity, parseTime, s, CacheStep(ca)), u)
  {
    assert HandlerOk(capacity, parseTime, s, u) && HandlerOk(capacity, parseTime, s, ca.thread);
    assert Threads.Enabled(s.cache, ca);
    hide Inv, HandlerOk, Do, Possible;
    match ca
    case Acquire(t, op) => AcquireHandler(capacity, parseTime, s, t, op, u);
    case Execute(t) => ExecuteHandler(capacity, parseTime, s, t, u);
    case Release(t) =>
      AnswerReady(capacity, s.cache, t);
      ReleaseHandler(capacity, parseTime, s, t, u);
  }

  lemma CacheStepLog(capacity: nat, parseTime: DateParser, s: State, ca: Threads.Action, i: nat)
    requires LogOk(parseTime, s, i) && HandlerOk(capacity, parseTime, s, ca.thread) && Possible(s, CacheStep(ca))
    ensures LogOk(parseTime, Do(capacity, parseTime, s, CacheStep(ca)), i)
  {
    hide ComesFrom, FoundAt, CacheSpec.Run, Threads.Statement;
  }

  /** A step of the cache decides nothing and only adds to the lock order. */
  lemma CacheStepKeeps(capacity: nat, parseTime: DateParser, s: State, ca: Threads.Action)
    requires Possible(s, CacheStep(ca))
    ensures var s' := Do(capacity, parseTime, s, CacheStep(ca));
            && s'.cache == Threads.Do(capacity, s.cache, ca) && s.cache.log <= s'.cache.log
            && s'.judged == s.judged && s'.now == s.now
  {
    hide Threads.Statement;
  }

  lemma CacheStepOk(capacity: nat, parseTime: DateParser, s: State, ca: Threads.Action)
    requires Inv(capacity, parseTime, s) && Possible(s, CacheStep(ca))
    ensures Inv(capacity, parseTime, Do(capacity, parseTime, s, CacheStep(ca)))
  {
    var s' := Do(capacity, parseTime, s, CacheStep(ca));
    CacheStepKeeps(capacity, parseTime, s, ca);
    Threads.DoInv(capacity, s.cache, ca);
    CacheStepLogged(capacity, s.cache, ca);
    assert HandlerOk(capacity, parseTime, s, ca.thread);
    forall u: Threads.Tid ensures HandlerOk(capacity, parseTime, s', u) {
      hide *;
      CacheStepHandler(capacity, parseTime, s, ca, u);
    }
    hide Threads.Inv, Threads.Do, EntriesLogged, FoundAt, HandlerOk, LogOk, Do, Possible;
    forall i: nat ensures LogOk(parseTime, s', i) {
      assert LogOk(parseTime, s, i);
      CacheStepLog(capacity, parseTime, s, ca, i);
    }
    forall j | j in s'.judged ensures JudgedOk(capacity, s', j) {
      assert JudgedOk(capacity, s, j);
      FoundInLonger(capacity, s.cache.log, s'.cache.log, j.key, Some(j.entry), j.at);
    }
  }

  lemma HandlerStep(capacity: nat, parseTime: DateParser, s: State, a: Action, u: Threads.Tid)
    requires HandlerOk(capacity, parseTime, s, u) && Possible(s, a) && !a.CacheStep?
    requires !a.Pass? ==> HandlerOk(capacity, parseTime, s, a.thread)
    ensures HandlerOk(capacity, parseTime, Do(capacity, parseTime, s, a), u)
  {
    hide OutcomeOf, FoundAt;
  }

  lemma JudgeStep(capacity: nat, parseTime: DateParser, s: State, a: Action)
    requires Possible(s, a) && !a.CacheStep?
    requires !a.Pass? ==> HandlerOk(capacity, parseTime, s, a.thread)
    ensures var s' := Do(capacity, parseTime, s, a);
            && s.now <= s'.now && s.judged <= s'.judged
            && |s'.judged| <= |s.judged| + 1
            && forall j | j in s'.judged[|s.judged|..] :: JudgedOk(capacity, s', j) && j.time == s.now
  {
    hide OutcomeOf, FoundAt;
  }

  lemma HandlerStepOk(capacity: nat, parseTime: DateParser, s: State, a: Action)
    requires Inv(capacity, parseTime, s) && Possible(s, a) && !a.CacheStep?
    ensures Inv(capacity, parseTime, Do(capacity, parseTime, s, a))
  {
    var s' := Do(capacity, parseTime, s, a);
    assert s'.cache == s.cache && s'.origins == s.origins;
    assert !a.Pass? ==> HandlerOk(capacity, parseTime, s, a.thread);
    JudgeStep(capacity, parseTime, s, a);
    hide Threads.Inv, OutcomeOf, HandlerOk, EntriesLogged, Do, FoundAt, Possible;
    forall u: Threads.Tid ensures HandlerOk(capacity, parseTime, s', u) {
      HandlerStep(capacity, parseTime, s, a, u);
    }
    forall i: nat ensures LogOk(parseTime, s', i) {
      assert LogOk(parseTime, s, i);
    }
    forall j | j in s'.judged ensures JudgedOk(capacity, s', j) && j.time <= s'.now {
      if j in s.judged { assert JudgedOk(capacity, s, j); }
    }
    forall b | 0 <= b < |s.judged| ensures s'.judged[b].time <= s.now {
      assert JudgedOk(capacity, s, s.judged[b]);
    }
  }

  lemma {:induction false} ExecInv(capacity: nat, parseTime: DateParser, actions: seq<Action>)
    ensures Inv(capacity, parseTime, Exec(capacity, parseTime, actions))
  {
    if actions == [] {
      Threads.InitialInv(capacity);
    } else {
      var s, a := Exec(capacity, parseTime, actions[..|actions| - 1]), actions[|actions| - 1];
      ExecInv(capacity, parseTime, actions[..|actions| - 1]);
      hide Inv;
      if Possible(s, a) {
        match a
        case CacheStep(ca) =>
          CacheStepOk(capacity, parseTime, s, ca);
        case _ => HandlerStepOk(capacity, parseTime, s, a);
      }
    }
  }

  // ---------------------------------------------------------------- theorems over all runs

  /** The lock operations and statements among the actions that took effect. */
  function CacheActions(capacity: nat, parseTime: DateParser, actions: seq<Action>): seq<Threads.Action> {
    if actions == [] then []
    else
      var front, a := actions[..|actions| - 1], actions[|actions| - 1];
      var before := CacheActions(capacity, parseTime, front);
      if a.CacheStep? && Possible(Exec(capacity, parseTime, front), a) then before + [a.action] else before
  }

  lemma ExecStep(capacity: nat, parseTime: DateParser, actions: seq<Action>, a: Action)
    ensures Exec(capacity, parseTime, actions + [a])
            == Do(capacity, parseTime, Exec(capacity, parseTime, actions), a)
  {
    assert (actions + [a])[..|actions|] == actions;
  }

  lemma CacheOfDo(capacity: nat, parseTime: DateParser, s: State, a: Action)
    ensures Do(capacity, parseTime, s, a).cache ==
            if a.CacheStep? && Possible(s, a) then Threads.Do(capacity, s.cache, a.action) else s.cache
  {
    hide Threads.Do, Possible, OutcomeOf;
  }

  /** The cache of the whole system behaves as the cache of CacheThreads: what is proved there for all
      schedules holds here. */
  lemma {:induction false} CacheIsThreaded(capacity: nat, parseTime: DateParser, actions: seq<Action>)
    ensures Threads.Exec(capacity, CacheActions(capacity, parseTime, actions))
            == Exec(capacity, parseTime, actions).cache
  {
    if actions != [] {
      var front, a := actions[..|actions| - 1], actions[|actions| - 1];
      CacheIsThreaded(capacity, parseTime, front);
      var s, before := Exec(capacity, parseTime, front), CacheActions(capacity, parseTime, front);
      assert Exec(capacity, parseTime, actions) == Do(capacity, parseTime, s, a);
      CacheOfDo(capacity, parseTime, s, a);
      hide Exec, Do, Possible, Threads.Do;
      if a.CacheStep? && Possible(s, a) {
        Threads.ExecStep(capacity, before, a.action);
      }
    }
  }

  /** The forwarding run `o` answered a GET with status 200, ended well, gave its own client all it
      read, and what it stored under the key is what it gave its client: the text after the first
      empty line as the body, and the parsed header. */
  ghost predicate Produced(parseTime: DateParser, o: Origin, key: string, e: CacheEntry) {
    var out := OutcomeOf(parseTime, o);
    && key == KeyOf(o.request) && o.request.verb == "GET"
    && out.status == Finished && out.delivered == out.consumed
    && OK_PREFIX <= out.delivered && Contains(out.delivered, HEADER_END)
    && e.data == BodyOf(out.delivered)
    && StoreSpec(HeaderOfStream(out.delivered), BodyOf(out.delivered), ClockOf(parseTime, o)) == Some(e)
  }

  lemma OnlyFinishedStores(r: Parsed, w: World, clock: Clock)
    requires Forward(r, w, clock).stored.Some?
    ensures Forward(r, w, clock).status == Finished
  {
    hide *;
    if Forward(r, w, clock).status != Finished {
      FailureStoresNothing(r, w, clock);
    }
  }

  lemma StoredProduces(parseTime: DateParser, o: Origin, key: string, e: CacheEntry)
    requires ComesFrom(parseTime, o, key, e)
    ensures Produced(parseTime, o, key, e)
  {
    var out, clock := OutcomeOf(parseTime, o), ClockOf(parseTime, o);
    OnlyFinishedStores(o.request, o.world, clock);
    Transparent(o.request, o.world, clock);
    assert StoredFromStream(o.request, out.consumed, clock) == Some(e);
    hide Forward, StoreSpec, Find;
    StoredData(HeaderOfStream(out.delivered), BodyOf(out.delivered), clock, e);
  }

  /** Every entry in the map, at any moment and also in the middle of a write, comes from a forwarding
      run of a GET that was answered with status 200. */
  lemma EntriesComeFromGets(capacity: nat, parseTime: DateParser, actions: seq<Action>, key: string)
    requires key in Exec(capacity, parseTime, actions).cache.shared.entries
    ensures exists o :: Produced(parseTime, o, key, Exec(capacity, parseTime, actions).cache.shared.entries[key])
  {
    ExecInv(capacity, parseTime, actions);
    var s := Exec(capacity, parseTime, actions);
    hide Exec, ComesFrom, Produced, Threads.Inv;
    assert OpPut(key, s.cache.shared.entries[key]) in s.cache.log;
    var i :| 0 <= i < |s.cache.log| && s.cache.log[i] == OpPut(key, s.cache.shared.entries[key]);
    assert LogOk(parseTime, s, i);
    StoredProduces(parseTime, s.origins[i], key, s.cache.shared.entries[key]);
  }

  lemma ProducedDirectives(parseTime: DateParser, o: Origin, key: string, e: CacheEntry)
    requires Produced(parseTime, o, key, e)
    ensures !Contains(CacheControlOf(e), "no-store")
    ensures Contains(CacheControlOf(e), "no-cache") || Contains(CacheControlOf(e), "must-revalidate")
            ==> e.requiresValidation
  {
    var out := OutcomeOf(parseTime, o);
    StoredDirectives(HeaderOfStream(out.delivered), BodyOf(out.delivered), ClockOf(parseTime, o), e);
  }

  /** At no moment is an entry in the map whose Cache-Control says `no-store`. */
  lemma NoStoreNeverCached(capacity: nat, parseTime: DateParser, actions: seq<Action>, key: string)
    requires key in Exec(capacity, parseTime, actions).cache.shared.entries
    ensures !Contains(CacheControlOf(Exec(capacity, parseTime, actions).cache.shared.entries[key]), "no-store")
  {
    EntriesComeFromGets(capacity, parseTime, actions, key);
    var e := Exec(capacity, parseTime, actions).cache.shared.entries[key];
    var o :| Produced(parseTime, o, key, e);
    ProducedDirectives(parseTime, o, key, e);
  }

  /** The put that a lookup at position `at` of the lock order sees. */
  ghost predicate SeenPut(s: State, j: Judgement, i: nat) {
    && j.at <= |s.cache.log|
    && IsLastWrite(s.cache.log[..j.at], j.key, i) && s.cache.log[i] == OpPut(j.key, j.entry)
  }

  /** End to end: whatever any thread finds and judges is the value of the latest put on its key in
      lock order, and that put stored, byte for byte, what the storing thread had forwarded to its
      own client. */
  lemma EndToEnd(capacity: nat, parseTime: DateParser, actions: seq<Action>, j: Judgement)
    requires j in Exec(capacity, parseTime, actions).judged
    ensures var s := Exec(capacity, parseTime, actions);
            exists i: nat ::
              SeenPut(s, j, i) && i in s.origins && Produced(parseTime, s.origins[i], j.key, j.entry)
  {
    ExecInv(capacity, parseTime, actions);
    var s := Exec(capacity, parseTime, actions);
    hide Exec, ComesFrom, Produced, Threads.Inv;
    assert JudgedOk(capacity, s, j);
    GetReturnsLastPut(capacity, s.cache.log[..j.at], j.key);
    var i: nat :| IsLastWrite(s.cache.log[..j.at], j.key, i)
                  && s.cache.log[..j.at][i] == OpPut(j.key, j.entry);
    assert LogOk(parseTime, s, i);
    StoredProduces(parseTime, s.origins[i], j.key, j.entry);
    assert SeenPut(s, j, i);
  }

  /** No hit is ever served from an entry whose Cache-Control says `no-cache` or `must-revalidate`. */
  lemma DirectivesRespected(capacity: nat, parseTime: DateParser, actions: seq<Action>, j: Judgement)
    requires j in Exec(capacity, parseTime, actions).judged && j.served
    ensures !Contains(CacheControlOf(j.entry), "no-cache")
    ensures !Contains(CacheControlOf(j.entry), "must-revalidate")
  {
    EndToEnd(capacity, parseTime, actions, j);
    ExecInv(capacity, parseTime, actions);
    var s := Exec(capacity, parseTime, actions);
    assert JudgedOk(capacity, s, j);
    hide Exec, Inv, Threads.Inv, Produced, Contains;
    var i: nat :| SeenPut(s, j, i) && i in s.origins && Produced(parseTime, s.origins[i], j.key, j.entry);
    ProducedDirectives(parseTime, s.origins[i], j.key, j.entry);
  }

  /** The header lines of the response that the forwarding run `o` relayed. */
  function LinesRelayed(parseTime: DateParser, o: Origin): string {
    LinesOf(HeaderOfStream(OutcomeOf(parseTime, o).delivered))
  }

  lemma ProducedTimes(parseTime: DateParser, o: Origin, key: string, e: CacheEntry, now: Tick, s: int, m: int)
    requires Produced(parseTime, o, key, e) && !e.IsExpired(now)
    requires var controls := ValuesOf(LinesRelayed(parseTime, o), "Cache-Control");
             IsLastNumber(controls, "s-maxage=", -1, s) && IsLastNumber(controls, "max-age=", -1, m)
    ensures NoLaterThan(parseTime, LinesRelayed(parseTime, o), now, s, m)
  {
    var relayed, clock := OutcomeOf(parseTime, o).delivered, ClockOf(parseTime, o);
    hide OutcomeOf, StoreSpec, HeaderOfStream, LinesOf, BodyOf, Contains, IsLastNumber, ValuesOf, LastDate, FromTimeT;
    ServedUntil(HeaderOfStream(relayed), BodyOf(relayed), clock, e, now, s, m);
  }

  /** Date plus a positive s-maxage `s`, else Date plus a positive max-age `m`, else Expires if it is
      positive or its ticks stay negative. */
  ghost predicate NoLaterThan(parseTime: DateParser, lines: string, now: Tick, s: int, m: int) {
    var date := LastDate(ValuesOf(lines, "Date"), 0, parseTime);
    var expires := LastDate(ValuesOf(lines, "Expires"), 0, parseTime);
    && (s > 0 ==> now <= (date + s) * 1_000_000_000)
    && (s <= 0 && m > 0 ==> now <= (date + m) * 1_000_000_000)
    && (s <= 0 && m <= 0 && (expires > 0 || FromTimeT(expires) < 0) ==> now <= expires * 1_000_000_000)
  }

  /** Freshness over whole runs, from the text of the response that the storing thread relayed: a hit is
      served no later than Date plus s-maxage, or max-age if there is no positive s-maxage; without one,
      no later than Expires, however far in the future, and however far in the past unless its ticks wrap
      around (see `ExpiresBound`). */
  lemma HitsAreFresh(
    capacity: nat, parseTime: DateParser, actions: seq<Action>, j: Judgement, i: nat, s: int, m: int)
    requires var state := Exec(capacity, parseTime, actions);
             && j in state.judged && j.served && SeenPut(state, j, i) && i in state.origins
             && var controls := ValuesOf(LinesRelayed(parseTime, state.origins[i]), "Cache-Control");
                IsLastNumber(controls, "s-maxage=", -1, s) && IsLastNumber(controls, "max-age=", -1, m)
    ensures NoLaterThan(parseTime, LinesRelayed(parseTime, Exec(capacity, parseTime, actions).origins[i]), j.time, s, m)
  {
    ExecInv(capacity, parseTime, actions);
    var state := Exec(capacity, parseTime, actions);
    hide Exec, ComesFrom, Produced, Threads.Inv, LinesRelayed, EntriesLogged, IsLastNumber, ValuesOf, NoLaterThan;
    assert JudgedOk(capacity, state, j) && LogOk(parseTime, state, i);
    StoredProduces(parseTime, state.origins[i], j.key, j.entry);
    ProducedTimes(parseTime, state.origins[i], j.key, j.entry, j.time, s, m);
  }

  /** Hits form a time prefix: between two puts of a key, once one lookup has found the entry expired
      no later one serves it.  "Later" is the order of the judgements; the lookups may have taken the
      lock in either order. */
  lemma HitsFormTimePrefix(
    capacity: nat, parseTime: DateParser, actions: seq<Action>, a: nat, b: nat, i: nat)
    requires var s := Exec(capacity, parseTime, actions);
             && a < b < |s.judged| && s.judged[a].key == s.judged[b].key
             && SeenPut(s, s.judged[a], i) && SeenPut(s, s.judged[b], i)
    requires !Exec(capacity, parseTime, actions).judged[a].served
    ensures !Exec(capacity, parseTime, actions).judged[b].served
  {
    ExecInv(capacity, parseTime, actions);
    var s := Exec(capacity, parseTime, actions);
    hide Exec, Threads.Inv, HandlerOk, LogOk, EntriesLogged, FoundAt;
    assert JudgedOk(capacity, s, s.judged[a]) && JudgedOk(capacity, s, s.judged[b]);
    ExpiredStaysExpired(s.judged[a].entry, s.judged[a].time, s.judged[b].time);
  }

  /** What the client of a hit reads, against what the storing run parsed and relayed: the same status line
      and body, and every header that was stored, equal up to a carriage return. */
  ghost predicate ReadsAsStored(
    parseTime: DateParser, o: Origin, e: CacheEntry, text: string, reader: Clock)
  {
    var relayed := OutcomeOf(parseTime, o).delivered;
    var stored := ParseResponse(HeaderOfStream(relayed), parseTime, o.parsed);
    var read := ParseResponse(text, reader.parseTime, reader.parsed);
    && read.Some? && stored.Some? && BodyOf(text) == BodyOf(relayed)
    && ResponseLine(text) == ResponseLine(HeaderOfStream(relayed))
    && (forall k :: k in e.headers <==> k in STORED_HEADERS && GetHeader(stored.value, k) != "")
    && (forall k :: k in e.headers ==>
          k in read.value.headers && SameButCR(read.value.headers[k], GetHeader(stored.value, k)))
  }

  lemma ProducedReadBack(
    parseTime: DateParser, o: Origin, key: string, e: CacheEntry, order: seq<string>, reader: Clock)
    requires Produced(parseTime, o, key, e) && IsOrder(order, e.headers)
    ensures forall k :: k in order ==> k in e.headers
    ensures ReadsAsStored(parseTime, o, e, EmitHeaders(e, order) + e.data, reader)
  {
    var relayed := OutcomeOf(parseTime, o).delivered;
    hide StoreSpec, OutcomeOf, ParseResponse, IsOrder, EmitHeaders, HeaderOfStream, BodyOf, Contains, GetHeader,
      SameButCR;
    HeadersAsParsed(HeaderOfStream(relayed), BodyOf(relayed), ClockOf(parseTime, o), e, order, reader);
  }

  /** Under every send schedule and for every order of the headers the client of a hit is given a prefix
      of one response, and when the hit succeeds it reads from it the body that the storing thread's
      client was given, and the headers that were stored of what the storing thread parsed. */
  lemma HitReadBack(
    capacity: nat, parseTime: DateParser, actions: seq<Action>, j: Judgement, order: seq<string>,
    sends: seq<SendEvent>, reader: Clock)
    requires j in Exec(capacity, parseTime, actions).judged && IsOrder(order, j.entry.headers)
    ensures forall k :: k in order ==> k in j.entry.headers
    ensures var s, wire := Exec(capacity, parseTime, actions), EmitHeaders(j.entry, order) + j.entry.data;
            var out := ServeSpec(j.entry, order, sends);
            && out.delivered <= wire
            && exists i: nat :: SeenPut(s, j, i) && i in s.origins
                 && (out.status == Sent ==>
                       ReadsAsStored(parseTime, s.origins[i], j.entry, out.delivered, reader))
  {
    EndToEnd(capacity, parseTime, actions, j);
    var s := Exec(capacity, parseTime, actions);
    hide *;
    var i: nat :| SeenPut(s, j, i) && i in s.origins && Produced(parseTime, s.origins[i], j.key, j.entry);
    ProducedReadBack(parseTime, s.origins[i], j.key, j.entry, order, reader);
    ServesWholeEntry(j.entry, order, sends);
  }

  // ---------------------------------------------------------------- a fresh entry is served

  /** The steps of one thread that answers a GET by asking the cache and judging what it found. */
  function Lookup(t: Threads.Tid, r: Parsed): seq<Action> {
    [Begin(t, r)] + [CacheStep(Threads.Acquire(t, OpGet(KeyOf(r))))] + [CacheStep(Threads.Execute(t))]
    + [CacheStep(Threads.Release(t))] + [Judge(t)]
  }

  /** The state in which the lookup has returned and the answer is about to be judged. */
  function BeforeJudge(capacity: nat, parseTime: DateParser, s: State, t: Threads.Tid, r: Parsed): State {
    var s1 := Do(capacity, parseTime, s, Begin(t, r));
    var s2 := Do(capacity, parseTime, s1, CacheStep(Threads.Acquire(t, OpGet(KeyOf(r)))));
    var s3 := Do(capacity, parseTime, s2, CacheStep(Threads.Execute(t)));
    Do(capacity, parseTime, s3, CacheStep(Threads.Release(t)))
  }

  function AfterLookup(capacity: nat, parseTime: DateParser, s: State, t: Threads.Tid, r: Parsed): State {
    Do(capacity, parseTime, BeforeJudge(capacity, parseTime, s, t, r), Judge(t))
  }

  lemma LookupRuns(capacity: nat, parseTime: DateParser, actions: seq<Action>, t: Threads.Tid, r: Parsed)
    ensures Exec(capacity, parseTime, actions + Lookup(t, r))
            == AfterLookup(capacity, parseTime, Exec(capacity, parseTime, actions), t, r)
  {
    var acquire, execute := CacheStep(Threads.Acquire(t, OpGet(KeyOf(r)))), CacheStep(Threads.Execute(t));
    var release, judge := CacheStep(Threads.Release(t)), Judge(t);
    var begun := actions + [Begin(t, r)];
    assert actions + Lookup(t, r) == begun + [acquire] + [execute] + [release] + [judge];
    hide Exec, Do, KeyOf, Lookup;
    ExecStep(capacity, parseTime, actions, Begin(t, r));
    ExecStep(capacity, parseTime, begun, acquire);
    ExecStep(capacity, parseTime, begun + [acquire], execute);
    ExecStep(capacity, parseTime, begun + [acquire] + [execute], release);
    ExecStep(capacity, parseTime, begun + [acquire] + [execute] + [release], judge);
  }

  /** A thread that may start a lookup: it rests, its last operation is over and no writer is at work. */
  predicate MayLookUp(s: State, t: Threads.Tid) {
    HandlerOf(s, t) == Resting && Threads.ThreadOf(s.cache, t).pc.Idle? && s.cache.writer == None
  }

  lemma LookupFinds(capacity: nat, parseTime: DateParser, s: State, t: Threads.Tid, r: Parsed)
    requires MayLookUp(s, t) && r.verb == "GET"
    ensures var s' := BeforeJudge(capacity, parseTime, s, t, r);
            && HandlerOf(s', t) == Judging(r, Get(Threads.Abs(s.cache.shared), KeyOf(r)), |s.cache.log|)
            && s'.now == s.now && s'.judged == s.judged
  {
    hide KeyOf, OutcomeOf;
  }

  /** Completeness: in any reachable state where a thread may look up, a GET is served from the cache
      exactly if the map holds an unexpired entry for it, and that entry is the one served.  Otherwise
      the thread goes on to forward the request. */
  lemma ServedExactlyIfHeld(
    capacity: nat, parseTime: DateParser, actions: seq<Action>, t: Threads.Tid, r: Parsed)
    requires MayLookUp(Exec(capacity, parseTime, actions), t) && r.verb == "GET"
    ensures var s := Exec(capacity, parseTime, actions);
            var s' := Exec(capacity, parseTime, actions + Lookup(t, r));
            var key, entries := KeyOf(r), s.cache.shared.entries;
            if key in entries && !entries[key].IsExpired(s.now) then
              && s'.judged == s.judged + [Judgement(key, entries[key], |s.cache.log|, s.now, true)]
              && HandlerOf(s', t) == Resting
            else
              && s.judged <= s'.judged && (forall j | j in s'.judged[|s.judged|..] :: !j.served)
              && HandlerOf(s', t) == Forwarding(r)
  {
    LookupRuns(capacity, parseTime, actions, t, r);
    LookupFinds(capacity, parseTime, Exec(capacity, parseTime, actions), t, r);
    hide Exec, KeyOf, OutcomeOf, Lookup, BeforeJudge, Threads.Do;
  }

  // ---------------------------------------------------------------- what is stored is served

  /** The state after a sequence of actions from another state. */
  function RunFrom(capacity: nat, parseTime: DateParser, s: State, actions: seq<Action>): State
    decreases |actions|
  {
    if actions == [] then s
    else RunFrom(capacity, parseTime, Do(capacity, parseTime, s, actions[0]), actions[1..])
  }

  lemma {:induction false} ExecAppend(capacity: nat, parseTime: DateParser, before: seq<Action>, more: seq<Action>)
    ensures Exec(capacity, parseTime, before + more)
            == RunFrom(capacity, parseTime, Exec(capacity, parseTime, before), more)
    decreases |more|
  {
    if more == [] {
      assert before + more == before;
    } else {
      assert before + more == (before + [more[0]]) + more[1..];
      ExecStep(capacity, parseTime, before, more[0]);
      hide Exec, Do;
      ExecAppend(capacity, parseTime, before + [more[0]], more[1..]);
    }
  }

  lemma {:induction false} RunFromAppend(
    capacity: nat, parseTime: DateParser, s: State, a: seq<Action>, b: seq<Action>)
    ensures RunFrom(capacity, parseTime, s, a + b)
            == RunFrom(capacity, parseTime, RunFrom(capacity, parseTime, s, a), b)
    decreases |a|
  {
    if a == [] {
      assert a + b == b;
    } else {
      assert (a + b)[1..] == a[1..] + b;
      hide Do;
      RunFromAppend(capacity, parseTime, Do(capacity, parseTime, s, a[0]), a[1..], b);
    }
  }

  /** `n` turns of one thread inside its cache operation. */
  function TurnActions(t: Threads.Tid, n: nat): seq<Action> {
    if n == 0 then [] else [CacheStep(Threads.Execute(t))] + TurnActions(t, n - 1)
  }

  lemma {:induction false} TurnsRun(capacity: nat, parseTime: DateParser, s: State, t: Threads.Tid, n: nat)
    ensures RunFrom(capacity, parseTime, s, TurnActions(t, n))
            == s.(cache := Threads.Executes(capacity, s.cache, t, n))
    decreases n
  {
    if n > 0 {
      var a := CacheStep(Threads.Execute(t));
      var s1 := Do(capacity, parseTime, s, a);
      assert TurnActions(t, n)[0] == a && TurnActions(t, n)[1..] == TurnActions(t, n - 1);
      assert s1 == s.(cache := Threads.Do(capacity, s.cache, Threads.Execute(t))) by { hide Threads.Statement; }
      hide Do, Threads.Do;
      TurnsRun(capacity, parseTime, s1, t, n - 1);
    }
  }

  /** What a thread does with a response: it fetches it, puts what it stores and lets go of the lock. */
  function StoreActions(t: Threads.Tid, r: Parsed, w: World, created: Tick, e: CacheEntry): seq<Action> {
    [Fetch(t, w, created)] + [CacheStep(Threads.Acquire(t, OpPut(KeyOf(r), e)))]
    + TurnActions(t, Threads.LONGEST) + [CacheStep(Threads.Release(t))]
  }

  /** A storable response leads to a put, and the put to an entry: from any reachable state in which a
      thread is to forward a request and the lock is free, if the run of that request stores `e` then the
      map holds `e` under its key when the thread is done. */
  lemma StoredIsHeld(
    capacity: nat, parseTime: DateParser, actions: seq<Action>, t: Threads.Tid, r: Parsed, w: World,
    created: Tick, e: CacheEntry)
    requires var s := Exec(capacity, parseTime, actions);
             && HandlerOf(s, t) == Forwarding(r) && Threads.ThreadOf(s.cache, t).pc.Idle?
             && Threads.Free(s.cache) && s.now <= created
             && Forward(r, w, Clock(s.now, created, parseTime)).stored == Some(e)
    ensures var s := Exec(capacity, parseTime, actions);
            var s' := Exec(capacity, parseTime, actions + StoreActions(t, r, w, created, e));
            Held(s, s', t, KeyOf(r), e)
  {
    ExecInv(capacity, parseTime, actions);
    var s := Exec(capacity, parseTime, actions);
    ExecAppend(capacity, parseTime, actions, StoreActions(t, r, w, created, e));
    assert Threads.Inv(capacity, s.cache);
    hide Exec, Inv, Threads.Inv, Forward;
    StoreRuns(capacity, parseTime, s, t, r, w, created, e);
  }

  lemma RunOne(capacity: nat, parseTime: DateParser, s: State, a: Action)
    ensures RunFrom(capacity, parseTime, s, [a]) == Do(capacity, parseTime, s, a)
  {
    hide Do;
    assert [a][1..] == [];
  }

  lemma StoreSteps(
    capacity: nat, parseTime: DateParser, s: State, t: Threads.Tid, r: Parsed, w: World, created: Tick, e: CacheEntry)
    ensures var acquire, release := CacheStep(Threads.Acquire(t, OpPut(KeyOf(r), e))), CacheStep(Threads.Release(t));
            var s2 := Do(capacity, parseTime, Do(capacity, parseTime, s, Fetch(t, w, created)), acquire);
            var s3 := s2.(cache := Threads.Executes(capacity, s2.cache, t, Threads.LONGEST));
            RunFrom(capacity, parseTime, s, StoreActions(t, r, w, created, e)) == Do(capacity, parseTime, s3, release)
  {
    var fetch, acquire := [Fetch(t, w, created)], [CacheStep(Threads.Acquire(t, OpPut(KeyOf(r), e)))];
    var turns, release := TurnActions(t, Threads.LONGEST), [CacheStep(Threads.Release(t))];
    assert StoreActions(t, r, w, created, e) == fetch + acquire + turns + release;
    hide *;
    RunFromAppend(capacity, parseTime, s, fetch + acquire + turns, release);
    RunFromAppend(capacity, parseTime, s, fetch + acquire, turns);
    RunFromAppend(capacity, parseTime, s, fetch, acquire);
    RunOne(capacity, parseTime, s, fetch[0]);
    var s1 := Do(capacity, parseTime, s, fetch[0]);
    RunOne(capacity, parseTime, s1, acquire[0]);
    var s2 := Do(capacity, parseTime, s1, acquire[0]);
    TurnsRun(capacity, parseTime, s2, t, Threads.LONGEST);
    RunOne(capacity, parseTime, s2.(cache := Threads.Executes(capacity, s2.cache, t, Threads.LONGEST)), release[0]);
  }

  lemma FetchStep(
    capacity: nat, parseTime: DateParser, s: State, t: Threads.Tid, r: Parsed, w: World, created: Tick, e: CacheEntry)
    requires HandlerOf(s, t) == Forwarding(r) && s.now <= created
    requires Forward(r, w, Clock(s.now, created, parseTime)).stored == Some(e)
    ensures Do(capacity, parseTime, s, Fetch(t, w, created))
            == s.(handlers := s.handlers[t := Storing(r, e, Origin(r, w, s.now, created))])
  {
    hide Forward, KeyOf;
  }

  lemma PutStep(capacity: nat, parseTime: DateParser, s: State, t: Threads.Tid, op: Op)
    requires HandlerOf(s, t).Storing? && MayStart(HandlerOf(s, t), op)
    requires Threads.Enabled(s.cache, Threads.Acquire(t, op))
    ensures Do(capacity, parseTime, s, CacheStep(Threads.Acquire(t, op)))
            == s.(cache := Threads.Do(capacity, s.cache, Threads.Acquire(t, op)),
                  origins := s.origins[|s.cache.log| := HandlerOf(s, t).origin])
  {
    hide Threads.Do, Threads.Enabled, KeyOf;
  }

  lemma LetGoStep(capacity: nat, parseTime: DateParser, s: State, t: Threads.Tid)
    requires HandlerOf(s, t).Storing? && Threads.Enabled(s.cache, Threads.Release(t))
    ensures Do(capacity, parseTime, s, CacheStep(Threads.Release(t)))
            == s.(cache := Threads.Do(capacity, s.cache, Threads.Release(t)), handlers := s.handlers[t := Resting])
  {
    hide Threads.Do;
  }

  /** The parts of a state that such a store touches. */
  ghost predicate Held(s: State, s': State, t: Threads.Tid, key: string, e: CacheEntry) {
    && key in s'.cache.shared.entries && s'.cache.shared.entries[key] == e
    && s'.cache.log == s.cache.log + [OpPut(key, e)]
    && HandlerOf(s', t) == Resting && Threads.Free(s'.cache) && s'.now == s.now
    && Threads.ThreadOf(s'.cache, t).pc.Idle?
    && forall u: Threads.Tid :: u != t ==>
         HandlerOf(s', u) == HandlerOf(s, u) && Threads.ThreadOf(s'.cache, u) == Threads.ThreadOf(s.cache, u)
  }

  lemma StoreRuns(
    capacity: nat, parseTime: DateParser, s: State, t: Threads.Tid, r: Parsed, w: World, created: Tick, e: CacheEntry)
    requires Threads.Inv(capacity, s.cache)
    requires HandlerOf(s, t) == Forwarding(r) && Threads.ThreadOf(s.cache, t).pc.Idle?
    requires Threads.Free(s.cache) && s.now <= created
    requires Forward(r, w, Clock(s.now, created, parseTime)).stored == Some(e)
    ensures Held(s, RunFrom(capacity, parseTime, s, StoreActions(t, r, w, created, e)), t, KeyOf(r), e)
  {
    hide *;
    var key := KeyOf(r);
    var op := OpPut(key, e);
    EffectOfPut(capacity, s.cache.shared, key, e);
    Threads.WriteAlone(capacity, s.cache, t, op);
    var o := Origin(r, w, s.now, created);
    MayPut(r, e, o);
    StoreSteps(capacity, parseTime, s, t, r, w, created, e);
    FetchStep(capacity, parseTime, s, t, r, w, created, e);
    var s1 := s.(handlers := s.handlers[t := Storing(r, e, o)]);
    HandlerAfter(s, t, Storing(r, e, o));
    PutStep(capacity, parseTime, s1, t, op);
    var c1 := Threads.Do(capacity, s.cache, Threads.Acquire(t, op));
    var s2 := s1.(cache := c1, origins := s.origins[|s.cache.log| := o]);
    var s3 := s2.(cache := Threads.Executes(capacity, c1, t, Threads.LONGEST));
    HandlerAfter(s3.(handlers := s.handlers), t, Storing(r, e, o));
    LetGoStep(capacity, parseTime, s3, t);
    HeldAfter(s, s3, Threads.Do(capacity, s3.cache, Threads.Release(t)), t, Storing(r, e, o), key, e);
  }

  lemma EffectOfPut(capacity: nat, shared: Threads.Shared, key: string, e: CacheEntry)
    ensures var after := Threads.Effect(capacity, shared, OpPut(key, e)).entries;
            key in after && after[key] == e && !IsRead(OpPut(key, e))
  {}

  lemma MayPut(r: Parsed, e: CacheEntry, o: Origin)
    ensures MayStart(Storing(r, e, o), OpPut(KeyOf(r), e))
  {}

  lemma HandlerAfter(s: State, t: Threads.Tid, p: Phase)
    ensures HandlerOf(s.(handlers := s.handlers[t := p]), t) == p
  {}

  lemma HeldAfter(
    s: State, s3: State, c: Threads.State, t: Threads.Tid, p: Phase, key: string, e: CacheEntry)
    requires key in c.shared.entries && c.shared.entries[key] == e && c.log == s.cache.log + [OpPut(key, e)]
    requires Threads.Free(c) && Threads.ThreadOf(c, t).pc.Idle? && s3.now == s.now
    requires forall u: Threads.Tid :: u != t ==> Threads.ThreadOf(c, u) == Threads.ThreadOf(s.cache, u)
    requires s3.handlers == s.handlers[t := p]
    ensures Held(s, s3.(cache := c, handlers := s3.handlers[t := Resting]), t, key, e)
  {
    hide Threads.ThreadOf, Threads.Free;
  }

  /** What is stored is served: right after such a store, any thread that is free to look up is served the
      new entry, exactly if it is not expired. */
  lemma StoredIsServed(
    capacity: nat, parseTime: DateParser, actions: seq<Action>, t: Threads.Tid, r: Parsed, w: World,
    created: Tick, e: CacheEntry, u: Threads.Tid, r': Parsed)
    requires var s := Exec(capacity, parseTime, actions);
             && HandlerOf(s, t) == Forwarding(r) && Threads.ThreadOf(s.cache, t).pc.Idle?
             && Threads.Free(s.cache) && s.now <= created
             && Forward(r, w, Clock(s.now, created, parseTime)).stored == Some(e)
             && (u == t || (HandlerOf(s, u) == Resting && Threads.ThreadOf(s.cache, u).pc.Idle?))
    requires r'.verb == "GET" && KeyOf(r') == KeyOf(r)
    ensures var stored := actions + StoreActions(t, r, w, created, e);
            var before, after := Exec(capacity, parseTime, stored), Exec(capacity, parseTime, stored + Lookup(u, r'));
            var now := Exec(capacity, parseTime, actions).now;
            if e.IsExpired(now) then HandlerOf(after, u) == Forwarding(r')
            else after.judged == before.judged + [Judgement(KeyOf(r'), e, |before.cache.log|, now, true)]
  {
    hide *;
    StoredIsHeld(capacity, parseTime, actions, t, r, w, created, e);
    var stored := actions + StoreActions(t, r, w, created, e);
    FreeToLookUp(Exec(capacity, parseTime, actions), Exec(capacity, parseTime, stored), t, u, KeyOf(r), e);
    ServedExactlyIfHeld(capacity, parseTime, stored, u, r');
  }

  lemma FreeToLookUp(s: State, s': State, t: Threads.Tid, u: Threads.Tid, key: string, e: CacheEntry)
    requires Held(s, s', t, key, e)
    requires u == t || (HandlerOf(s, u) == Resting && Threads.ThreadOf(s.cache, u).pc.Idle?)
    ensures MayLookUp(s', u) && s'.now == s.now
    ensures key in s'.cache.shared.entries && s'.cache.shared.entries[key] == e
  {}

  /** A POST never asks the cache and never stores. */
  lemma PostPassesBy(
    capacity: nat, parseTime: DateParser, s: State, t: Threads.Tid, r: Parsed, w: World, created: Tick)
    requires HandlerOf(s, t) == Resting && Threads.ThreadOf(s.cache, t).pc.Idle?
    requires r.verb == "POST" && s.now <= created
    ensures var s1 := Do(capacity, parseTime, s, Begin(t, r));
            var s2 := Do(capacity, parseTime, s1, Fetch(t, w, created));
            && HandlerOf(s1, t) == Forwarding(r) && s2.cache == s.cache && HandlerOf(s2, t) == Resting
  {
    StoresExactly(r, w, Clock(s.now, created, parseTime));
    hide Forward, ParseResponse, HeaderArrives, HeaderOfStream;
  }
}
