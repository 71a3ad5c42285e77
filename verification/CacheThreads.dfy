/** The cache under any number of threads: a step system with one step per lock operation and per
    statement of the operations of proxy/cache.cpp.  A schedule is a sequence of actions; an action
    that is not enabled (a blocked lock, a thread with nothing to do) leaves the state as it is, so
    every sequence of actions is a schedule. */
module CacheThreads {
  import opened CacheEntries
  import opened CacheSpec
  import opened CacheTraces
  import opened Linking

  /** A list cell; the identity tells a cell apart from an erased one with the same key. */
  datatype Cell = Cell(id: nat, key: string)

  function CellKey(cell: Cell): string { cell.key }

  datatype Shared = Shared(
    entries: map<string, CacheEntry>, list: seq<Cell>, iterators: map<string, Cell>, nextId: nat)

  /** The next statement of an operation in progress. */
  datatype Line =
    | Begin
    | EvictTest | EvictBack | EvictPop(oldest: string)
    | EvictEntry(oldest: string) | EvictIterator(oldest: string)
    | StoreEntry | FindIterator | EraseCell(cell: Cell) | PushFront | SetIterator
    | RemoveEntry | RemoveFind | RemoveCell(cell: Cell) | RemoveIterator
    | ClearList | ClearIterators

  /** `Undefined` is what the language makes of `back()` on an empty list or of a dead iterator. */
  datatype Pc = Idle | At(op: Op, line: Line) | Finished(op: Op, reply: Reply) | Undefined

  function Unlink(list: seq<Cell>, cell: Cell): seq<Cell> {
    if list == [] then []
    else if list[0] == cell then Unlink(list[1..], cell)
    else [list[0]] + Unlink(list[1..], cell)
  }

  /** One statement of the operation `op`, executed by the thread that holds the lock. */
  function Statement(capacity: nat, sh: Shared, op: Op, line: Line): (Shared, Pc) {
    match line
    case Begin =>
      (match op
       case OpGet(k) =>
         (sh, Finished(op, Found(if k in sh.entries then Some(sh.entries[k]) else None)))
       case OpSize => (sh, Finished(op, Count(|sh.entries|)))
       case OpPut(_, _) => (sh, At(op, if |sh.entries| >= capacity then EvictTest else StoreEntry))
       case OpRemove(k) => (sh, if k in sh.entries then At(op, RemoveEntry) else Finished(op, Unit))
       case OpClear => (sh.(entries := map[]), At(op, ClearList)))
    case EvictTest => (sh, At(op, if sh.list == [] then StoreEntry else EvictBack))
    case EvictBack =>
      if sh.list == [] then (sh, Undefined)
      else (sh, At(op, EvictPop(sh.list[|sh.list| - 1].key)))
    case EvictPop(oldest) =>
      if sh.list == [] then (sh, Undefined)
      else (sh.(list := sh.list[..|sh.list| - 1]), At(op, EvictEntry(oldest)))
    case EvictEntry(oldest) =>
      (sh.(entries := sh.entries - {oldest}), At(op, EvictIterator(oldest)))
    case EvictIterator(oldest) =>
      (sh.(iterators := sh.iterators - {oldest}), At(op, StoreEntry))
    case StoreEntry =>
      if op.OpPut? then (sh.(entries := sh.entries[op.key := op.value]), At(op, FindIterator))
      else (sh, Undefined)
    case FindIterator =>
      if !op.OpPut? then (sh, Undefined)
      else (sh, At(op, if op.key in sh.iterators then EraseCell(sh.iterators[op.key]) else PushFront))
    case EraseCell(cell) =>
      if cell !in sh.list then (sh, Undefined)
      else (sh.(list := Unlink(sh.list, cell)), At(op, PushFront))
    case PushFront =>
      if !op.OpPut? then (sh, Undefined)
      else (sh.(list := [Cell(sh.nextId, op.key)] + sh.list, nextId := sh.nextId + 1), At(op, SetIterator))
    case SetIterator =>
      if !op.OpPut? || sh.list == [] then (sh, Undefined)
      else (sh.(iterators := sh.iterators[op.key := sh.list[0]]), Finished(op, Unit))
    case RemoveEntry =>
      if op.OpRemove? then (sh.(entries := sh.entries - {op.key}), At(op, RemoveFind))
      else (sh, Undefined)
    case RemoveFind =>
      if !op.OpRemove? then (sh, Undefined)
      else (sh, if op.key in sh.iterators then At(op, RemoveCell(sh.iterators[op.key]))
                else Finished(op, Unit))
    case RemoveCell(cell) =>
      if cell !in sh.list then (sh, Undefined)
      else (sh.(list := Unlink(sh.list, cell)), At(op, RemoveIterator))
    case RemoveIterator =>
      if op.OpRemove? then (sh.(iterators := sh.iterators - {op.key}), Finished(op, Unit))
      else (sh, Undefined)
    case ClearList => (sh.(list := []), At(op, ClearIterators))
    case ClearIterators => (sh.(iterators := map[]), Finished(op, Unit))
  }

  type Tid = nat

  /** A thread's place in its operation, and the position of that operation in the lock order. */
  datatype Thread = Thread(pc: Pc, index: nat)

  datatype Return = Return(thread: Tid, index: nat, op: Op, reply: Reply)

  /** `log` is the lock order: the operations in the order in which their guards were constructed.
      `settled` is the shared structure as the last writer left it. */
  datatype State = State(
    shared: Shared, readers: set<Tid>, writer: Option<Tid>, threads: map<Tid, Thread>,
    log: seq<Op>, replies: seq<Return>, settled: Shared)

  datatype Action = Acquire(thread: Tid, op: Op) | Execute(thread: Tid) | Release(thread: Tid)

  const START := Shared(map[], [], map[], 0)
  const INITIAL := State(START, {}, None, map[], [], [], START)

  function ThreadOf(s: State, t: Tid): Thread {
    if t in s.threads then s.threads[t] else Thread(Idle, 0)
  }

  predicate Enabled(s: State, a: Action) {
    match a
    case Acquire(t, op) =>
      && ThreadOf(s, t).pc.Idle? && s.writer.None?
      && (IsRead(op) || s.readers == {})
    case Execute(t) => ThreadOf(s, t).pc.At?
    case Release(t) => ThreadOf(s, t).pc.Finished?
  }

  function Do(capacity: nat, s: State, a: Action): State {
    if !Enabled(s, a) then s
    else
      match a
      case Acquire(t, op) =>
        s.(threads := s.threads[t := Thread(At(op, Begin), |s.log|)],
           log := s.log + [op],
           readers := if IsRead(op) then s.readers + {t} else s.readers,
           writer := if IsRead(op) then None else Some(t))
      case Execute(t) =>
        var th := ThreadOf(s, t);
        var (shared, pc) := Statement(capacity, s.shared, th.pc.op, th.pc.line);
        s.(shared := shared, threads := s.threads[t := th.(pc := pc)])
      case Release(t) =>
        var th := ThreadOf(s, t);
        s.(threads := s.threads[t := Thread(Idle, 0)],
           readers := s.readers - {t},
           writer := if s.writer == Some(t) then None else s.writer,
           settled := s.shared,
           replies := s.replies + [Return(t, th.index, th.pc.op, th.pc.reply)])
  }

  function Exec(capacity: nat, actions: seq<Action>): State {
    if actions == [] then INITIAL
    else Do(capacity, Exec(capacity, actions[..|actions| - 1]), actions[|actions| - 1])
  }

  lemma ExecStep(capacity: nat, actions: seq<Action>, a: Action)
    ensures Exec(capacity, actions + [a]) == Do(capacity, Exec(capacity, actions), a)
  {
    assert (actions + [a])[..|actions|] == actions;
  }

  // ---------------------------------------------------------------- the shared structure

  function Abs(sh: Shared): CacheState { CacheState(KeysOf(sh.list, CellKey), sh.entries) }

  /** The representation invariant: the three structures agree on the keys, and each stored iterator
      is the live cell holding its key. */
  ghost predicate Rep(sh: Shared) {
    Linked(sh.list, sh.iterators, CellKey) && sh.entries.Keys == sh.iterators.Keys
  }

  function Evicted(sh: Shared): Shared {
    if sh.list == [] then sh
    else
      var oldest := sh.list[|sh.list| - 1].key;
      sh.(list := sh.list[..|sh.list| - 1], entries := sh.entries - {oldest},
          iterators := sh.iterators - {oldest})
  }

  function Room(capacity: nat, sh: Shared): Shared {
    if |sh.entries| >= capacity then Evicted(sh) else sh
  }

  function Unlinked(sh: Shared, key: string): Shared {
    if key in sh.iterators then sh.(list := Unlink(sh.list, sh.iterators[key])) else sh
  }

  function Pushed(sh: Shared, key: string): Shared {
    sh.(list := [Cell(sh.nextId, key)] + sh.list, nextId := sh.nextId + 1)
  }

  function Stored(sh: Shared, key: string, value: CacheEntry): Shared {
    var pushed := Pushed(Unlinked(sh.(entries := sh.entries[key := value]), key), key);
    pushed.(iterators := pushed.iterators[key := pushed.list[0]])
  }

  function Removed(sh: Shared, key: string): Shared {
    if key !in sh.entries then sh
    else
      var s := Unlinked(sh, key);
      s.(entries := s.entries - {key}, iterators := s.iterators - {key})
  }

  /** What the whole operation makes of a shared structure that no one else changes. */
  function Effect(capacity: nat, sh: Shared, op: Op): Shared {
    match op
    case OpPut(k, v) => Stored(Room(capacity, sh), k, v)
    case OpRemove(k) => Removed(sh, k)
    case OpClear => sh.(entries := map[], list := [], iterators := map[])
    case _ => sh
  }

  lemma LiveIterator(sh: Shared, key: string)
    requires Rep(sh)
    ensures key in sh.iterators <==> key in sh.entries
    ensures key in sh.iterators ==> sh.iterators[key] in sh.list && sh.iterators[key].key == key
  {
    assert key in sh.iterators.Keys <==> key in sh.entries.Keys;
    LinkedKeys(sh.list, sh.iterators, CellKey);
    if key in sh.iterators {
      var i :| 0 <= i < |sh.list| && KeysOf(sh.list, CellKey)[i] == key;
    }
  }

  lemma {:induction false} UnlinkNothing(list: seq<Cell>, cell: Cell)
    requires cell !in list
    ensures Unlink(list, cell) == list
  {
    if list != [] {
      assert list[0] in list;
      UnlinkNothing(list[1..], cell);
    }
  }

  /** A cell whose key has no iterator is not in the list. */
  lemma NotLinked(list: seq<Cell>, iterators: map<string, Cell>, cell: Cell)
    requires Linked(list, iterators, CellKey) && cell.key !in iterators
    ensures cell !in list && Without(KeysOf(list, CellKey), cell.key) == KeysOf(list, CellKey)
  {
    LinkedKeys(list, iterators, CellKey);
    WithoutAbsent(KeysOf(list, CellKey), cell.key);
  }

  lemma {:induction false} LinkedUnlink(list: seq<Cell>, iterators: map<string, Cell>, cell: Cell)
    requires Linked(list, iterators, CellKey) && cell in list
    ensures Linked(Unlink(list, cell), iterators - {cell.key}, CellKey)
    ensures KeysOf(Unlink(list, cell), CellKey) == Without(KeysOf(list, CellKey), cell.key)
  {
    var first, tail := list[0], list[1..];
    var rest := iterators - {first.key};
    assert KeysOf(list, CellKey) == [first.key] + KeysOf(tail, CellKey);
    if first == cell {
      NotLinked(tail, rest, cell);
      UnlinkNothing(tail, cell);
    } else {
      assert cell in tail;
      if cell.key == first.key { NotLinked(tail, rest, cell); }
      LinkedUnlink(tail, rest, cell);
      assert rest - {cell.key} == iterators - {cell.key} - {first.key};
      assert KeysOf([first] + Unlink(tail, cell), CellKey) == [first.key] + KeysOf(Unlink(tail, cell), CellKey);
    }
  }

  /** `pop_back` erases the last cell. */
  lemma {:induction false} UnlinkLast(list: seq<Cell>, iterators: map<string, Cell>)
    requires Linked(list, iterators, CellKey) && list != []
    ensures Unlink(list, list[|list| - 1]) == list[..|list| - 1]
  {
    var first, tail, last := list[0], list[1..], list[|list| - 1];
    if tail != [] {
      UnlinkLast(tail, iterators - {first.key});
      LinkedKeys(list, iterators, CellKey);
      assert KeysOf(list, CellKey)[0] != KeysOf(list, CellKey)[|list| - 1];
      hide Linked, KeysOf;
      assert first != last && tail[|tail| - 1] == last;
      assert list[..|list| - 1] == [first] + tail[..|tail| - 1];
    }
  }

  lemma EvictedRep(sh: Shared)
    requires Rep(sh)
    ensures Rep(Evicted(sh)) && Abs(Evicted(sh)) == EvictOldest(Abs(sh))
  {
    if sh.list != [] {
      var last := |sh.list| - 1;
      LinkedUnlink(sh.list, sh.iterators, sh.list[last]);
      UnlinkLast(sh.list, sh.iterators);
      assert KeysOf(sh.list[..last], CellKey) == KeysOf(sh.list, CellKey)[..last];
    }
  }

  lemma StoredRep(sh: Shared, key: string, value: CacheEntry)
    requires Rep(sh)
    ensures Rep(Stored(sh, key, value)) && Abs(Stored(sh, key, value)) == Store(Abs(sh), key, value)
  {
    var cell, after := Cell(sh.nextId, key), Stored(sh, key, value);
    var rest := Unlinked(sh, key).list;
    LiveIterator(sh, key);
    if key in sh.iterators {
      LinkedUnlink(sh.list, sh.iterators, sh.iterators[key]);
    } else {
      NotLinked(sh.list, sh.iterators, cell);
      assert sh.iterators - {key} == sh.iterators;
    }
    assert after.list == [cell] + rest && after.iterators == sh.iterators[key := cell];
    assert after.iterators - {key} == sh.iterators - {key};
    assert KeysOf(after.list, CellKey) == [key] + KeysOf(rest, CellKey);
  }

  lemma RemovedRep(sh: Shared, key: string)
    requires Rep(sh)
    ensures Rep(Removed(sh, key)) && Abs(Removed(sh, key)) == Remove(Abs(sh), key)
  {
    LiveIterator(sh, key);
    if key in sh.entries {
      LinkedUnlink(sh.list, sh.iterators, sh.iterators[key]);
    }
  }

  /** Each operation, run to its end on a structure that satisfies the invariant, restores it and
      has the effect of the sequential specification. */
  lemma EffectRefines(capacity: nat, sh: Shared, op: Op)
    requires Rep(sh)
    ensures Rep(Effect(capacity, sh, op))
    ensures Abs(Effect(capacity, sh, op)) == Apply(capacity, Abs(sh), op)
  {
    match op
    case OpPut(k, v) =>
      EvictedRep(sh);
      StoredRep(Room(capacity, sh), k, v);
    case OpRemove(k) => RemovedRep(sh, k);
    case _ =>
  }

  // ---------------------------------------------------------------- the writer's progress

  /** Where the shared structure stands when a writer that started from `base` has reached `pc`. */
  ghost predicate Progress(capacity: nat, base: Shared, sh: Shared, op: Op, pc: Pc) {
    match pc
    case Idle => false
    case Undefined => false
    case Finished(op', reply) => op' == op && reply == Unit && sh == Effect(capacity, base, op)
    case At(op', line) =>
      && op' == op
      && match line
         case Begin => sh == base
         case EvictTest => op.OpPut? && |base.entries| >= capacity && sh == base
         case EvictBack => op.OpPut? && |base.entries| >= capacity && sh == base && sh.list != []
         case EvictPop(oldest) =>
           && op.OpPut? && |base.entries| >= capacity && sh == base && sh.list != []
           && oldest == sh.list[|sh.list| - 1].key
         case EvictEntry(oldest) =>
           && op.OpPut? && |base.entries| >= capacity && base.list != []
           && oldest == base.list[|base.list| - 1].key
           && sh == base.(list := base.list[..|base.list| - 1])
         case EvictIterator(oldest) =>
           && op.OpPut? && |base.entries| >= capacity && base.list != []
           && oldest == base.list[|base.list| - 1].key
           && sh == base.(list := base.list[..|base.list| - 1], entries := base.entries - {oldest})
         case StoreEntry => op.OpPut? && sh == Room(capacity, base)
         case FindIterator =>
           op.OpPut? && sh == WithEntry(Room(capacity, base), op.key, op.value)
         case EraseCell(cell) =>
           && op.OpPut? && sh == WithEntry(Room(capacity, base), op.key, op.value)
           && op.key in sh.iterators && cell == sh.iterators[op.key]
         case PushFront =>
           op.OpPut? && sh == Unlinked(WithEntry(Room(capacity, base), op.key, op.value), op.key)
         case SetIterator =>
           && op.OpPut?
           && sh == Pushed(Unlinked(WithEntry(Room(capacity, base), op.key, op.value), op.key), op.key)
         case RemoveEntry => op.OpRemove? && op.key in base.entries && sh == base
         case RemoveFind =>
           op.OpRemove? && op.key in base.entries && sh == base.(entries := base.entries - {op.key})
         case RemoveCell(cell) =>
           && op.OpRemove? && op.key in base.entries && sh == base.(entries := base.entries - {op.key})
           && op.key in base.iterators && cell == base.iterators[op.key]
         case RemoveIterator =>
           && op.OpRemove? && op.key in base.entries
           && sh == Unlinked(base.(entries := base.entries - {op.key}), op.key)
         case ClearList => op.OpClear? && sh == base.(entries := map[])
         case ClearIterators => op.OpClear? && sh == base.(entries := map[], list := [])
  }

  function WithEntry(sh: Shared, key: string, value: CacheEntry): Shared {
    sh.(entries := sh.entries[key := value])
  }

  lemma EvictProgress(capacity: nat, base: Shared, sh: Shared, op: Op, line: Line)
    requires Progress(capacity, base, sh, op, At(op, line))
    requires line in {EvictTest, EvictBack} || line.EvictPop? || line.EvictEntry? || line.EvictIterator?
    ensures var (sh', pc') := Statement(capacity, sh, op, line);
            Progress(capacity, base, sh', op, pc')
  {}

  lemma StoreProgress(capacity: nat, base: Shared, sh: Shared, op: Op, line: Line)
    requires Progress(capacity, base, sh, op, At(op, line))
    requires line in {StoreEntry, FindIterator, PushFront, SetIterator}
             || (line.EraseCell? && line.cell in sh.list)
    ensures var (sh', pc') := Statement(capacity, sh, op, line);
            Progress(capacity, base, sh', op, pc')
  {
    hide Room;
  }

  lemma RemoveProgress(capacity: nat, base: Shared, sh: Shared, op: Op, line: Line)
    requires Progress(capacity, base, sh, op, At(op, line)) && op.OpRemove?
    requires op.key in base.entries ==> op.key in base.iterators
    requires line.RemoveCell? ==> line.cell in sh.list
    ensures var (sh', pc') := Statement(capacity, sh, op, line);
            Progress(capacity, base, sh', op, pc')
  {}

  lemma PutProgress(capacity: nat, base: Shared, sh: Shared, op: Op, line: Line)
    requires Rep(base) && op.OpPut? && Progress(capacity, base, sh, op, At(op, line))
    ensures var (sh', pc') := Statement(capacity, sh, op, line);
            Progress(capacity, base, sh', op, pc')
  {
    if line.EraseCell? {
      assert line.cell in sh.list by {
        EvictedRep(base);
        LiveIterator(Room(capacity, base), op.key);
      }
    }
    if line in {EvictTest, EvictBack} || line.EvictPop? || line.EvictEntry? || line.EvictIterator? {
      EvictProgress(capacity, base, sh, op, line);
    } else if line != Begin {
      hide *;
      StoreProgress(capacity, base, sh, op, line);
    }
  }

  /** A writer's statement keeps its progress: it never reads the end of an empty list, and the
      iterator through which it erases is always a live cell. */
  lemma StatementProgress(capacity: nat, base: Shared, sh: Shared, op: Op, line: Line)
    requires Rep(base) && !IsRead(op) && Progress(capacity, base, sh, op, At(op, line))
    ensures var (sh', pc') := Statement(capacity, sh, op, line);
            Progress(capacity, base, sh', op, pc')
  {
    match op
    case OpPut(k, v) => PutProgress(capacity, base, sh, op, line);
    case OpRemove(k) =>
      LiveIterator(base, k);
      RemoveProgress(capacity, base, sh, op, line);
    case _ =>
  }

  // ---------------------------------------------------------------- the system invariant

  ghost predicate ReaderOk(capacity: nat, s: State, th: Thread) {
    && th.index < |s.log| && IsRead(s.log[th.index])
    && Run(capacity, s.log[..th.index]) == Abs(s.settled)
    && (th.pc == At(s.log[th.index], Begin)
        || th.pc == Finished(s.log[th.index], Answer(Abs(s.settled), s.log[th.index])))
  }

  ghost predicate WriterOk(capacity: nat, s: State, th: Thread) {
    && |s.log| > 0 && th.index == |s.log| - 1 && !IsRead(s.log[th.index])
    && Run(capacity, s.log[..th.index]) == Abs(s.settled)
    && Progress(capacity, s.settled, s.shared, s.log[th.index], th.pc)
  }

  ghost predicate Linearized(capacity: nat, log: seq<Op>, r: Return) {
    && r.index < |log| && log[r.index] == r.op
    && r.reply == Answer(Run(capacity, log[..r.index]), r.op)
  }

  ghost predicate Inv(capacity: nat, s: State) {
    && Rep(s.settled)
    && (s.writer.None? ==> s.shared == s.settled && Abs(s.settled) == Run(capacity, s.log))
    && (s.writer.Some? ==> s.readers == {})
    && (forall t: Tid :: s.writer == Some(t) ==> WriterOk(capacity, s, ThreadOf(s, t)))
    && (forall t: Tid :: t in s.readers ==> ReaderOk(capacity, s, ThreadOf(s, t)))
    && (forall t: Tid :: !ThreadOf(s, t).pc.Idle? ==> t in s.readers || s.writer == Some(t))
    && (forall r :: r in s.replies ==> Linearized(capacity, s.log, r))
  }

  lemma LogGrows(capacity: nat, log: seq<Op>, op: Op, r: Return)
    requires Linearized(capacity, log, r)
    ensures Linearized(capacity, log + [op], r)
  {
    assert (log + [op])[..r.index] == log[..r.index];
  }

  lemma AcquireInv(capacity: nat, s: State, t: Tid, op: Op)
    requires Inv(capacity, s) && Enabled(s, Acquire(t, op))
    ensures Inv(capacity, Do(capacity, s, Acquire(t, op)))
  {
    hide Rep;
    var s' := Do(capacity, s, Acquire(t, op));
    assert s'.log[..|s.log|] == s.log;
    RunStep(capacity, s.log, op);
    forall u: Tid | u in s'.readers ensures ReaderOk(capacity, s', ThreadOf(s', u)) {
      if u != t {
        assert ReaderOk(capacity, s, ThreadOf(s, u));
        assert s'.log[..ThreadOf(s, u).index] == s.log[..ThreadOf(s, u).index];
      }
    }
    assert !IsRead(op) ==> Progress(capacity, s.settled, s.shared, op, At(op, Begin));
    forall r | r in s'.replies ensures Linearized(capacity, s'.log, r) {
      LogGrows(capacity, s.log, op, r);
    }
  }

  lemma ExecuteInv(capacity: nat, s: State, t: Tid)
    requires Inv(capacity, s) && Enabled(s, Execute(t))
    ensures Inv(capacity, Do(capacity, s, Execute(t)))
  {
    var s' := Do(capacity, s, Execute(t));
    var th := ThreadOf(s, t);
    if s.writer == Some(t) {
      StatementProgress(capacity, s.settled, s.shared, th.pc.op, th.pc.line);
    } else {
      assert ReaderOk(capacity, s, th);
      assert s.shared == s.settled;
      forall u: Tid | u in s'.readers ensures ReaderOk(capacity, s', ThreadOf(s', u)) {
        assert ReaderOk(capacity, s, ThreadOf(s, u));
      }
    }
  }

  lemma ReleaseInv(capacity: nat, s: State, t: Tid)
    requires Inv(capacity, s) && Enabled(s, Release(t))
    ensures Inv(capacity, Do(capacity, s, Release(t)))
  {
    var s' := Do(capacity, s, Release(t));
    var th := ThreadOf(s, t);
    if s.writer == Some(t) {
      var op := s.log[th.index];
      EffectRefines(capacity, s.settled, op);
      assert s.log == s.log[..th.index] + [op];
      RunStep(capacity, s.log[..th.index], op);
    } else {
      assert ReaderOk(capacity, s, th);
      forall u: Tid | u in s'.readers ensures ReaderOk(capacity, s', ThreadOf(s', u)) {
        assert ReaderOk(capacity, s, ThreadOf(s, u));
      }
    }
  }

  /** Every action of every thread keeps the invariant. */
  lemma DoInv(capacity: nat, s: State, a: Action)
    requires Inv(capacity, s)
    ensures Inv(capacity, Do(capacity, s, a))
  {
    if Enabled(s, a) {
      match a
      case Acquire(t, op) => AcquireInv(capacity, s, t, op);
      case Execute(t) => ExecuteInv(capacity, s, t);
      case Release(t) => ReleaseInv(capacity, s, t);
    }
  }

  lemma InitialInv(capacity: nat)
    ensures Inv(capacity, INITIAL)
  {
    assert KeysOf([], CellKey) == [] && Abs(START) == EMPTY;
  }

  lemma {:induction false} ExecInv(capacity: nat, actions: seq<Action>)
    ensures Inv(capacity, Exec(capacity, actions))
  {
    if actions == [] {
      InitialInv(capacity);
    } else {
      ExecInv(capacity, actions[..|actions| - 1]);
      DoInv(capacity, Exec(capacity, actions[..|actions| - 1]), actions[|actions| - 1]);
    }
  }

  // ---------------------------------------------------------------- theorems over all schedules

  /** The thread has constructed a guard and not yet destroyed it. */
  predicate InProgress(s: State, t: Tid) { !ThreadOf(s, t).pc.Idle? }

  predicate Writing(s: State, t: Tid) {
    var pc := ThreadOf(s, t).pc;
    (pc.At? || pc.Finished?) && !IsRead(pc.op)
  }

  /** A writer excludes everyone else. */
  lemma MutualExclusion(capacity: nat, actions: seq<Action>, t: Tid, u: Tid)
    requires Writing(Exec(capacity, actions), t) && InProgress(Exec(capacity, actions), u)
    ensures t == u
  {
    ExecInv(capacity, actions);
  }

  /** No thread ever erases through a dead iterator or reads the end of an empty list. */
  lemma NeverUndefined(capacity: nat, actions: seq<Action>, t: Tid)
    ensures ThreadOf(Exec(capacity, actions), t).pc != Undefined
  {
    ExecInv(capacity, actions);
  }

  /** Whenever no writer is in progress the three structures agree, and they mean what the operations
      so far, run one after the other in lock order, would have left. */
  lemma SettledState(capacity: nat, actions: seq<Action>)
    requires forall t: Tid :: !Writing(Exec(capacity, actions), t)
    ensures var s := Exec(capacity, actions);
            Rep(s.shared) && Abs(s.shared) == Run(capacity, s.log)
  {
    ExecInv(capacity, actions);
    var s := Exec(capacity, actions);
    if s.writer.Some? {
      assert Writing(s, s.writer.value);
    }
  }

  /** Every answer given to any thread is the one of the sequential cache at the operation's place in
      the lock order. */
  lemma Linearizability(capacity: nat, actions: seq<Action>)
    ensures forall r :: r in Exec(capacity, actions).replies ==>
              Linearized(capacity, Exec(capacity, actions).log, r)
  {
    ExecInv(capacity, actions);
  }

  lemma {:induction false} HistoryGrows(capacity: nat, before: seq<Action>, more: seq<Action>)
    ensures Exec(capacity, before).log <= Exec(capacity, before + more).log
    ensures Exec(capacity, before).replies <= Exec(capacity, before + more).replies
  {
    if more == [] {
      assert before + more == before;
    } else {
      HistoryGrows(capacity, before, more[..|more| - 1]);
      assert (before + more)[..|before + more| - 1] == before + more[..|more| - 1];
    }
  }

  /** The lock order respects real time: an operation that has returned before another one takes its
      lock comes before it. */
  lemma RealTimeOrder(
    capacity: nat, before: seq<Action>, more: seq<Action>, r: Return, t: Tid, op: Op)
    requires r in Exec(capacity, before).replies
    requires Enabled(Exec(capacity, before + more), Acquire(t, op))
    ensures r.index < ThreadOf(Exec(capacity, before + more + [Acquire(t, op)]), t).index
  {
    ExecInv(capacity, before);
    HistoryGrows(capacity, before, more);
    assert (before + more + [Acquire(t, op)])[..|before + more|] == before + more;
  }

  /** A hit returns the last value put on its key, in lock order, since the last remove or clear. */
  lemma HitIsLastPut(capacity: nat, actions: seq<Action>, r: Return)
    requires r in Exec(capacity, actions).replies && r.op.OpGet? && r.reply.Found? && r.reply.entry.Some?
    ensures var log := Exec(capacity, actions).log;
            r.index <= |log| &&
            exists i: nat :: IsLastWrite(log[..r.index], r.op.key, i)
                             && log[i] == OpPut(r.op.key, r.reply.entry.value)
  {
    var log := Exec(capacity, actions).log;
    Linearizability(capacity, actions);
    assert Linearized(capacity, log, r);
    GetReturnsLastPut(capacity, log[..r.index], r.op.key);
  }

  // ---------------------------------------------------------------- progress

  const LONGEST: nat := 11

  /** How many statements an operation can still execute. */
  function Rank(pc: Pc): (n: nat)
    ensures pc.At? <==> n > 0
    ensures n <= LONGEST
  {
    match pc
    case At(_, line) =>
      (match line
       case Begin => LONGEST
       case EvictTest => 10
       case EvictBack => 9
       case EvictPop(_) => 8
       case EvictEntry(_) => 7
       case EvictIterator(_) => 6
       case StoreEntry => 5
       case FindIterator => 4
       case EraseCell(_) => 3
       case PushFront => 2
       case SetIterator => 1
       case RemoveEntry => 4
       case RemoveFind => 3
       case RemoveCell(_) => 2
       case RemoveIterator => 1
       case ClearList => 2
       case ClearIterators => 1)
    case _ => 0
  }

  /** Every statement brings its operation closer to the end. */
  lemma StatementRank(capacity: nat, sh: Shared, op: Op, line: Line)
    ensures !Statement(capacity, sh, op, line).1.Idle?
    ensures Rank(Statement(capacity, sh, op, line).1) < Rank(At(op, line))
  {
    hide Unlink;
  }

  /** How often a schedule lets thread `t` execute a statement. */
  function Turns(actions: seq<Action>, t: Tid): nat {
    if actions == [] then 0
    else Turns(actions[..|actions| - 1], t) + if actions[|actions| - 1] == Execute(t) then 1 else 0
  }

  lemma StepRank(capacity: nat, s: State, a: Action, t: Tid)
    requires InProgress(s, t) && a != Release(t)
    ensures var pc, pc' := ThreadOf(s, t).pc, ThreadOf(Do(capacity, s, a), t).pc;
            && !pc'.Idle?
            && (if a == Execute(t) && pc.At? then Rank(pc') < Rank(pc) else pc' == pc)
  {
    if a == Execute(t) && Enabled(s, a) {
      StatementRank(capacity, s.shared, ThreadOf(s, t).pc.op, ThreadOf(s, t).pc.line);
    }
    hide Statement, Rank;
  }

  /** Whatever the other threads do, an operation that holds its lock loses one rank with each statement
      that its thread executes. */
  lemma {:induction false} RankFalls(capacity: nat, before: seq<Action>, more: seq<Action>, t: Tid)
    requires InProgress(Exec(capacity, before), t) && Release(t) !in more
    ensures var pc := ThreadOf(Exec(capacity, before + more), t).pc;
            && !pc.Idle?
            && (pc.At? ==> Rank(pc) + Turns(more, t) <= Rank(ThreadOf(Exec(capacity, before), t).pc))
  {
    if more == [] {
      assert before + more == before;
    } else {
      var front, a := more[..|more| - 1], more[|more| - 1];
      assert more == front + [a] && before + more == (before + front) + [a];
      RankFalls(capacity, before, front, t);
      ExecStep(capacity, before + front, a);
      StepRank(capacity, Exec(capacity, before + front), a, t);
      hide Exec, Do, Rank;
    }
  }

  /** An operation that has taken its lock is finished after at most eleven statements of its own thread,
      in every schedule. */
  lemma FinishesInTime(capacity: nat, before: seq<Action>, more: seq<Action>, t: Tid)
    requires InProgress(Exec(capacity, before), t) && Release(t) !in more && Turns(more, t) >= LONGEST
    ensures ThreadOf(Exec(capacity, before + more), t).pc.Finished?
  {
    RankFalls(capacity, before, more, t);
    NeverUndefined(capacity, before + more, t);
    hide Exec, Turns;
  }

  predicate CanMove(s: State, t: Tid) { Enabled(s, Execute(t)) || Enabled(s, Release(t)) }

  /** A thread that has taken its lock can always go on. */
  lemma NeverStuck(capacity: nat, actions: seq<Action>, t: Tid)
    requires InProgress(Exec(capacity, actions), t)
    ensures CanMove(Exec(capacity, actions), t)
  {
    NeverUndefined(capacity, actions, t);
  }

  /** No deadlock: where a thread has to wait for its lock, some other thread holds it and can go on. */
  lemma NoDeadlock(capacity: nat, actions: seq<Action>, t: Tid, op: Op)
    requires !InProgress(Exec(capacity, actions), t) && !Enabled(Exec(capacity, actions), Acquire(t, op))
    ensures exists u: Tid :: u != t && InProgress(Exec(capacity, actions), u) && CanMove(Exec(capacity, actions), u)
  {
    ExecInv(capacity, actions);
    var s := Exec(capacity, actions);
    var u :| s.writer == Some(u) || u in s.readers;
    assert InProgress(s, u) by { hide Rep, Run; }
    NeverStuck(capacity, actions, u);
  }

  /** When the lock is given: a waiting thread may take it exactly if no other thread is writing and, unless
      it only wants to read, no other thread is inside any operation.  Readers share. */
  lemma LockGranted(capacity: nat, actions: seq<Action>, t: Tid, op: Op)
    requires !InProgress(Exec(capacity, actions), t)
    ensures var s := Exec(capacity, actions);
            Enabled(s, Acquire(t, op)) <==>
              if op.OpGet? || op.OpSize? then forall u: Tid :: !Writing(s, u)
              else forall u: Tid :: !InProgress(s, u)
  {
    ExecInv(capacity, actions);
    var s := Exec(capacity, actions);
    hide Exec, Rep, Run, Linearized, Effect;
    if s.writer.Some? {
      assert Writing(s, s.writer.value) && InProgress(s, s.writer.value);
    }
    forall u: Tid | u in s.readers ensures InProgress(s, u) && !Writing(s, u) {
      assert ReaderOk(capacity, s, ThreadOf(s, u));
    }
  }

  // ---------------------------------------------------------------- one operation without interruption

  /** `n` turns of one thread. */
  function Executes(capacity: nat, s: State, t: Tid, n: nat): State
    decreases n
  {
    if n == 0 then s else Executes(capacity, Do(capacity, s, Execute(t)), t, n - 1)
  }

  /** One turn of a writer touches the structure and its own place in the operation, and nothing else. */
  lemma OneTurn(capacity: nat, s: State, t: Tid)
    requires InProgress(s, t)
    ensures var s' := Do(capacity, s, Execute(t));
            && s' == s.(shared := s'.shared, threads := s'.threads)
            && (forall u: Tid :: u != t ==> ThreadOf(s', u) == ThreadOf(s, u))
            && ThreadOf(s', t).index == ThreadOf(s, t).index
            && (if ThreadOf(s, t).pc.At? then Rank(ThreadOf(s', t).pc) < Rank(ThreadOf(s, t).pc) else s' == s)
  {
    var th := ThreadOf(s, t);
    if th.pc.At? {
      StatementRank(capacity, s.shared, th.pc.op, th.pc.line);
    }
    hide Statement, Rank;
  }

  /** A writer that has no more statements has done its operation. */
  lemma WriterDone(capacity: nat, s: State, t: Tid)
    requires Inv(capacity, s) && s.writer == Some(t) && Rank(ThreadOf(s, t).pc) == 0
    ensures s.log != [] && ThreadOf(s, t) == Thread(Finished(s.log[|s.log| - 1], Unit), |s.log| - 1)
    ensures s.shared == Effect(capacity, s.settled, s.log[|s.log| - 1])
  {
    assert WriterOk(capacity, s, ThreadOf(s, t));
    hide Effect, Run, Rep;
  }

  lemma WriterInProgress(capacity: nat, s: State, t: Tid)
    requires Inv(capacity, s) && s.writer == Some(t)
    ensures InProgress(s, t) && s.log != []
  {
    assert WriterOk(capacity, s, ThreadOf(s, t));
    hide Effect, Run, Rep;
  }

  lemma {:induction false} WriterFinishes(capacity: nat, s: State, t: Tid, n: nat)
    requires Inv(capacity, s) && s.writer == Some(t) && s.log != [] && Rank(ThreadOf(s, t).pc) <= n
    ensures var s', op := Executes(capacity, s, t, n), s.log[|s.log| - 1];
            && ThreadOf(s', t) == Thread(Finished(op, Unit), |s.log| - 1)
            && s' == s.(shared := Effect(capacity, s.settled, op), threads := s'.threads)
            && (forall u: Tid :: u != t ==> ThreadOf(s', u) == ThreadOf(s, u))
            && Inv(capacity, s')
    decreases n
  {
    if n == 0 {
      WriterDone(capacity, s, t);
    } else {
      DoInv(capacity, s, Execute(t));
      WriterInProgress(capacity, s, t);
      OneTurn(capacity, s, t);
      hide Inv, Do, Effect, Rank;
      WriterFinishes(capacity, Do(capacity, s, Execute(t)), t, n - 1);
    }
  }

  /** A free lock: no thread is inside any operation. */
  predicate Free(s: State) { s.writer == None && s.readers == {} }

  /** A write that starts at a free lock and is not interrupted: after its turns and its release the
      structure is what the operation makes of it, and the lock is free again. */
  lemma WriteAlone(capacity: nat, s: State, t: Tid, op: Op)
    requires Inv(capacity, s) && Free(s) && ThreadOf(s, t).pc.Idle? && !IsRead(op)
    ensures var s1 := Do(capacity, s, Acquire(t, op));
            var s2 := Executes(capacity, s1, t, LONGEST);
            var s3 := Do(capacity, s2, Release(t));
            && Enabled(s, Acquire(t, op)) && Enabled(s2, Release(t))
            && s3.shared == Effect(capacity, s.shared, op) && s3.log == s.log + [op]
            && Free(s3) && ThreadOf(s3, t).pc.Idle?
            && ThreadOf(s2, t).pc == Finished(op, Unit)
            && (forall u: Tid :: u != t ==> ThreadOf(s3, u) == ThreadOf(s, u))
  {
    var s1 := Do(capacity, s, Acquire(t, op));
    DoInv(capacity, s, Acquire(t, op));
    assert s1.log == s.log + [op] && s1.settled == s.shared && s1.writer == Some(t);
    hide Inv, Effect, Statement;
    WriterFinishes(capacity, s1, t, LONGEST);
  }
}
