/** What the sequential cache guarantees over whole traces of operations: how caches of different
    capacities relate, which keys are held, how long a key survives and how the size moves. */
module CacheTraces {
  import opened CacheEntries
  import opened CacheSpec

  // ---------------------------------------------------------------- inclusion

  /** `small` is what a cache of less capacity may hold beside `large`. */
  ghost predicate Included(small: CacheState, large: CacheState) {
    && small.order <= large.order
    && forall k :: k in small.entries ==> k in large.entries && small.entries[k] == large.entries[k]
  }

  lemma WithoutPrefix(s: seq<string>, t: seq<string>, key: string)
    requires s <= t
    ensures Without(s, key) <= Without(t, key)
  {
    assert t == s + t[|s|..];
    WithoutConcat(s, t[|s|..], key);
  }

  lemma StoreIncluded(small: CacheState, large: CacheState, key: string, value: CacheEntry)
    requires Included(small, large)
    ensures Included(Store(small, key, value), Store(large, key, value))
  {
    WithoutPrefix(small.order, large.order, key);
  }

  lemma TrimIncluded(small: CacheState, large: CacheState, small': CacheState, large': CacheState)
    requires Valid(small) && Valid(large) && Included(small, large)
    requires Trimmed(small, small') && Trimmed(large, large')
    requires |small'.order| <= |large'.order|
    ensures Included(small', large')
  {
    forall k | k in small'.entries
      ensures k in large'.entries && small'.entries[k] == large'.entries[k]
    {
      assert k in small'.order;
      assert k in large'.order;
    }
  }

  lemma PutIncluded(
    c: nat, d: nat, small: CacheState, large: CacheState, key: string, value: CacheEntry)
    requires c <= d && Valid(small) && Valid(large) && Included(small, large)
    requires |small.order| <= (if c == 0 then 1 else c)
    ensures Included(Put(c, small, key, value), Put(d, large, key, value))
  {
    MakeRoomValid(c, small);
    MakeRoomValid(d, large);
    TrimIncluded(small, large, MakeRoom(c, small), MakeRoom(d, large));
    StoreIncluded(MakeRoom(c, small), MakeRoom(d, large), key, value);
  }

  lemma RemoveIncluded(small: CacheState, large: CacheState, key: string)
    requires Valid(small) && Valid(large) && Included(small, large)
    ensures Included(Remove(small, key), Remove(large, key))
  {
    WithoutPrefix(small.order, large.order, key);
    if key !in small.entries {
      assert key !in small.order;
      WithoutAbsent(small.order, key);
    }
  }

  /** Size bound: `size()` never exceeds the capacity, or 1 if the capacity is 0. */
  lemma {:induction false} SizeBound(capacity: nat, ops: seq<Op>)
    ensures |Run(capacity, ops).entries| <= if capacity == 0 then 1 else capacity
  {
    RunValid(capacity, ops);
    if ops != [] {
      var before, op := Run(capacity, ops[..|ops| - 1]), ops[|ops| - 1];
      SizeBound(capacity, ops[..|ops| - 1]);
      RunValid(capacity, ops[..|ops| - 1]);
      match op
      case OpPut(k, _) =>
        MakeRoomValid(capacity, before);
        WithoutMembers(MakeRoom(capacity, before).order, k);
      case OpRemove(k) => WithoutMembers(before.order, k);
      case _ =>
    }
  }

  /** The inclusion property: on the same trace, the smaller cache holds a prefix of the larger
      one's order list, with the same values. */
  lemma {:induction false} Inclusion(c: nat, d: nat, ops: seq<Op>)
    requires c <= d
    ensures Included(Run(c, ops), Run(d, ops))
  {
    if ops != [] {
      var front := ops[..|ops| - 1];
      Inclusion(c, d, front);
      RunValid(c, front);
      RunValid(d, front);
      SizeBound(c, front);
      match ops[|ops| - 1]
      case OpPut(k, v) => PutIncluded(c, d, Run(c, front), Run(d, front), k, v);
      case OpRemove(k) => RemoveIncluded(Run(c, front), Run(d, front), k);
      case _ =>
    }
  }

  /** A cache of capacity 0 still holds one entry: it cannot be told from one of capacity 1. */
  lemma {:induction false} CapacityZeroIsOne(ops: seq<Op>)
    ensures Run(0, ops) == Run(1, ops)
  {
    if ops != [] {
      var front := ops[..|ops| - 1];
      CapacityZeroIsOne(front);
      RunValid(0, front);
      SizeBound(0, front);
    }
  }

  // ---------------------------------------------------------------- the most recent writes

  /** The operation makes an earlier write of `key` irrelevant. */
  predicate Touches(op: Op, key: string) {
    op.OpClear? || ((op.OpPut? || op.OpRemove?) && op.key == key)
  }

  /** `i` is the last write of `key` and nothing undid it. */
  ghost predicate IsLastWrite(ops: seq<Op>, key: string, i: nat) {
    && i < |ops| && ops[i].OpPut? && ops[i].key == key
    && forall j :: i < j < |ops| ==> !Touches(ops[j], key)
  }

  ghost predicate Survives(ops: seq<Op>, key: string) {
    exists i: nat :: IsLastWrite(ops, key, i)
  }

  /** The position of the surviving write of a key; -1 for a key that has none. */
  function LastWrite(ops: seq<Op>, key: string): int {
    if ops == [] then -1
    else
      var op := ops[|ops| - 1];
      if op.OpPut? && op.key == key then |ops| - 1
      else if Touches(op, key) then -1
      else LastWrite(ops[..|ops| - 1], key)
  }

  lemma {:induction false} LastWriteMeaning(ops: seq<Op>, key: string)
    ensures -1 <= LastWrite(ops, key) < |ops|
    ensures forall i: nat :: IsLastWrite(ops, key, i) <==> i == LastWrite(ops, key)
    ensures Survives(ops, key) <==> LastWrite(ops, key) >= 0
  {
    if ops != [] {
      var front, op := ops[..|ops| - 1], ops[|ops| - 1];
      LastWriteMeaning(front, key);
      forall i: nat ensures IsLastWrite(ops, key, i) <==> i == LastWrite(ops, key) {
        if !Touches(op, key) && i < |front| {
          assert IsLastWrite(ops, key, i) <==> IsLastWrite(front, key, i);
        }
      }
    }
    if LastWrite(ops, key) >= 0 {
      var i: nat := LastWrite(ops, key);
      assert IsLastWrite(ops, key, i);
    }
  }

  lemma LastWriteStep(ops: seq<Op>, op: Op, key: string)
    ensures LastWrite(ops + [op], key) ==
            if op.OpPut? && op.key == key then |ops|
            else if Touches(op, key) then -1
            else LastWrite(ops, key)
  {
    assert (ops + [op])[..|ops|] == ops;
  }

  /** The cache that never evicts. */
  function RunUnbounded(ops: seq<Op>): CacheState {
    if ops == [] then EMPTY
    else
      var s := RunUnbounded(ops[..|ops| - 1]);
      match ops[|ops| - 1]
      case OpPut(k, v) => Store(s, k, v)
      case OpRemove(k) => Remove(s, k)
      case OpClear => EMPTY
      case _ => s
  }

  /** The list is in the order of the surviving writes and each entry is the value written. */
  ghost predicate OrderedByWrite(s: CacheState, ops: seq<Op>) {
    && (forall k :: k in s.entries ==>
          && 0 <= LastWrite(ops, k) < |ops| && ops[LastWrite(ops, k)] == OpPut(k, s.entries[k]))
    && Descending(s.order, ops)
  }

  lemma {:induction false} UnboundedValid(ops: seq<Op>)
    ensures Valid(RunUnbounded(ops))
  {
    if ops != [] {
      var s := RunUnbounded(ops[..|ops| - 1]);
      UnboundedValid(ops[..|ops| - 1]);
      match ops[|ops| - 1]
      case OpPut(k, v) => StoreValid(s, k, v);
      case OpRemove(k) => RemoveValid(s, k);
      case _ =>
    }
  }

  ghost predicate Descending(order: seq<string>, ops: seq<Op>) {
    forall i, j :: 0 <= i < j < |order| ==> LastWrite(ops, order[i]) > LastWrite(ops, order[j])
  }

  /** Erasing one key leaves the others in their order, also after an operation on that key. */
  lemma {:induction false} WithoutDescending(order: seq<string>, ops: seq<Op>, op: Op)
    requires Descending(order, ops) && (op.OpPut? || op.OpRemove?)
    ensures Descending(Without(order, op.key), ops + [op])
  {
    if order != [] {
      WithoutDescending(order[1..], ops, op);
      WithoutMembers(order[1..], op.key);
      LastWriteStep(ops, op, order[0]);
      var t := Without(order[1..], op.key);
      forall j | 0 <= j < |t| && order[0] != op.key
        ensures LastWrite(ops + [op], order[0]) > LastWrite(ops + [op], t[j])
      {
        assert t[j] in order[1..];
        LastWriteStep(ops, op, t[j]);
      }
    }
  }

  lemma StoreOrdered(s: CacheState, ops: seq<Op>, op: Op)
    requires op.OpPut? && Valid(s) && OrderedByWrite(s, ops)
    ensures OrderedByWrite(Store(s, op.key, op.value), ops + [op])
  {
    var t := Without(s.order, op.key);
    WithoutMembers(s.order, op.key);
    WithoutDescending(s.order, ops, op);
    LastWriteStep(ops, op, op.key);
    OthersUntouched(s, ops, op);
    forall j | 0 <= j < |t| ensures |ops| > LastWrite(ops + [op], t[j]) {
      assert t[j] in t;
    }
    var order := [op.key] + t;
    assert forall i :: 0 < i < |order| ==> order[i] == t[i - 1];
  }

  /** An operation leaves the surviving writes of the keys it does not touch. */
  lemma OthersUntouched(s: CacheState, ops: seq<Op>, op: Op)
    requires OrderedByWrite(s, ops) && (op.OpPut? || op.OpRemove?)
    ensures forall k :: k in s.entries && k != op.key ==>
              && 0 <= LastWrite(ops + [op], k) < |ops|
              && ops[LastWrite(ops + [op], k)] == OpPut(k, s.entries[k])
  {
    forall k | k in s.entries && k != op.key
      ensures LastWrite(ops + [op], k) == LastWrite(ops, k) < |ops|
    {
      LastWriteStep(ops, op, k);
      LastWriteMeaning(ops, k);
    }
  }

  lemma RemoveOrdered(s: CacheState, ops: seq<Op>, op: Op)
    requires op.OpRemove? && Valid(s) && OrderedByWrite(s, ops)
    ensures OrderedByWrite(Remove(s, op.key), ops + [op])
  {
    WithoutDescending(s.order, ops, op);
    if op.key !in s.entries {
      assert op.key !in s.order;
      WithoutAbsent(s.order, op.key);
    }
    assert Remove(s, op.key).order == Without(s.order, op.key);
    OthersUntouched(s, ops, op);
    hide Descending, Without, LastWrite, Valid;
  }

  lemma ReadOrdered(s: CacheState, ops: seq<Op>, op: Op)
    requires IsRead(op) && OrderedByWrite(s, ops)
    ensures OrderedByWrite(s, ops + [op])
  {
    forall k ensures LastWrite(ops + [op], k) == LastWrite(ops, k) { LastWriteStep(ops, op, k); }
    forall k | k in s.entries ensures LastWrite(ops, k) < |ops| { LastWriteMeaning(ops, k); }
  }

  /** The cache that never evicts holds exactly the surviving keys, newest write first. */
  lemma {:induction false} UnboundedHoldsSurvivors(ops: seq<Op>)
    ensures OrderedByWrite(RunUnbounded(ops), ops)
    ensures forall k :: k in RunUnbounded(ops).entries <==> Survives(ops, k)
  {
    if ops != [] {
      var front, op := ops[..|ops| - 1], ops[|ops| - 1];
      var s := RunUnbounded(front);
      UnboundedHoldsSurvivors(front);
      UnboundedValid(front);
      assert ops == front + [op];
      match op {
        case OpPut(k, v) => StoreOrdered(s, front, op);
        case OpRemove(k) => RemoveOrdered(s, front, op);
        case OpClear =>
        case _ => ReadOrdered(s, front, op);
      }
      forall k ensures k in RunUnbounded(ops).entries <==> Survives(ops, k) {
        LastWriteMeaning(front, k);
        LastWriteMeaning(ops, k);
        LastWriteStep(front, op, k);
      }
    }
  }

  /** The bounded cache is the unbounded one with its tail cut off. */
  lemma {:induction false} BoundedWithinUnbounded(capacity: nat, ops: seq<Op>)
    ensures Included(Run(capacity, ops), RunUnbounded(ops))
  {
    if ops != [] {
      var front := ops[..|ops| - 1];
      var small, large := Run(capacity, front), RunUnbounded(front);
      BoundedWithinUnbounded(capacity, front);
      RunValid(capacity, front);
      UnboundedValid(front);
      match ops[|ops| - 1]
      case OpPut(k, v) =>
        MakeRoomValid(capacity, small);
        TrimIncluded(small, large, MakeRoom(capacity, small), large);
        StoreIncluded(MakeRoom(capacity, small), large, k, v);
      case OpRemove(k) => RemoveIncluded(small, large, k);
      case _ =>
    }
  }

  /** In a list that descends, what lies beyond a prefix is older than what is in it. */
  lemma BeyondPrefix(order: seq<string>, all: seq<string>, ops: seq<Op>, held: string, k: string)
    requires order <= all && Descending(all, ops)
    requires held in order && k in all && k !in order
    ensures LastWrite(ops, held) > LastWrite(ops, k)
  {
    hide LastWrite;
    var i :| 0 <= i < |order| && order[i] == held;
    var j :| 0 <= j < |all| && all[j] == k;
    assert order[i] == all[i];
    assert j >= |order|;
  }

  lemma HeldIsNewer(capacity: nat, ops: seq<Op>, held: string, k: string)
    requires held in Run(capacity, ops).entries
    requires k !in Run(capacity, ops).entries && Survives(ops, k)
    ensures LastWrite(ops, held) > LastWrite(ops, k)
  {
    var s, u := Run(capacity, ops), RunUnbounded(ops);
    BoundedWithinUnbounded(capacity, ops);
    UnboundedHoldsSurvivors(ops);
    UnboundedValid(ops);
    RunValid(capacity, ops);
    assert k in u.order && held in s.order && k !in s.order;
    assert s.order <= u.order && Descending(u.order, ops);
    hide *;
    BeyondPrefix(s.order, u.order, ops, held, k);
  }

  /** The keys held are exactly the `size()` most recently written surviving keys, in the order of
      their writes, and each is held with the value of its last write. */
  lemma HoldsMostRecentWrites(capacity: nat, ops: seq<Op>)
    ensures OrderedByWrite(Run(capacity, ops), ops)
    ensures forall k :: k in Run(capacity, ops).entries ==> Survives(ops, k)
    ensures forall k, held ::
              (Survives(ops, k) && k !in Run(capacity, ops).entries
               && held in Run(capacity, ops).entries) ==> LastWrite(ops, held) > LastWrite(ops, k)
  {
    BoundedWithinUnbounded(capacity, ops);
    UnboundedHoldsSurvivors(ops);
    forall k, held |
      Survives(ops, k) && k !in Run(capacity, ops).entries && held in Run(capacity, ops).entries
      ensures LastWrite(ops, held) > LastWrite(ops, k)
    {
      HeldIsNewer(capacity, ops, held, k);
    }
  }

  /** A lookup that finds something finds the last value put since the last remove or clear. */
  lemma GetReturnsLastPut(capacity: nat, ops: seq<Op>, key: string)
    ensures match Get(Run(capacity, ops), key)
            case Some(v) => exists i: nat :: IsLastWrite(ops, key, i) && ops[i] == OpPut(key, v)
            case None => key !in Run(capacity, ops).order
  {
    HoldsMostRecentWrites(capacity, ops);
    RunValid(capacity, ops);
    LastWriteMeaning(ops, key);
  }

  function WithoutReads(ops: seq<Op>): seq<Op> {
    if ops == [] then []
    else
      var front, op := ops[..|ops| - 1], ops[|ops| - 1];
      if IsRead(op) then WithoutReads(front) else WithoutReads(front) + [op]
  }

  /** Lookups leave no trace in the order: recency means recency of writing. */
  lemma {:induction false} ReadsChangeNothing(capacity: nat, ops: seq<Op>)
    ensures Run(capacity, WithoutReads(ops)) == Run(capacity, ops)
  {
    if ops != [] {
      ReadsChangeNothing(capacity, ops[..|ops| - 1]);
      if !IsRead(ops[|ops| - 1]) {
        RunStep(capacity, WithoutReads(ops[..|ops| - 1]), ops[|ops| - 1]);
      }
    }
  }

  // ---------------------------------------------------------------- survival and eviction

  /** The keys other than `key` written in a trace. */
  function OthersWritten(ops: seq<Op>, key: string): set<string> {
    set op | op in ops && op.OpPut? && op.key != key :: op.key
  }

  function PutCount(ops: seq<Op>): nat {
    if ops == [] then 0
    else PutCount(ops[..|ops| - 1]) + if ops[|ops| - 1].OpPut? then 1 else 0
  }

  ghost predicate NeverUndone(ops: seq<Op>, key: string) {
    forall op :: op in ops ==> !op.OpClear? && op != OpRemove(key)
  }

  lemma OneMoreWritten(ops: seq<Op>, op: Op, key: string)
    ensures OthersWritten(ops + [op], key) == OthersWritten(ops, key) + OtherWritten(op, key)
    ensures PutCount(ops + [op]) == PutCount(ops) + if op.OpPut? then 1 else 0
    ensures |OtherWritten(op, key)| <= if op.OpPut? then 1 else 0
  {
    assert (ops + [op])[..|ops|] == ops;
  }

  /** `key` is in the list and only keys of `ahead`, at most `bound` of them, are in front. */
  ghost predicate BehindOnly(order: seq<string>, key: string, ahead: set<string>, bound: nat) {
    exists i: nat :: i < |order| && i <= bound && order[i] == key
                     && forall j :: 0 <= j < i ==> order[j] in ahead
  }

  /** Erasing the cell at `p` moves `key`, at `i`, forward or leaves it where it is. */
  lemma ErasedBehind(
    order: seq<string>, key: string, ahead: set<string>, bound: nat, i: nat, p: nat)
    requires i < |order| && i <= bound && order[i] == key && forall j :: 0 <= j < i ==> order[j] in ahead
    requires p < |order| && p != i
    ensures BehindOnly(order[..p] + order[p + 1..], key, ahead, bound)
  {
    var rest, i' := order[..p] + order[p + 1..], if p < i then i - 1 else i;
    assert forall j :: 0 <= j < |rest| ==> rest[j] == order[if j < p then j else j + 1];
    assert rest[i'] == key;
  }

  lemma WithoutBehind(order: seq<string>, key: string, other: string, ahead: set<string>, bound: nat)
    requires NoDup(order) && BehindOnly(order, key, ahead, bound) && other != key
    ensures BehindOnly(Without(order, other), key, ahead, bound)
  {
    var i: nat :| i < |order| && i <= bound && order[i] == key && forall j :: 0 <= j < i ==> order[j] in ahead;
    if other in order {
      var p :| 0 <= p < |order| && order[p] == other;
      WithoutAt(order, p);
      hide *;
      ErasedBehind(order, key, ahead, bound, i, p);
    } else {
      WithoutAbsent(order, other);
    }
  }

  /** Storing another key moves `key` back by at most one place, behind the key just written. */
  lemma StoreBehind(
    s: CacheState, key: string, other: string, value: CacheEntry, ahead: set<string>, bound: nat)
    requires Valid(s) && BehindOnly(s.order, key, ahead, bound) && other != key
    ensures BehindOnly(Store(s, other, value).order, key, ahead + {other}, bound + 1)
  {
    WithoutBehind(s.order, key, other, ahead, bound);
    var rest := Without(s.order, other);
    var i: nat :| i < |rest| && i <= bound && rest[i] == key
                  && forall j :: 0 <= j < i ==> rest[j] in ahead;
    var t := Store(s, other, value).order;
    assert t[i + 1] == key;
    assert forall j :: 0 < j <= i ==> t[j] == rest[j - 1];
  }

  /** The key, if any, other than `key` that one operation writes. */
  function OtherWritten(op: Op, key: string): set<string> {
    if op.OpPut? && op.key != key then {op.key} else {}
  }

  lemma PutBehind(
    capacity: nat, s: CacheState, key: string, k: string, v: CacheEntry, ahead: set<string>, bound: nat)
    requires Valid(s) && |s.order| <= capacity && BehindOnly(s.order, key, ahead, bound)
    requires bound + 1 < capacity && k != key
    ensures BehindOnly(Put(capacity, s, k, v).order, key, ahead + {k}, bound + 1)
  {
    MakeRoomValid(capacity, s);
    var s' := MakeRoom(capacity, s);
    assert BehindOnly(s'.order, key, ahead, bound);
    hide BehindOnly, MakeRoom, Store;
    StoreBehind(s', key, k, v, ahead, bound);
  }

  lemma StepBehind(
    capacity: nat, s: CacheState, key: string, op: Op, ahead: set<string>, bound: nat)
    requires Valid(s) && |s.order| <= capacity && BehindOnly(s.order, key, ahead, bound)
    requires !op.OpClear? && op != OpRemove(key) && (op.OpPut? ==> bound + 1 < capacity)
    ensures BehindOnly(Apply(capacity, s, op).order, key, ahead + OtherWritten(op, key),
                       bound + |OtherWritten(op, key)|)
  {
    assert ahead + {} == ahead;
    match op
    case OpPut(k, v) =>
      if k == key {
        assert Put(capacity, s, k, v).order[0] == key;
      } else {
        hide BehindOnly, Put;
        PutBehind(capacity, s, key, k, v, ahead, bound);
      }
    case OpRemove(k) =>
      hide BehindOnly, Without, Valid;
      WithoutBehind(s.order, key, k, ahead, bound);
    case _ =>
  }

  lemma FirstAfterPut(capacity: nat, ops: seq<Op>, key: string, value: CacheEntry)
    ensures BehindOnly(Run(capacity, ops + [OpPut(key, value)]).order, key, {}, 0)
  {
    RunStep(capacity, ops, OpPut(key, value));
    assert Run(capacity, ops + [OpPut(key, value)]).order[0] == key;
  }

  lemma BehindWider(order: seq<string>, key: string, ahead: set<string>, bound: nat, wider: nat)
    requires BehindOnly(order, key, ahead, bound) && bound <= wider
    ensures BehindOnly(order, key, ahead, wider)
  {}

  lemma {:induction false} StaysBehind(
    capacity: nat, ops: seq<Op>, key: string, value: CacheEntry, later: seq<Op>)
    requires NeverUndone(later, key) && PutCount(later) < capacity
    ensures BehindOnly(Run(capacity, ops + [OpPut(key, value)] + later).order, key,
                       OthersWritten(later, key), PutCount(later))
  {
    var start := ops + [OpPut(key, value)];
    if later == [] {
      assert start + later == start;
      FirstAfterPut(capacity, ops, key, value);
      assert OthersWritten(later, key) == {} && PutCount(later) == 0;
      hide *;
    } else {
      var front, op := later[..|later| - 1], later[|later| - 1];
      assert later == front + [op] && op in later;
      OneMoreWritten(front, op, key);
      hide BehindOnly, Run, OthersWritten, PutCount, OtherWritten;
      StaysBehind(capacity, ops, key, value, front);
      RunValid(capacity, start + front);
      SizeBound(capacity, start + front);
      assert start + later == (start + front) + [op];
      RunStep(capacity, start + front, op);
      hide *;
      StepBehind(capacity, Run(capacity, start + front), key, op,
                 OthersWritten(front, key), PutCount(front));
      BehindWider(Run(capacity, start + later).order, key, OthersWritten(later, key),
                  PutCount(front) + |OtherWritten(op, key)|, PutCount(later));
    }
  }

  /** A key that is not removed or cleared survives any `capacity - 1` later puts. */
  lemma SurvivesPuts(capacity: nat, ops: seq<Op>, key: string, value: CacheEntry, later: seq<Op>)
    requires NeverUndone(later, key) && PutCount(later) < capacity
    ensures key in Run(capacity, ops + [OpPut(key, value)] + later).entries
  {
    StaysBehind(capacity, ops, key, value, later);
    RunValid(capacity, ops + [OpPut(key, value)] + later);
  }

  /** On a list without duplicates there are no more positions than keys. */
  lemma PositionBound(order: seq<string>, i: nat, ahead: set<string>)
    requires NoDup(order) && i <= |order| && forall j :: 0 <= j < i ==> order[j] in ahead
    ensures i <= |ahead|
  {
    NoDupCardinality(order[..i]);
    var keys := set k | k in order[..i];
    assert keys <= ahead;
    CardinalityMonotone(keys, ahead);
  }

  lemma {:induction false} CardinalityMonotone<T>(a: set<T>, b: set<T>)
    requires a <= b
    ensures |a| <= |b|
  {
    if a != {} {
      var x :| x in a;
      CardinalityMonotone(a - {x}, b - {x});
    }
  }

  lemma Tighten(order: seq<string>, key: string, ahead: set<string>, bound: nat, ahead': set<string>)
    requires NoDup(order) && BehindOnly(order, key, ahead, bound) && ahead <= ahead'
    ensures BehindOnly(order, key, ahead', |ahead'|)
  {
    var i: nat :| i < |order| && i <= bound && order[i] == key
                  && forall j :: 0 <= j < i ==> order[j] in ahead;
    PositionBound(order, i, ahead');
  }

  lemma StepBehindDistinct(
    capacity: nat, s: CacheState, key: string, op: Op, ahead: set<string>, wider: set<string>)
    requires Valid(s) && |s.order| <= capacity && BehindOnly(s.order, key, ahead, |ahead|)
    requires !op.OpClear? && op != OpRemove(key) && |ahead| + 1 < capacity
    requires wider == ahead + OtherWritten(op, key)
    ensures BehindOnly(Apply(capacity, s, op).order, key, wider, |wider|)
  {
    StepBehind(capacity, s, key, op, ahead, |ahead|);
    ApplyValid(capacity, s, op);
    hide Apply, BehindOnly, OtherWritten;
    Tighten(Apply(capacity, s, op).order, key, wider, |ahead| + |OtherWritten(op, key)|, wider);
  }

  lemma {:induction false} StaysBehindDistinct(
    capacity: nat, ops: seq<Op>, key: string, value: CacheEntry, later: seq<Op>)
    requires NeverUndone(later, key) && |OthersWritten(later, key)| + 2 <= capacity
    ensures BehindOnly(Run(capacity, ops + [OpPut(key, value)] + later).order, key,
                       OthersWritten(later, key), |OthersWritten(later, key)|)
  {
    var start := ops + [OpPut(key, value)];
    if later == [] {
      assert start + later == start;
      FirstAfterPut(capacity, ops, key, value);
    } else {
      var front, op := later[..|later| - 1], later[|later| - 1];
      assert later == front + [op] && op in later;
      OneMoreWritten(front, op, key);
      CardinalityMonotone(OthersWritten(front, key), OthersWritten(later, key));
      hide BehindOnly, Run, OthersWritten, OtherWritten;
      StaysBehindDistinct(capacity, ops, key, value, front);
      RunValid(capacity, start + front);
      SizeBound(capacity, start + front);
      assert start + later == (start + front) + [op];
      RunStep(capacity, start + front, op);
      hide *;
      StepBehindDistinct(capacity, Run(capacity, start + front), key, op,
                         OthersWritten(front, key), OthersWritten(later, key));
    }
  }

  /** A key that is not removed or cleared survives any number of puts on at most `capacity - 2`
      distinct other keys. */
  lemma SurvivesDistinctKeys(capacity: nat, ops: seq<Op>, key: string, value: CacheEntry, later: seq<Op>)
    requires NeverUndone(later, key) && |OthersWritten(later, key)| + 2 <= capacity
    ensures key in Run(capacity, ops + [OpPut(key, value)] + later).entries
  {
    StaysBehindDistinct(capacity, ops, key, value, later);
    RunValid(capacity, ops + [OpPut(key, value)] + later);
  }

  /** A put of each key in turn. */
  function PutAll(keys: seq<string>, value: CacheEntry): (ops: seq<Op>)
    ensures |ops| == |keys| && forall i :: 0 <= i < |keys| ==> ops[i] == OpPut(keys[i], value)
  {
    seq(|keys|, i requires 0 <= i < |keys| => OpPut(keys[i], value))
  }

  lemma PutAllStep(keys: seq<string>, value: CacheEntry)
    requires keys != []
    ensures PutAll(keys, value) == PutAll(keys[..|keys| - 1], value) + [OpPut(keys[|keys| - 1], value)]
  {}

  /** Newest first, the keys put and no others; the first one put is the oldest. */
  ghost predicate FilledWith(order: seq<string>, keys: seq<string>) {
    && |order| == |keys| > 0 && order[|keys| - 1] == keys[0]
    && forall k :: k in order <==> k in keys
  }

  lemma FilledOneMore(order: seq<string>, keys: seq<string>, key: string)
    requires FilledWith(order, keys)
    ensures FilledWith([key] + order, keys + [key])
  {}

  /** Distinct keys that fit are all held, the first one last in the list. */
  lemma {:induction false} FilledInOrder(capacity: nat, keys: seq<string>, value: CacheEntry)
    requires NoDup(keys) && 0 < |keys| <= capacity
    ensures FilledWith(Run(capacity, PutAll(keys, value)).order, keys)
    decreases |keys|, 1
  {
    var front, last := keys[..|keys| - 1], keys[|keys| - 1];
    assert keys == front + [last] && last !in front && NoDup(front);
    hide *;
    PutAllStep(keys, value);
    RunStep(capacity, PutAll(front, value), OpPut(last, value));
    if front == [] {
      FilledOne(capacity, last, value);
    } else {
      FilledNext(capacity, front, last, value);
    }
  }

  lemma FilledOne(capacity: nat, key: string, value: CacheEntry)
    requires capacity > 0
    ensures FilledWith(Apply(capacity, Run(capacity, PutAll([], value)), OpPut(key, value)).order, [key])
  {
    assert PutAll([], value) == [];
    PutNew(capacity, EMPTY, key, value);
  }

  lemma FilledNext(capacity: nat, front: seq<string>, last: string, value: CacheEntry)
    requires NoDup(front) && 0 < |front| < capacity && last !in front
    ensures FilledWith(Apply(capacity, Run(capacity, PutAll(front, value)), OpPut(last, value)).order,
                       front + [last])
    decreases |front|, 2
  {
    FilledInOrder(capacity, front, value);
    RunValid(capacity, PutAll(front, value));
    var s := Run(capacity, PutAll(front, value));
    assert last !in s.order;
    PutNew(capacity, s, last, value);
    assert Apply(capacity, s, OpPut(last, value)).order == [last] + s.order;
    hide *;
    FilledOneMore(s.order, front, last);
  }

  lemma PutNew(capacity: nat, s: CacheState, key: string, value: CacheEntry)
    requires Valid(s) && |s.order| < capacity && key !in s.order
    ensures Put(capacity, s, key, value).order == [key] + s.order
  {
    SizeIsLength(s);
    WithoutAbsent(s.order, key);
  }

  /** The bound is tight for every capacity from 2 on: `capacity - 1` distinct other keys suffice to
      evict, because a write of a resident key at capacity evicts before it overwrites. */
  lemma DistinctKeysTight(capacity: nat, keys: seq<string>, value: CacheEntry, later: seq<Op>)
    requires capacity >= 2 && NoDup(keys) && |keys| == capacity
    requires later == PutAll(keys[1..], value) + [OpPut(keys[capacity - 1], value)]
    ensures |OthersWritten(later, keys[0])| == capacity - 1 && NeverUndone(later, keys[0])
    ensures keys[0] !in Run(capacity, [OpPut(keys[0], value)] + later).entries
  {
    var last := OpPut(keys[capacity - 1], value);
    OthersInPutAll(keys, value, later);
    assert [OpPut(keys[0], value)] + later == PutAll(keys, value) + [last];
    RunStep(capacity, PutAll(keys, value), last);
    FilledInOrder(capacity, keys, value);
    hide PutAll, OthersWritten, NeverUndone, Run;
    RunValid(capacity, PutAll(keys, value));
    assert keys[capacity - 1] != keys[0];
    EvictedByPut(capacity, Run(capacity, PutAll(keys, value)), keys[capacity - 1], value);
    hide *;
  }

  /** At capacity any put evicts the oldest key, unless it is the one written. */
  lemma EvictedByPut(capacity: nat, s: CacheState, key: string, value: CacheEntry)
    requires Valid(s) && 0 < |s.order| == capacity && key != s.order[capacity - 1]
    ensures s.order[capacity - 1] !in Put(capacity, s, key, value).entries
  {
    SizeIsLength(s);
  }

  lemma OthersInPutAll(keys: seq<string>, value: CacheEntry, later: seq<Op>)
    requires NoDup(keys) && |keys| >= 2
    requires later == PutAll(keys[1..], value) + [OpPut(keys[|keys| - 1], value)]
    ensures |OthersWritten(later, keys[0])| == |keys| - 1 && NeverUndone(later, keys[0])
  {
    forall k ensures k in OthersWritten(later, keys[0]) <==> k in keys[1..] {
      if k in keys[1..] {
        var i :| 0 <= i < |keys| - 1 && keys[1..][i] == k;
        assert later[i] == OpPut(k, value);
        assert keys[i + 1] != keys[0];
      }
    }
    assert OthersWritten(later, keys[0]) == set k | k in keys[1..];
    NoDupCardinality(keys[1..]);
  }

  /** Without removes, every key written since is in front of `key` in the order of writing. */
  lemma {:induction false} PushedBack(ops: seq<Op>, key: string, later: seq<Op>)
    requires forall op :: op in later ==> !op.OpClear? && !op.OpRemove? && !(op.OpPut? && op.key == key)
    ensures forall k :: k in OthersWritten(later, key) ==> LastWrite(ops + later, k) >= |ops|
    ensures LastWrite(ops + later, key) < |ops|
  {
    if later == [] {
      assert ops + later == ops;
      LastWriteMeaning(ops, key);
    } else {
      var front, op := later[..|later| - 1], later[|later| - 1];
      assert later == front + [op];
      PushedBack(ops, key, front);
      assert ops + later == (ops + front) + [op];
      assert op in later;
      LastWriteStep(ops + front, op, key);
      forall k | k in OthersWritten(later, key) ensures LastWrite(ops + later, k) >= |ops| {
        LastWriteStep(ops + front, op, k);
        if !(op.OpPut? && op.key == k) { assert k in OthersWritten(front, key); }
      }
    }
  }

  /** A surviving key whose write is not older than that of a held key is held. */
  lemma HeldUnlessOlder(capacity: nat, ops: seq<Op>, held: string, k: string)
    requires held in Run(capacity, ops).entries && Survives(ops, k)
    requires LastWrite(ops, k) >= LastWrite(ops, held)
    ensures k in Run(capacity, ops).entries
  {
    if k !in Run(capacity, ops).entries {
      HeldIsNewer(capacity, ops, held, k);
    }
  }

  /** Without removes, a key is certainly gone once `capacity` distinct other keys were put. */
  lemma GoneAfterDistinctKeys(capacity: nat, ops: seq<Op>, key: string, later: seq<Op>)
    requires capacity > 0
    requires forall op :: op in later ==> !op.OpClear? && !op.OpRemove? && !(op.OpPut? && op.key == key)
    requires |OthersWritten(later, key)| >= capacity
    ensures key !in Run(capacity, ops + later).entries
  {
    var s := Run(capacity, ops + later);
    var others := OthersWritten(later, key);
    SizeBound(capacity, ops + later);
    if key in s.entries {
      forall k | k in others ensures k in s.entries {
        PushedBack(ops, key, later);
        LastWriteMeaning(ops + later, k);
        HeldUnlessOlder(capacity, ops + later, key, k);
      }
      assert key !in others;
      hide OthersWritten, Run, Apply;
      assert |others + {key}| == |others| + 1;
      CardinalityMonotone(others + {key}, s.entries.Keys);
    }
  }

  // ---------------------------------------------------------------- size dynamics

  lemma ResidentNotOldest(s: CacheState, s': CacheState, key: string)
    requires Valid(s) && Trimmed(s, s') && s.order != [] && |s'.order| == |s.order| - 1
    ensures key in s'.entries <==> key in s.order && key != s.order[|s.order| - 1]
  {
    assert s.order == s'.order + [s.order[|s.order| - 1]];
  }

  /** One put at or below capacity: exactly when the size falls to `capacity - 1`. */
  lemma SizeAfterPut(capacity: nat, s: CacheState, key: string, value: CacheEntry)
    requires capacity > 0 && Valid(s) && |s.entries| <= capacity
    ensures var n := |Put(capacity, s, key, value).entries|;
            if |s.entries| == capacity then
              && (n == capacity - 1 <==> key in s.order && key != s.order[|s.order| - 1])
              && (n == capacity <==> !(key in s.order && key != s.order[|s.order| - 1]))
            else n == |s.entries| + if key in s.entries then 0 else 1
  {
    SizeIsLength(s);
    MakeRoomValid(capacity, s);
    var s' := MakeRoom(capacity, s);
    SizeIsLength(s');
    var t := Put(capacity, s, key, value);
    assert t.entries.Keys == s'.entries.Keys + {key};
    assert |t.entries| == |t.entries.Keys| && |s'.entries| == |s'.entries.Keys|;
    assert |t.entries| == |s'.entries| + if key in s'.entries then 0 else 1;
    if |s.entries| == capacity {
      ResidentNotOldest(s, s', key);
    } else {
      assert s' == s;
    }
  }

  ghost predicate OnlyWritesAndReads(ops: seq<Op>) {
    forall op :: op in ops ==> !op.OpClear? && !op.OpRemove?
  }

  /** Once `capacity - 1` entries are held, runs of puts and lookups stay at `capacity - 1` or
      `capacity`: overwriting at capacity can shrink the cache by one and no more. */
  lemma {:induction false} SizeStaysNearCapacity(capacity: nat, ops: seq<Op>, later: seq<Op>)
    requires capacity > 0 && OnlyWritesAndReads(later)
    requires |Run(capacity, ops).entries| >= capacity - 1
    ensures capacity - 1 <= |Run(capacity, ops + later).entries| <= capacity
  {
    if later == [] {
      assert ops + later == ops;
      SizeBound(capacity, ops);
    } else {
      var front, op := later[..|later| - 1], later[|later| - 1];
      assert later == front + [op];
      SizeStaysNearCapacity(capacity, ops, front);
      assert op in later;
      assert ops + later == (ops + front) + [op];
      RunStep(capacity, ops + front, op);
      RunValid(capacity, ops + front);
      if op.OpPut? {
        SizeAfterPut(capacity, Run(capacity, ops + front), op.key, op.value);
      }
    }
  }
}
