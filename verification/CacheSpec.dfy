/** The sequential meaning of `Cache` (proxy/cache.cpp): an order list, newest write first, and a
    map of entries.  The class in Cache.dfy and the thread model in CacheThreads.dfy are both proved
    against the functions of this module. */
module CacheSpec {
  import opened CacheEntries

  datatype CacheState = CacheState(order: seq<string>, entries: map<string, CacheEntry>)

  const EMPTY := CacheState([], map[])

  ghost predicate NoDup<T>(s: seq<T>) {
    forall i, j :: 0 <= i < j < |s| ==> s[i] != s[j]
  }

  /** The list and the map hold the same keys, each once. */
  ghost predicate Valid(s: CacheState) {
    NoDup(s.order) && forall k :: k in s.order <==> k in s.entries
  }

  /** The list after `access_order_.erase` of the cell holding `key`, if there is one. */
  function Without(s: seq<string>, key: string): seq<string> {
    if s == [] then []
    else if s[0] == key then Without(s[1..], key)
    else [s[0]] + Without(s[1..], key)
  }

  function EvictOldest(s: CacheState): CacheState {
    if s.order == [] then s
    else
      var oldest := s.order[|s.order| - 1];
      CacheState(s.order[..|s.order| - 1], s.entries - {oldest})
  }

  /** Storing without looking at the capacity: overwrite, then move to the front. */
  function Store(s: CacheState, key: string, value: CacheEntry): CacheState {
    CacheState([key] + Without(s.order, key), s.entries[key := value])
  }

  function MakeRoom(capacity: nat, s: CacheState): CacheState {
    if |s.entries| >= capacity then EvictOldest(s) else s
  }

  /** The capacity test comes first and does not ask whether `key` is already held. */
  function Put(capacity: nat, s: CacheState, key: string, value: CacheEntry): CacheState {
    Store(MakeRoom(capacity, s), key, value)
  }

  function Remove(s: CacheState, key: string): CacheState {
    if key in s.entries then CacheState(Without(s.order, key), s.entries - {key}) else s
  }

  function Get(s: CacheState, key: string): Option<CacheEntry> {
    if key in s.entries then Some(s.entries[key]) else None
  }

  datatype Op =
    | OpGet(key: string)
    | OpPut(key: string, value: CacheEntry)
    | OpRemove(key: string)
    | OpClear
    | OpSize

  datatype Reply = Found(entry: Option<CacheEntry>) | Count(n: nat) | Unit

  predicate IsRead(op: Op) { op.OpGet? || op.OpSize? }

  function Apply(capacity: nat, s: CacheState, op: Op): CacheState {
    match op
    case OpGet(_) => s
    case OpPut(k, v) => Put(capacity, s, k, v)
    case OpRemove(k) => Remove(s, k)
    case OpClear => EMPTY
    case OpSize => s
  }

  function Answer(s: CacheState, op: Op): Reply {
    match op
    case OpGet(k) => Found(Get(s, k))
    case OpSize => Count(|s.entries|)
    case _ => Unit
  }

  /** The cache after a trace of operations, oldest operation first. */
  function Run(capacity: nat, ops: seq<Op>): CacheState {
    if ops == [] then EMPTY
    else Apply(capacity, Run(capacity, ops[..|ops| - 1]), ops[|ops| - 1])
  }

  // ---------------------------------------------------------------- list lemmas

  lemma {:induction false} WithoutMembers(s: seq<string>, key: string)
    ensures forall k :: k in Without(s, key) <==> k in s && k != key
    ensures |Without(s, key)| <= |s|
  {
    if s != [] {
      WithoutMembers(s[1..], key);
      assert s == [s[0]] + s[1..];
    }
  }

  lemma {:induction false} WithoutNoDup(s: seq<string>, key: string)
    requires NoDup(s)
    ensures NoDup(Without(s, key))
  {
    if s != [] {
      WithoutNoDup(s[1..], key);
      WithoutMembers(s[1..], key);
      assert s[0] !in s[1..];
    }
  }

  lemma {:induction false} WithoutAbsent(s: seq<string>, key: string)
    requires key !in s
    ensures Without(s, key) == s
  {
    if s != [] {
      assert s[0] in s;
      WithoutAbsent(s[1..], key);
    }
  }

  lemma {:induction false} WithoutConcat(s: seq<string>, t: seq<string>, key: string)
    ensures Without(s + t, key) == Without(s, key) + Without(t, key)
  {
    if s == [] {
      assert s + t == t;
    } else {
      assert (s + t)[1..] == s[1..] + t;
      WithoutConcat(s[1..], t, key);
    }
  }

  /** On a list without duplicates, erasing by key is erasing one position. */
  lemma WithoutAt(s: seq<string>, i: nat)
    requires NoDup(s) && i < |s|
    ensures Without(s, s[i]) == s[..i] + s[i + 1..]
    ensures |Without(s, s[i])| == |s| - 1
  {
    var key := s[i];
    assert s == s[..i] + ([key] + s[i + 1..]);
    WithoutConcat(s[..i], [key] + s[i + 1..], key);
    WithoutConcat([key], s[i + 1..], key);
    assert Without([key], key) == [];
    WithoutAbsent(s[..i], key);
    WithoutAbsent(s[i + 1..], key);
  }

  /** A list without duplicates is as long as its set of elements. */
  lemma {:induction false} NoDupCardinality<T>(s: seq<T>)
    requires NoDup(s)
    ensures |s| == |set x | x in s|
  {
    if s != [] {
      var last := s[|s| - 1];
      var rest := s[..|s| - 1];
      NoDupCardinality(rest);
      assert s == rest + [last];
      assert (set x | x in s) == (set x | x in rest) + {last};
      assert last !in rest;
    }
  }

  lemma SizeIsLength(s: CacheState)
    requires Valid(s)
    ensures |s.entries| == |s.order|
  {
    NoDupCardinality(s.order);
    assert (set k | k in s.order) == s.entries.Keys;
  }

  // ---------------------------------------------------------------- the invariant

  /** `s'` is `s` with some of its oldest keys dropped. */
  ghost predicate Trimmed(s: CacheState, s': CacheState) {
    && Valid(s') && s'.order <= s.order
    && forall k :: k in s'.entries ==> k in s.entries && s'.entries[k] == s.entries[k]
  }

  lemma EvictValid(s: CacheState)
    requires Valid(s)
    ensures Trimmed(s, EvictOldest(s))
    ensures |EvictOldest(s).order| == if s.order == [] then 0 else |s.order| - 1
  {
    if s.order != [] {
      var rest, oldest := s.order[..|s.order| - 1], s.order[|s.order| - 1];
      assert s.order == rest + [oldest];
      assert oldest !in rest;
    }
  }

  lemma MakeRoomValid(capacity: nat, s: CacheState)
    requires Valid(s)
    ensures Trimmed(s, MakeRoom(capacity, s))
    ensures |MakeRoom(capacity, s).order| ==
            if |s.order| >= capacity && s.order != [] then |s.order| - 1 else |s.order|
  {
    SizeIsLength(s);
    EvictValid(s);
  }

  lemma StoreValid(s: CacheState, key: string, value: CacheEntry)
    requires Valid(s)
    ensures Valid(Store(s, key, value))
  {
    var rest := Without(s.order, key);
    WithoutMembers(s.order, key);
    WithoutNoDup(s.order, key);
    assert key !in rest;
    assert forall i :: 0 < i < |[key] + rest| ==> ([key] + rest)[i] == rest[i - 1];
  }

  lemma PutValid(capacity: nat, s: CacheState, key: string, value: CacheEntry)
    requires Valid(s)
    ensures Valid(Put(capacity, s, key, value))
  {
    MakeRoomValid(capacity, s);
    StoreValid(MakeRoom(capacity, s), key, value);
  }

  lemma RemoveValid(s: CacheState, key: string)
    requires Valid(s)
    ensures Valid(Remove(s, key))
  {
    WithoutMembers(s.order, key);
    WithoutNoDup(s.order, key);
  }

  lemma ApplyValid(capacity: nat, s: CacheState, op: Op)
    requires Valid(s)
    ensures Valid(Apply(capacity, s, op))
  {
    match op
    case OpPut(k, v) => PutValid(capacity, s, k, v);
    case OpRemove(k) => RemoveValid(s, k);
    case _ =>
  }

  lemma {:induction false} RunValid(capacity: nat, ops: seq<Op>)
    ensures Valid(Run(capacity, ops))
    ensures |Run(capacity, ops).entries| == |Run(capacity, ops).order|
  {
    if ops != [] {
      RunValid(capacity, ops[..|ops| - 1]);
      ApplyValid(capacity, Run(capacity, ops[..|ops| - 1]), ops[|ops| - 1]);
    }
    SizeIsLength(Run(capacity, ops));
  }

  lemma RunStep(capacity: nat, ops: seq<Op>, op: Op)
    ensures Run(capacity, ops + [op]) == Apply(capacity, Run(capacity, ops), op)
  {
    assert (ops + [op])[..|ops|] == ops;
  }
}
