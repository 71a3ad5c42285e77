/** How a list of cells and a map from key to iterator agree, whatever the cells are: heap nodes in the
    class of Cache.dfy, values in the thread model of CacheThreads.dfy. */
module Linking {
  import opened CacheSpec

  /** The keys stored in a sequence of cells. */
  function KeysOf<C>(cells: seq<C>, key: C -> string): (keys: seq<string>)
    ensures |keys| == |cells| && forall i :: 0 <= i < |cells| ==> keys[i] == key(cells[i])
  {
    seq(|cells|, i requires 0 <= i < |cells| => key(cells[i]))
  }

  /** Every cell is the one that the iterator of its key names, no key has two cells, and no iterator
      is left over. */
  ghost predicate Linked<C>(cells: seq<C>, iterators: map<string, C>, key: C -> string) {
    if cells == [] then iterators == map[]
    else
      var cell := cells[0];
      && key(cell) in iterators && iterators[key(cell)] == cell
      && Linked(cells[1..], iterators - {key(cell)}, key)
  }

  /** Agreement makes the keys of the list distinct, and the same as those of the iterators; each
      stored iterator is the cell of the list that holds its key. */
  lemma {:induction false} LinkedKeys<C>(cells: seq<C>, iterators: map<string, C>, key: C -> string)
    requires Linked(cells, iterators, key)
    ensures NoDup(KeysOf(cells, key))
    ensures forall k :: k in KeysOf(cells, key) <==> k in iterators
    ensures forall i :: 0 <= i < |cells| ==> iterators[KeysOf(cells, key)[i]] == cells[i]
  {
    if cells != [] {
      LinkedKeys(cells[1..], iterators - {key(cells[0])}, key);
      assert KeysOf(cells, key) == [key(cells[0])] + KeysOf(cells[1..], key);
    }
  }
}
