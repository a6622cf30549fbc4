/** An insertion-ordered map, as the head map of a member-constraint set uses it:
    a sequence of entries with at most one entry per key. Inserting a key that is
    already present overwrites its value and keeps its position; inserting a new
    key appends it. Hashing is not modelled, only key equality and order. */
module IndexMap {

  datatype Option<T> = None | Some(value: T)

  /** No key occurs in two entries. */
  ghost predicate UniqueKeys<K, V>(m: seq<(K, V)>) {
    forall a, b :: 0 <= a < b < |m| ==> m[a].0 != m[b].0
  }

  /** The keys, in the order the map iterates them. */
  function Keys<K, V>(m: seq<(K, V)>): seq<K> {
    seq(|m|, j requires 0 <= j < |m| => m[j].0)
  }

  /** Looks `k` up. */
  function Get<K(==), V>(m: seq<(K, V)>, k: K): (r: Option<V>)
    ensures r.None? <==> forall j :: 0 <= j < |m| ==> m[j].0 != k
    ensures r.Some? ==> exists j :: 0 <= j < |m| && m[j] == (k, r.value)
    ensures UniqueKeys(m) ==> forall j :: 0 <= j < |m| && m[j].0 == k ==> r == Some(m[j].1)
  {
    if m == [] then None
    else if m[0].0 == k then Some(m[0].1)
    else
      var r := Get(m[1..], k);
      assert forall j :: 1 <= j < |m| ==> m[j] == m[1..][j - 1];
      r
  }

  /** Inserts `k` with value `v`: an existing entry for `k` is overwritten in
      place, otherwise a new entry goes at the end. */
  function Insert<K(==), V>(m: seq<(K, V)>, k: K, v: V): (r: seq<(K, V)>)
    ensures Get(m, k).Some? ==> Keys(r) == Keys(m)
    ensures Get(m, k).None? ==> r == m + [(k, v)]
  {
    if m == [] then [(k, v)]
    else if m[0].0 == k then [(k, v)] + m[1..]
    else
      var r := [m[0]] + Insert(m[1..], k, v);
      assert Get(m, k) == Get(m[1..], k);
      assert Get(m, k).Some? ==> Keys(r) == Keys(m) by {
        if Get(m, k).Some? {
          assert forall j :: 1 <= j < |m| ==> Keys(r)[j] == Keys(Insert(m[1..], k, v))[j - 1];
        }
      }
      r
  }

  /** After an insertion, `k` finds the new value and every other key finds
      what it found before. */
  lemma {:induction false} InsertGet<K, V>(m: seq<(K, V)>, k: K, v: V, k': K)
    ensures Get(Insert(m, k, v), k') == if k' == k then Some(v) else Get(m, k')
  {
    if m != [] && m[0].0 != k {
      InsertGet(m[1..], k, v, k');
      assert ([m[0]] + Insert(m[1..], k, v))[1..] == Insert(m[1..], k, v);
    }
  }

  /** Insertion never gives a key a second entry. */
  lemma InsertKeepsKeysUnique<K, V>(m: seq<(K, V)>, k: K, v: V)
    requires UniqueKeys(m)
    ensures UniqueKeys(Insert(m, k, v))
  {
    var r := Insert(m, k, v);
    if Get(m, k).Some? {
      assert forall j :: 0 <= j < |m| ==> r[j].0 == Keys(r)[j] == Keys(m)[j] == m[j].0;
    }
  }

  /** A key has an entry exactly when it is among the keys. */
  lemma GetIffInKeys<K, V>(m: seq<(K, V)>, k: K)
    ensures Get(m, k).Some? <==> k in Keys(m)
  {
    if Get(m, k).Some? {
      var j :| 0 <= j < |m| && m[j] == (k, Get(m, k).value);
      assert Keys(m)[j] == k;
    }
  }

  /** The keys of a map extended by one entry. */
  lemma KeysSnoc<K, V>(m: seq<(K, V)>, e: (K, V))
    ensures Keys(m + [e]) == Keys(m) + [e.0]
  {
    assert forall j :: 0 <= j < |m| ==> (m + [e])[j] == m[j];
  }
}
