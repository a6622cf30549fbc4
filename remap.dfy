/** Re-keying a member-constraint set (`into_mapped`): every head is visited in
    head-map order and re-keyed by `f`; when the new key already has a list, the
    visited list is spliced in front of it. */
module Remap {
  import opened IndexMap
  import opened Chains
  import opened Invariant

  // ---------------------------------------------------------------------------
  // What re-keying produces

  /** The head map after re-keying: each visited head is inserted under its new
      key, so the last head visited for a new key wins, at the position where
      that new key first appeared. */
  function MappedHeads<R, R2(==)>(heads: seq<(R, ConstraintIndex)>, f: R -> R2): seq<(R2, ConstraintIndex)> {
    if heads == [] then []
    else Insert<R2, ConstraintIndex>(MappedHeads(heads[..|heads| - 1], f), f(heads[|heads| - 1].0), heads[|heads| - 1].1)
  }

  /** The chain of new key `r2` after re-keying: the chains of the old keys that
      `f` sends to `r2`, the one visited last coming first. */
  ghost function MergedChain<R, R2>(
    heads: seq<(R, ConstraintIndex)>, chains: map<R, seq<ConstraintIndex>>, f: R -> R2, r2: R2): seq<ConstraintIndex>
  {
    if heads == [] then []
    else
      (if f(heads[|heads| - 1].0) == r2 then ChainOf(chains, heads[|heads| - 1].0) else [])
      + MergedChain(heads[..|heads| - 1], chains, f, r2)
  }

  /** The old keys of the head map, re-keyed, in head-map order. */
  function MapKeys<R, R2>(heads: seq<(R, ConstraintIndex)>, f: R -> R2): seq<R2> {
    seq(|heads|, j requires 0 <= j < |heads| => f(heads[j].0))
  }

  /** `s` with every element after its first occurrence dropped. */
  function FirstOccurrences<T(==)>(s: seq<T>): seq<T> {
    if s == [] then []
    else
      var d := FirstOccurrences(s[..|s| - 1]);
      if s[|s| - 1] in d then d else d + [s[|s| - 1]]
  }

  /** `FirstOccurrences(s)` holds the elements of `s`, each once, ordered by
      where they first occur in `s`. */
  lemma {:induction false} FirstOccurrencesSpec<T>(s: seq<T>)
    ensures forall x :: x in FirstOccurrences(s) ==> x in s
    ensures forall x :: x in s ==> x in FirstOccurrences(s)
    ensures forall a, b :: 0 <= a < b < |FirstOccurrences(s)| ==> FirstOccurrences(s)[a] != FirstOccurrences(s)[b]
    ensures forall a, b, i :: 0 <= a < b < |FirstOccurrences(s)| && 0 <= i < |s| && s[i] == FirstOccurrences(s)[b] ==>
      FirstOccurrences(s)[a] in s[..i]
  {
    if s != [] {
      var init := s[..|s| - 1];
      var y := s[|s| - 1];
      var d := FirstOccurrences(init);
      FirstOccurrencesSpec(init);
      assert s == init + [y];
      var r := FirstOccurrences(s);
      forall a, b, i | 0 <= a < b < |r| && 0 <= i < |s| && s[i] == r[b]
        ensures r[a] in s[..i]
      {
        assert i < |init| ==> s[i] == init[i] && init[i] in init;
        assert b < |d| ==> d[b] in d;
        if y in d {
          assert r == d;
          if i < |init| {
            assert s[..i] == init[..i];
          } else {
            assert d[a] in d && s[..i] == init;
          }
        } else if b < |d| {
          assert r[a] == d[a] && r[b] == d[b];
          if i < |init| {
            assert s[..i] == init[..i];
          }
        } else {
          assert r[a] == d[a] && r[b] == y;
          if i == |init| {
            assert d[a] in d && s[..i] == init;
          }
        }
      }
    }
  }

  /** The re-keyed head map has one entry per new key, its keys in the order
      in which they first arise from the old keys. */
  lemma {:induction false} MappedHeadsKeys<R, R2>(heads: seq<(R, ConstraintIndex)>, f: R -> R2)
    ensures UniqueKeys(MappedHeads(heads, f))
    ensures Keys(MappedHeads(heads, f)) == FirstOccurrences(MapKeys(heads, f))
  {
    if heads != [] {
      var init := heads[..|heads| - 1];
      var k := f(heads[|heads| - 1].0);
      var v := heads[|heads| - 1].1;
      var m := MappedHeads(init, f);
      MappedHeadsKeys(init, f);
      InsertKeepsKeysUnique<R2, ConstraintIndex>(m, k, v);
      assert MapKeys(heads, f) == MapKeys(init, f) + [k];
      assert MapKeys(heads, f)[..|heads| - 1] == MapKeys(init, f);
      GetIffInKeys(m, k);
      if Get(m, k).None? {
        KeysSnoc(m, (k, v));
      }
    }
  }

  /** Looking a new key up after visiting one more head. */
  lemma MappedHeadsStep<R, R2>(heads: seq<(R, ConstraintIndex)>, f: R -> R2, r2: R2)
    requires heads != []
    ensures Get(MappedHeads(heads, f), r2) ==
      if r2 == f(heads[|heads| - 1].0) then Some(heads[|heads| - 1].1) else Get(MappedHeads(heads[..|heads| - 1], f), r2)
  {
    InsertGet<R2, ConstraintIndex>(MappedHeads(heads[..|heads| - 1], f), f(heads[|heads| - 1].0), heads[|heads| - 1].1, r2);
  }

  /** A new key has an entry exactly when some old key is re-keyed to it. */
  lemma {:induction false} MappedHeadsDefined<R, R2>(heads: seq<(R, ConstraintIndex)>, f: R -> R2, r2: R2)
    ensures Get(MappedHeads(heads, f), r2).None? <==> forall j :: 0 <= j < |heads| ==> f(heads[j].0) != r2
  {
    if heads != [] {
      var init := heads[..|heads| - 1];
      MappedHeadsStep(heads, f, r2);
      MappedHeadsDefined(init, f, r2);
      assert forall j :: 0 <= j < |init| ==> init[j] == heads[j];
    }
  }

  /** The entry of a new key holds the head of the last old key re-keyed to it. */
  lemma {:induction false} MappedHeadsLatest<R, R2>(heads: seq<(R, ConstraintIndex)>, f: R -> R2, j: nat)
    requires j < |heads|
    requires forall j' :: j < j' < |heads| ==> f(heads[j'].0) != f(heads[j].0)
    ensures Get(MappedHeads(heads, f), f(heads[j].0)) == Some(heads[j].1)
  {
    var init := heads[..|heads| - 1];
    MappedHeadsStep(heads, f, f(heads[j].0));
    if j < |heads| - 1 {
      assert init[j] == heads[j];
      assert forall j' :: j < j' < |init| ==> init[j'] == heads[j'];
      MappedHeadsLatest(init, f, j);
    }
  }

  /** A record lies on the merged chain of `r2` exactly when it lies on the
      chain of an old key that is re-keyed to `r2`. */
  lemma {:induction false} MergedChainMembers<R, R2>(
    heads: seq<(R, ConstraintIndex)>, chains: map<R, seq<ConstraintIndex>>, f: R -> R2, r2: R2)
    ensures forall x :: x in MergedChain(heads, chains, f, r2) ==>
      exists j :: 0 <= j < |heads| && f(heads[j].0) == r2 && x in ChainOf(chains, heads[j].0)
    ensures forall x, j :: 0 <= j < |heads| && f(heads[j].0) == r2 && x in ChainOf(chains, heads[j].0) ==>
      x in MergedChain(heads, chains, f, r2)
  {
    if heads != [] {
      var init := heads[..|heads| - 1];
      var n := |heads| - 1;
      MergedChainMembers(init, chains, f, r2);
      assert forall j :: 0 <= j < n ==> init[j] == heads[j];
      forall x | x in MergedChain(heads, chains, f, r2)
        ensures exists j :: 0 <= j < |heads| && f(heads[j].0) == r2 && x in ChainOf(chains, heads[j].0)
      {
        if x !in MergedChain(init, chains, f, r2) {
          assert f(heads[n].0) == r2 && x in ChainOf(chains, heads[n].0);
        }
      }
      forall x, j | 0 <= j < |heads| && f(heads[j].0) == r2 && x in ChainOf(chains, heads[j].0)
        ensures x in MergedChain(heads, chains, f, r2)
      {
        if j < n {
          assert init[j] == heads[j];
        }
      }
    }
  }

  /** In a store that satisfies the invariant, the merged chain of `r2` holds
      exactly the records whose key `f` sends to `r2`. */
  lemma MergedChainRecords<R(!new), R2, S, H, K>(
    heads: seq<(R, ConstraintIndex)>, cs: seq<MemberConstraint<S, H, K>>, regions: seq<RegionVid>,
    chains: map<R, seq<ConstraintIndex>>, keyOf: seq<R>, f: R -> R2, r2: R2)
    requires StoreInvariant(heads, cs, regions, chains, keyOf)
    ensures forall x :: x in MergedChain(heads, chains, f, r2) ==> 0 <= x < |cs| && f(keyOf[x]) == r2
    ensures forall x :: 0 <= x < |cs| && f(keyOf[x]) == r2 ==> x in MergedChain(heads, chains, f, r2)
  {
    MergedChainMembers(heads, chains, f, r2);
    forall x | x in MergedChain(heads, chains, f, r2)
      ensures 0 <= x < |cs| && f(keyOf[x]) == r2
    {
      var j :| 0 <= j < |heads| && f(heads[j].0) == r2 && x in ChainOf(chains, heads[j].0);
      var a :| 0 <= a < |chains[heads[j].0]| && chains[heads[j].0][a] == x;
    }
    forall x | 0 <= x < |cs| && f(keyOf[x]) == r2
      ensures x in MergedChain(heads, chains, f, r2)
    {
      assert keyOf[x] in chains && x in chains[keyOf[x]];
      assert HeadAgrees(heads, cs, chains, keyOf[x]);
      var j :| 0 <= j < |heads| && heads[j] == (keyOf[x], Get(heads, keyOf[x]).value);
      assert x in ChainOf(chains, heads[j].0);
    }
  }

  /** A new key that no old key is re-keyed to has an empty chain. */
  lemma {:induction false} MergedChainUnused<R, R2>(
    heads: seq<(R, ConstraintIndex)>, chains: map<R, seq<ConstraintIndex>>, f: R -> R2, r2: R2)
    requires forall j :: 0 <= j < |heads| ==> f(heads[j].0) != r2
    ensures MergedChain(heads, chains, f, r2) == []
  {
    if heads != [] {
      MergedChainUnused(heads[..|heads| - 1], chains, f, r2);
    }
  }

  /** An old key that no other old key collides with keeps its chain. */
  lemma {:induction false} MergedChainUncollided<R, R2>(
    heads: seq<(R, ConstraintIndex)>, chains: map<R, seq<ConstraintIndex>>, f: R -> R2, j: nat)
    requires j < |heads|
    requires forall j' :: 0 <= j' < |heads| && j' != j ==> f(heads[j'].0) != f(heads[j].0)
    ensures MergedChain(heads, chains, f, f(heads[j].0)) == ChainOf(chains, heads[j].0)
  {
    var init := heads[..|heads| - 1];
    var n := |heads| - 1;
    if j == n {
      MergedChainUnused(init, chains, f, f(heads[j].0));
    } else {
      assert init[j] == heads[j];
      MergedChainUncollided(init, chains, f, j);
    }
  }

  /** In a store that satisfies the invariant, re-keying by an injective `f`
      moves every chain unchanged to its new key. */
  lemma InjectiveKeepsChains<R(!new), R2, S, H, K>(
    heads: seq<(R, ConstraintIndex)>, cs: seq<MemberConstraint<S, H, K>>, regions: seq<RegionVid>,
    chains: map<R, seq<ConstraintIndex>>, keyOf: seq<R>, f: R -> R2, k: R)
    requires StoreInvariant(heads, cs, regions, chains, keyOf)
    requires forall a, b :: f(a) == f(b) ==> a == b
    ensures MergedChain(heads, chains, f, f(k)) == ChainOf(chains, k)
  {
    assert HeadAgrees(heads, cs, chains, k);
    if k in chains {
      var j :| 0 <= j < |heads| && heads[j] == (k, Get(heads, k).value);
      MergedChainUncollided(heads, chains, f, j);
    } else {
      MergedChainUnused(heads, chains, f, f(k));
    }
  }

  // ---------------------------------------------------------------------------
  // The visiting loop of `into_mapped`

  /** The key of every record, re-keyed by `f`. */
  function Rekeyed<R, R2>(keyOf: seq<R>, f: R -> R2): seq<R2> {
    seq(|keyOf|, x requires 0 <= x < |keyOf| => f(keyOf[x]))
  }

  /** What re-keying has done after visiting the first `i` heads: every record
      keeps everything but its link, records of keys not yet visited are
      untouched, the new head map and chains are those of the visited heads,
      each new chain is a complete list of the current arena, and the chain of
      `r2` holds exactly the records of visited keys that `f` sends to `r2`. */
  ghost predicate MergeState<R(!new), R2(!new), S, H, K>(
    heads: seq<(R, ConstraintIndex)>, cs: seq<MemberConstraint<S, H, K>>, chains: map<R, seq<ConstraintIndex>>,
    keyOf: seq<R>, f: R -> R2, i: nat,
    heads2: seq<(R2, ConstraintIndex)>, cs2: seq<MemberConstraint<S, H, K>>, chains2: map<R2, seq<ConstraintIndex>>)
  {
    i <= |heads| && |keyOf| == |cs| && |cs2| == |cs| &&
    (forall x :: 0 <= x < |cs| ==> cs2[x] == cs[x].(nextConstraint := cs2[x].nextConstraint)) &&
    (forall x :: 0 <= x < |cs| && keyOf[x] !in Keys(heads[..i]) ==> cs2[x] == cs[x]) &&
    heads2 == MappedHeads(heads[..i], f) &&
    (forall r2 :: ChainOf(chains2, r2) == MergedChain(heads[..i], chains, f, r2)) &&
    HeadsAgree(heads2, cs2, chains2) &&
    (forall r2, a :: r2 in chains2 && 0 <= a < |chains2[r2]| ==>
      chains2[r2][a] < |keyOf| && keyOf[chains2[r2][a]] in Keys(heads[..i]) && f(keyOf[chains2[r2][a]]) == r2) &&
    (forall x :: 0 <= x < |keyOf| && keyOf[x] in Keys(heads[..i]) ==> f(keyOf[x]) in chains2 && x in chains2[f(keyOf[x])])
  }

  /** Before any head is visited. */
  lemma MergeStart<R(!new), R2(!new), S, H, K>(
    heads: seq<(R, ConstraintIndex)>, cs: seq<MemberConstraint<S, H, K>>, chains: map<R, seq<ConstraintIndex>>,
    keyOf: seq<R>, f: R -> R2)
    requires |keyOf| == |cs|
    ensures MergeState(heads, cs, chains, keyOf, f, 0, [], cs, map[])
  {
    assert heads[..0] == [];
    assert Keys<R, ConstraintIndex>([]) == [];
    forall r2 ensures HeadAgrees<R2, S, H, K>([], cs, map[], r2) {
      assert Get<R2, ConstraintIndex>([], r2) == None;
    }
  }

  /** The next head to visit: its key has a chain starting at it, not yet
      visited, and that chain is still a complete list of the current arena. */
  lemma MergeReady<R(!new), R2(!new), S, H, K>(
    heads: seq<(R, ConstraintIndex)>, cs: seq<MemberConstraint<S, H, K>>, chains: map<R, seq<ConstraintIndex>>,
    keyOf: seq<R>, f: R -> R2, i: nat,
    heads2: seq<(R2, ConstraintIndex)>, cs2: seq<MemberConstraint<S, H, K>>, chains2: map<R2, seq<ConstraintIndex>>)
    requires HeadsAgree(heads, cs, chains) && Partitioned(cs, chains, keyOf)
    requires MergeState(heads, cs, chains, keyOf, f, i, heads2, cs2, chains2) && i < |heads|
    ensures heads[i].0 in chains && chains[heads[i].0] != [] && chains[heads[i].0][0] == heads[i].1
    ensures IsChain(cs2, chains[heads[i].0])
    ensures heads[i].0 !in Keys(heads[..i])
  {
    var r1 := heads[i].0;
    assert Get(heads, r1) == Some(heads[i].1);
    assert HeadAgrees(heads, cs, chains, r1);
    var xs := chains[r1];
    forall j | 0 <= j < i ensures Keys(heads[..i])[j] != r1 {
      assert Keys(heads[..i])[j] == heads[j].0;
    }
    forall a | 0 <= a < |xs| ensures cs2[xs[a]].nextConstraint == cs[xs[a]].nextConstraint {
      assert keyOf[xs[a]] == r1;
    }
    ChainSameLinks(cs, cs2, xs);
  }

  /** The inputs of one visit: the state before it, and the arena after the
      splice of the visited list `chains[heads[i].0]`, whose last record is
      `m`, in front of the list of its new key when that key already has one. */
  ghost predicate StepInputs<R(!new), R2(!new), S, H, K>(
    heads: seq<(R, ConstraintIndex)>, cs: seq<MemberConstraint<S, H, K>>, chains: map<R, seq<ConstraintIndex>>,
    keyOf: seq<R>, f: R -> R2, i: nat,
    heads2: seq<(R2, ConstraintIndex)>, cs2: seq<MemberConstraint<S, H, K>>, chains2: map<R2, seq<ConstraintIndex>>,
    m: ConstraintIndex, cs3: seq<MemberConstraint<S, H, K>>)
  {
    HeadsAgree(heads, cs, chains) && Partitioned(cs, chains, keyOf) &&
    MergeState(heads, cs, chains, keyOf, f, i, heads2, cs2, chains2) && i < |heads| &&
    heads[i].0 in chains && chains[heads[i].0] != [] && m == Last(chains[heads[i].0]) &&
    (Get(heads2, f(heads[i].0)).None? ==> cs3 == cs2) &&
    (Get(heads2, f(heads[i].0)).Some? ==>
      |cs3| == |cs2| && m < |cs2| && cs3[m] == cs2[m].(nextConstraint := Get(heads2, f(heads[i].0))) &&
      forall j :: 0 <= j < |cs2| && j != m ==> cs3[j] == cs2[j])
  }

  /** The visited keys after one more visit. */
  lemma VisitedSnoc<R>(heads: seq<(R, ConstraintIndex)>, i: nat)
    requires i < |heads|
    ensures forall k :: k in Keys(heads[..i + 1]) <==> k in Keys(heads[..i]) || k == heads[i].0
  {
    assert heads[..i + 1] == heads[..i] + [heads[i]];
    KeysSnoc(heads[..i], heads[i]);
  }

  /** The spliced record belongs to the visited key. */
  lemma SplicedOwner<R(!new), R2(!new), S, H, K>(
    heads: seq<(R, ConstraintIndex)>, cs: seq<MemberConstraint<S, H, K>>, chains: map<R, seq<ConstraintIndex>>,
    keyOf: seq<R>, f: R -> R2, i: nat,
    heads2: seq<(R2, ConstraintIndex)>, cs2: seq<MemberConstraint<S, H, K>>, chains2: map<R2, seq<ConstraintIndex>>,
    m: ConstraintIndex, cs3: seq<MemberConstraint<S, H, K>>)
    requires StepInputs(heads, cs, chains, keyOf, f, i, heads2, cs2, chains2, m, cs3)
    ensures m < |keyOf| && keyOf[m] == heads[i].0
  {
    assert m == chains[heads[i].0][|chains[heads[i].0]| - 1];
  }

  /** A visit changes one link at most, and only on a record of the visited key. */
  lemma StepRecords<R(!new), R2(!new), S, H, K>(
    heads: seq<(R, ConstraintIndex)>, cs: seq<MemberConstraint<S, H, K>>, chains: map<R, seq<ConstraintIndex>>,
    keyOf: seq<R>, f: R -> R2, i: nat,
    heads2: seq<(R2, ConstraintIndex)>, cs2: seq<MemberConstraint<S, H, K>>, chains2: map<R2, seq<ConstraintIndex>>,
    m: ConstraintIndex, cs3: seq<MemberConstraint<S, H, K>>)
    requires StepInputs(heads, cs, chains, keyOf, f, i, heads2, cs2, chains2, m, cs3)
    ensures |cs3| == |cs|
    ensures forall x :: 0 <= x < |cs| ==> cs3[x] == cs[x].(nextConstraint := cs3[x].nextConstraint)
    ensures forall x :: 0 <= x < |cs| && keyOf[x] !in Keys(heads[..i + 1]) ==> cs3[x] == cs[x]
  {
    VisitedSnoc(heads, i);
    SplicedOwner(heads, cs, chains, keyOf, f, i, heads2, cs2, chains2, m, cs3);
  }

  /** A visit extends the head map and the chains as the specification does. */
  lemma StepSpec<R(!new), R2(!new), S, H, K>(
    heads: seq<(R, ConstraintIndex)>, cs: seq<MemberConstraint<S, H, K>>, chains: map<R, seq<ConstraintIndex>>,
    keyOf: seq<R>, f: R -> R2, i: nat,
    heads2: seq<(R2, ConstraintIndex)>, cs2: seq<MemberConstraint<S, H, K>>, chains2: map<R2, seq<ConstraintIndex>>,
    m: ConstraintIndex, cs3: seq<MemberConstraint<S, H, K>>)
    requires StepInputs(heads, cs, chains, keyOf, f, i, heads2, cs2, chains2, m, cs3)
    ensures Insert<R2, ConstraintIndex>(heads2, f(heads[i].0), heads[i].1) == MappedHeads(heads[..i + 1], f)
    ensures var chains3 := chains2[f(heads[i].0) := chains[heads[i].0] + ChainOf(chains2, f(heads[i].0))];
      forall r2 :: ChainOf(chains3, r2) == MergedChain(heads[..i + 1], chains, f, r2)
  {
    var hs := heads[..i + 1];
    assert hs[..|hs| - 1] == heads[..i];
    assert hs[|hs| - 1] == heads[i];
  }

  /** After a visit, new key `r2` still agrees with its chain. */
  lemma StepHeadOf<R(!new), R2(!new), S, H, K>(
    heads: seq<(R, ConstraintIndex)>, cs: seq<MemberConstraint<S, H, K>>, chains: map<R, seq<ConstraintIndex>>,
    keyOf: seq<R>, f: R -> R2, i: nat,
    heads2: seq<(R2, ConstraintIndex)>, cs2: seq<MemberConstraint<S, H, K>>, chains2: map<R2, seq<ConstraintIndex>>,
    m: ConstraintIndex, cs3: seq<MemberConstraint<S, H, K>>, r2: R2)
    requires StepInputs(heads, cs, chains, keyOf, f, i, heads2, cs2, chains2, m, cs3)
    ensures HeadAgrees(Insert<R2, ConstraintIndex>(heads2, f(heads[i].0), heads[i].1), cs3,
                       chains2[f(heads[i].0) := chains[heads[i].0] + ChainOf(chains2, f(heads[i].0))], r2)
  {
    var r1 := heads[i].0;
    var xs := chains[r1];
    MergeReady(heads, cs, chains, keyOf, f, i, heads2, cs2, chains2);
    SplicedOwner(heads, cs, chains, keyOf, f, i, heads2, cs2, chains2, m, cs3);
    InsertGet<R2, ConstraintIndex>(heads2, f(r1), heads[i].1, r2);
    assert HeadAgrees(heads2, cs2, chains2, r2);
    assert HeadAgrees(heads2, cs2, chains2, f(r1));
    if r2 == f(r1) {
      if Get(heads2, r2).Some? {
        var ys := chains2[r2];
        forall a, b | 0 <= a < |xs| && 0 <= b < |ys| ensures xs[a] != ys[b] {
          assert keyOf[xs[a]] == r1;
          assert keyOf[ys[b]] in Keys(heads[..i]);
        }
        SpliceChains(cs2, cs3, xs, ys);
      } else {
        assert xs + [] == xs;
      }
    } else if r2 in chains2 && Get(heads2, f(r1)).Some? {
      var ys := chains2[r2];
      forall b | 0 <= b < |ys| ensures ys[b] != m {
        assert keyOf[ys[b]] in Keys(heads[..i]);
      }
      ChainUntouched(cs2, cs3, ys, m);
    }
  }

  /** A visit keeps every new key in agreement with its chain. */
  lemma StepHeads<R(!new), R2(!new), S, H, K>(
    heads: seq<(R, ConstraintIndex)>, cs: seq<MemberConstraint<S, H, K>>, chains: map<R, seq<ConstraintIndex>>,
    keyOf: seq<R>, f: R -> R2, i: nat,
    heads2: seq<(R2, ConstraintIndex)>, cs2: seq<MemberConstraint<S, H, K>>, chains2: map<R2, seq<ConstraintIndex>>,
    m: ConstraintIndex, cs3: seq<MemberConstraint<S, H, K>>)
    requires StepInputs(heads, cs, chains, keyOf, f, i, heads2, cs2, chains2, m, cs3)
    ensures HeadsAgree(Insert<R2, ConstraintIndex>(heads2, f(heads[i].0), heads[i].1), cs3,
                       chains2[f(heads[i].0) := chains[heads[i].0] + ChainOf(chains2, f(heads[i].0))])
  {
    var heads3 := Insert<R2, ConstraintIndex>(heads2, f(heads[i].0), heads[i].1);
    var chains3 := chains2[f(heads[i].0) := chains[heads[i].0] + ChainOf(chains2, f(heads[i].0))];
    InsertKeepsKeysUnique<R2, ConstraintIndex>(heads2, f(heads[i].0), heads[i].1);
    forall r2 ensures HeadAgrees(heads3, cs3, chains3, r2) {
      StepHeadOf(heads, cs, chains, keyOf, f, i, heads2, cs2, chains2, m, cs3, r2);
    }
  }

  /** After a visit, the records on each new chain belong to visited keys
      that `f` sends to that chain's key. */
  lemma StepOwners<R(!new), R2(!new), S, H, K>(
    heads: seq<(R, ConstraintIndex)>, cs: seq<MemberConstraint<S, H, K>>, chains: map<R, seq<ConstraintIndex>>,
    keyOf: seq<R>, f: R -> R2, i: nat,
    heads2: seq<(R2, ConstraintIndex)>, cs2: seq<MemberConstraint<S, H, K>>, chains2: map<R2, seq<ConstraintIndex>>,
    m: ConstraintIndex, cs3: seq<MemberConstraint<S, H, K>>)
    requires StepInputs(heads, cs, chains, keyOf, f, i, heads2, cs2, chains2, m, cs3)
    ensures var chains3 := chains2[f(heads[i].0) := chains[heads[i].0] + ChainOf(chains2, f(heads[i].0))];
      forall r2, a :: r2 in chains3 && 0 <= a < |chains3[r2]| ==>
        chains3[r2][a] < |keyOf| && keyOf[chains3[r2][a]] in Keys(heads[..i + 1]) && f(keyOf[chains3[r2][a]]) == r2
  {
    var r1 := heads[i].0;
    var xs := chains[r1];
    var chains3 := chains2[f(r1) := xs + ChainOf(chains2, f(r1))];
    VisitedSnoc(heads, i);
    forall r2, a | r2 in chains3 && 0 <= a < |chains3[r2]|
      ensures chains3[r2][a] < |keyOf| && keyOf[chains3[r2][a]] in Keys(heads[..i + 1]) && f(keyOf[chains3[r2][a]]) == r2
    {
      if r2 == f(r1) && a < |xs| {
        assert chains3[r2][a] == xs[a];
      } else if r2 == f(r1) {
        assert r2 in chains2;
        assert chains3[r2][a] == chains2[r2][a - |xs|];
      }
    }
  }

  /** After a visit, every record of a visited key lies on the chain of its new key. */
  lemma StepCoverage<R(!new), R2(!new), S, H, K>(
    heads: seq<(R, ConstraintIndex)>, cs: seq<MemberConstraint<S, H, K>>, chains: map<R, seq<ConstraintIndex>>,
    keyOf: seq<R>, f: R -> R2, i: nat,
    heads2: seq<(R2, ConstraintIndex)>, cs2: seq<MemberConstraint<S, H, K>>, chains2: map<R2, seq<ConstraintIndex>>,
    m: ConstraintIndex, cs3: seq<MemberConstraint<S, H, K>>)
    requires StepInputs(heads, cs, chains, keyOf, f, i, heads2, cs2, chains2, m, cs3)
    ensures var chains3 := chains2[f(heads[i].0) := chains[heads[i].0] + ChainOf(chains2, f(heads[i].0))];
      forall x :: 0 <= x < |keyOf| && keyOf[x] in Keys(heads[..i + 1]) ==> f(keyOf[x]) in chains3 && x in chains3[f(keyOf[x])]
  {
    var r1 := heads[i].0;
    var xs := chains[r1];
    var chains3 := chains2[f(r1) := xs + ChainOf(chains2, f(r1))];
    VisitedSnoc(heads, i);
    forall x | 0 <= x < |keyOf| && keyOf[x] in Keys(heads[..i + 1])
      ensures f(keyOf[x]) in chains3 && x in chains3[f(keyOf[x])]
    {
      if keyOf[x] == r1 {
        assert x in xs;
      } else if f(keyOf[x]) == f(r1) {
        assert x in chains2[f(r1)];
      }
    }
  }

  /** One visit takes the state for `i` heads to the state for `i + 1`. */
  lemma MergeStep<R(!new), R2(!new), S, H, K>(
    heads: seq<(R, ConstraintIndex)>, cs: seq<MemberConstraint<S, H, K>>, chains: map<R, seq<ConstraintIndex>>,
    keyOf: seq<R>, f: R -> R2, i: nat,
    heads2: seq<(R2, ConstraintIndex)>, cs2: seq<MemberConstraint<S, H, K>>, chains2: map<R2, seq<ConstraintIndex>>,
    m: ConstraintIndex, cs3: seq<MemberConstraint<S, H, K>>)
    requires StepInputs(heads, cs, chains, keyOf, f, i, heads2, cs2, chains2, m, cs3)
    ensures MergeState(heads, cs, chains, keyOf, f, i + 1,
                       Insert<R2, ConstraintIndex>(heads2, f(heads[i].0), heads[i].1), cs3,
                       chains2[f(heads[i].0) := chains[heads[i].0] + ChainOf(chains2, f(heads[i].0))])
  {
    StepRecords(heads, cs, chains, keyOf, f, i, heads2, cs2, chains2, m, cs3);
    StepSpec(heads, cs, chains, keyOf, f, i, heads2, cs2, chains2, m, cs3);
    StepHeads(heads, cs, chains, keyOf, f, i, heads2, cs2, chains2, m, cs3);
    StepOwners(heads, cs, chains, keyOf, f, i, heads2, cs2, chains2, m, cs3);
    StepCoverage(heads, cs, chains, keyOf, f, i, heads2, cs2, chains2, m, cs3);
  }

  /** After the last visit the re-keyed store satisfies the store invariant,
      with the specified head map and chains. */
  lemma MergeDone<R(!new), R2(!new), S, H, K>(
    heads: seq<(R, ConstraintIndex)>, cs: seq<MemberConstraint<S, H, K>>, regions: seq<RegionVid>,
    chains: map<R, seq<ConstraintIndex>>, keyOf: seq<R>, f: R -> R2,
    heads2: seq<(R2, ConstraintIndex)>, cs2: seq<MemberConstraint<S, H, K>>, chains2: map<R2, seq<ConstraintIndex>>)
    requires StoreInvariant(heads, cs, regions, chains, keyOf)
    requires MergeState(heads, cs, chains, keyOf, f, |heads|, heads2, cs2, chains2)
    ensures StoreInvariant(heads2, cs2, regions, chains2, Rekeyed(keyOf, f))
    ensures heads2 == MappedHeads(heads, f)
    ensures forall r2 :: ChainOf(chains2, r2) == MergedChain(heads, chains, f, r2)
  {
    assert heads[..|heads|] == heads;
    var keyOf2 := Rekeyed(keyOf, f);
    forall x | 0 <= x < |cs2|
      ensures keyOf2[x] in chains2 && x in chains2[keyOf2[x]]
    {
      assert keyOf[x] in chains && x in chains[keyOf[x]];
      assert HeadAgrees(heads, cs, chains, keyOf[x]);
      GetIffInKeys(heads, keyOf[x]);
    }
    assert RangesInBounds(cs2, regions) by {
      assert forall x :: 0 <= x < |cs2| ==> cs2[x].startIndex == cs[x].startIndex && cs2[x].endIndex == cs[x].endIndex;
    }
  }
}
