/** The invariant that ties the head map, the record arena and the candidate
    arena of a member-constraint set together, stated over plain values. */
module Invariant {
  import opened IndexMap
  import opened Chains

  // ---------------------------------------------------------------------------
  // The store invariant, over the store's fields as values

  /** Key `k` has an entry in the head map exactly when it has a chain; the
      chain is then a complete linked list and the entry points at its first
      record. */
  ghost predicate HeadAgrees<R, S, H, K>(
    heads: seq<(R, ConstraintIndex)>, cs: seq<MemberConstraint<S, H, K>>, chains: map<R, seq<ConstraintIndex>>, k: R)
  {
    (k in chains <==> Get(heads, k).Some?) &&
    (k in chains ==> IsChain(cs, chains[k]) && Get(heads, k) == Some(chains[k][0]))
  }

  /** The head map has one entry per key, and every key agrees with its chain. */
  ghost predicate HeadsAgree<R(!new), S, H, K>(
    heads: seq<(R, ConstraintIndex)>, cs: seq<MemberConstraint<S, H, K>>, chains: map<R, seq<ConstraintIndex>>)
  {
    UniqueKeys(heads) && forall k :: HeadAgrees(heads, cs, chains, k)
  }

  /** Every record lies on exactly one chain: the chain of its key. */
  ghost predicate Partitioned<R, S, H, K>(
    cs: seq<MemberConstraint<S, H, K>>, chains: map<R, seq<ConstraintIndex>>, keyOf: seq<R>)
  {
    |keyOf| == |cs| &&
    (forall i :: 0 <= i < |cs| ==> keyOf[i] in chains && i in chains[keyOf[i]]) &&
    (forall k, a :: k in chains && 0 <= a < |chains[k]| ==> chains[k][a] < |keyOf| && keyOf[chains[k][a]] == k)
  }

  /** Every record's candidate slice lies within the candidate arena. */
  ghost predicate RangesInBounds<S, H, K>(cs: seq<MemberConstraint<S, H, K>>, regions: seq<RegionVid>) {
    forall i :: 0 <= i < |cs| ==> cs[i].startIndex <= cs[i].endIndex <= |regions|
  }

  /** Candidate slices follow one another in record order, so no two records
      share a candidate. */
  ghost predicate RangesDisjoint<S, H, K>(cs: seq<MemberConstraint<S, H, K>>) {
    forall i, j :: 0 <= i < j < |cs| ==> cs[i].endIndex <= cs[j].startIndex
  }

  ghost predicate StoreInvariant<R(!new), S, H, K>(
    heads: seq<(R, ConstraintIndex)>, cs: seq<MemberConstraint<S, H, K>>, regions: seq<RegionVid>,
    chains: map<R, seq<ConstraintIndex>>, keyOf: seq<R>)
  {
    HeadsAgree(heads, cs, chains) && Partitioned(cs, chains, keyOf) &&
    RangesInBounds(cs, regions) && RangesDisjoint(cs)
  }

  /** Adding a record at the end of the arena, linked to the old head of `k`,
      and making it the new head of `k` keeps the store invariant. */
  lemma PushKeepsInvariant<R(!new), S, H, K>(
    heads: seq<(R, ConstraintIndex)>, cs: seq<MemberConstraint<S, H, K>>, regions: seq<RegionVid>,
    chains: map<R, seq<ConstraintIndex>>, keyOf: seq<R>,
    k: R, record: MemberConstraint<S, H, K>, added: seq<RegionVid>)
    requires StoreInvariant(heads, cs, regions, chains, keyOf)
    requires record.nextConstraint == Get(heads, k)
    requires record.startIndex == |regions| && record.endIndex == |regions| + |added|
    ensures StoreInvariant(Insert<R, ConstraintIndex>(heads, k, |cs|), cs + [record], regions + added,
                           chains[k := [|cs|] + ChainOf(chains, k)], keyOf + [k])
  {
    PushKeepsHeads(heads, cs, chains, k, record);
    PushKeepsPartition(cs, chains, keyOf, k, record);
    assert forall i :: 0 <= i < |cs| ==> (cs + [record])[i] == cs[i];
    assert RangesInBounds(cs + [record], regions + added);
    assert RangesDisjoint(cs + [record]);
  }

  lemma PushKeepsHeads<R(!new), S, H, K>(
    heads: seq<(R, ConstraintIndex)>, cs: seq<MemberConstraint<S, H, K>>,
    chains: map<R, seq<ConstraintIndex>>, k: R, record: MemberConstraint<S, H, K>)
    requires HeadsAgree(heads, cs, chains)
    requires record.nextConstraint == Get(heads, k)
    ensures HeadsAgree(Insert<R, ConstraintIndex>(heads, k, |cs|), cs + [record], chains[k := [|cs|] + ChainOf(chains, k)])
  {
    var heads' := Insert<R, ConstraintIndex>(heads, k, |cs|);
    var cs' := cs + [record];
    var chains' := chains[k := [|cs|] + ChainOf(chains, k)];
    InsertKeepsKeysUnique<R, ConstraintIndex>(heads, k, |cs|);
    forall k' | true
      ensures HeadAgrees(heads', cs', chains', k')
    {
      PushKeepsHeadOf(heads, cs, chains, k, record, k');
    }
  }

  lemma PushKeepsHeadOf<R(!new), S, H, K>(
    heads: seq<(R, ConstraintIndex)>, cs: seq<MemberConstraint<S, H, K>>,
    chains: map<R, seq<ConstraintIndex>>, k: R, record: MemberConstraint<S, H, K>, k': R)
    requires HeadsAgree(heads, cs, chains)
    requires record.nextConstraint == Get(heads, k)
    ensures HeadAgrees(Insert<R, ConstraintIndex>(heads, k, |cs|), cs + [record], chains[k := [|cs|] + ChainOf(chains, k)], k')
  {
    InsertGet<R, ConstraintIndex>(heads, k, |cs|, k');
    assert HeadAgrees(heads, cs, chains, k');
    if k' == k {
      assert HeadAgrees(heads, cs, chains, k);
      ChainPushed(cs, record, ChainOf(chains, k));
    } else if k' in chains {
      ChainGrown(cs, record, chains[k']);
    }
  }

  /** A new record linked to the head of chain `xs` (or ending the list when
      `xs` is empty) starts the chain `[new] + xs`. */
  lemma ChainPushed<S, H, K>(cs: seq<MemberConstraint<S, H, K>>, record: MemberConstraint<S, H, K>, xs: seq<ConstraintIndex>)
    requires xs == [] || IsChain(cs, xs)
    requires record.nextConstraint == if xs == [] then None else Some(xs[0])
    ensures IsChain(cs + [record], [|cs|] + xs)
  {
    var cs' := cs + [record];
    var c := [|cs|] + xs;
    if xs != [] {
      ChainGrown(cs, record, xs);
      assert forall a :: 1 <= a < |c| ==> c[a] == xs[a - 1];
      assert Last(c) == Last(xs);
    }
  }

  lemma PushKeepsPartition<R, S, H, K>(
    cs: seq<MemberConstraint<S, H, K>>, chains: map<R, seq<ConstraintIndex>>, keyOf: seq<R>,
    k: R, record: MemberConstraint<S, H, K>)
    requires Partitioned(cs, chains, keyOf)
    requires forall k' :: k' in chains ==> forall a :: 0 <= a < |chains[k']| ==> chains[k'][a] < |cs|
    ensures Partitioned(cs + [record], chains[k := [|cs|] + ChainOf(chains, k)], keyOf + [k])
  {
    var chains' := chains[k := [|cs|] + ChainOf(chains, k)];
    var keyOf' := keyOf + [k];
    forall i | 0 <= i < |cs| + 1
      ensures keyOf'[i] in chains' && i in chains'[keyOf'[i]]
    {
      if i < |cs| {
        assert i in chains[keyOf[i]];
      }
    }
  }
}
