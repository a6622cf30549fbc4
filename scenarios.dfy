/** Worked examples: concrete traces of a member-constraint set through insertion and re-keying.
    They show the order the chain walk yields (most recent push first) and the
    merge order that re-keying fixes: the list of the key visited last comes
    first. */
module Scenarios {
  import opened Chains
  import opened Remap
  import opened MemberConstraints

  /** Two constraints pushed under the same region: the set is not empty and
      walking the region yields the second push before the first. */
  method SameRegionTwice<S, H, K>(span: S, hiddenTy: H, key: K)
    returns (empty: bool, walked: seq<ConstraintIndex>, all: seq<ConstraintIndex>)
    ensures !empty
    ensures walked == [1, 0]
    ensures all == [0, 1]
  {
    var store := new MemberConstraintSet<RegionVid, S, H, K>.Default();
    AddMemberConstraint(store, key, hiddenTy, span, 1, [10]);
    AddMemberConstraint(store, key, hiddenTy, span, 1, [11]);
    assert ChainOf(store.Chains, 1) == [1, 0];
    empty := store.IsEmpty();
    walked := store.Indices(1);
    all := store.AllIndices();
    assert all[0] < all[1];
  }

  /** Constraint 0 (region 1, candidates [10, 11]) and constraint 1 (region 2,
      candidates [12]) pushed into a fresh set. */
  method PushTwo<S, H, K>(span: S, hiddenTy: H, key: K) returns (store: MemberConstraintSet<RegionVid, S, H, K>)
    ensures fresh(store) && store.Valid()
    ensures store.firstConstraints == [(1, 0), (2, 1)]
    ensures ChainOf(store.Chains, 1) == [0] && ChainOf(store.Chains, 2) == [1] && ChainOf(store.Chains, 3) == []
    ensures |store.constraints| == 2
    ensures store.ChoiceRegions(0) == [10, 11] && store.ChoiceRegions(1) == [12]
  {
    store := new MemberConstraintSet<RegionVid, S, H, K>.Default();
    AddMemberConstraint(store, key, hiddenTy, span, 1, [10, 11]);
    AddMemberConstraint(store, key, hiddenTy, span, 2, [12]);
  }

  /** Re-keying regions 1 and 2 onto region 3 puts region 2's list first. */
  lemma TwoWayMerge(chains: map<RegionVid, seq<ConstraintIndex>>, f: RegionVid -> RegionVid)
    requires ChainOf(chains, 1) == [0] && ChainOf(chains, 2) == [1]
    requires f(1) == 3 && f(2) == 3
    ensures MergedChain([(1, 0), (2, 1)], chains, f, 3) == [1, 0]
  {
    var heads := [(1, 0), (2, 1)];
    assert heads[..1] == [(1, 0)];
    assert [(1, 0)][..0] == [];
    assert MergedChain([(1, 0)], chains, f, 3) == [0] + MergedChain([], chains, f, 3);
    assert MergedChain(heads, chains, f, 3) == [1] + MergedChain([(1, 0)], chains, f, 3);
  }

  /** Both regions of `PushTwo` re-keyed to region 3: walking region 3 yields
      constraint 1 then constraint 0, and both candidate lists are unchanged. */
  method TwoWayCollision<S, H, K>(span: S, hiddenTy: H, key: K)
    returns (merged: seq<ConstraintIndex>, candidatesA: seq<RegionVid>, candidatesB: seq<RegionVid>)
    ensures merged == [1, 0]
    ensures candidatesA == [10, 11] && candidatesB == [12]
  {
    var store := PushTwo(span, hiddenTy, key);
    var f := (r: RegionVid) => 3;
    TwoWayMerge(store.Chains, f);
    var mapped := store.IntoMapped<RegionVid>(f);
    merged := mapped.Indices(3);
    candidatesA := mapped.ChoiceRegions(0);
    candidatesB := mapped.ChoiceRegions(1);
  }

  /** Regions 1, 2 and 3 given one constraint each (0, 1 and 2): the store of
      `PushTwo` with a constraint on region 3 added. */
  method PushThree<S, H, K>(span: S, hiddenTy: H, key: K) returns (store: MemberConstraintSet<RegionVid, S, H, K>)
    ensures fresh(store) && store.Valid()
    ensures store.firstConstraints == [(1, 0), (2, 1), (3, 2)]
    ensures ChainOf(store.Chains, 1) == [0] && ChainOf(store.Chains, 2) == [1] && ChainOf(store.Chains, 3) == [2]
  {
    store := PushTwo(span, hiddenTy, key);
    AddMemberConstraint(store, key, hiddenTy, span, 3, []);
  }

  /** Re-keying regions 1, 2 and 3 onto region 4 orders their lists 3, 2, 1. */
  lemma ThreeWayMerge(chains: map<RegionVid, seq<ConstraintIndex>>, f: RegionVid -> RegionVid)
    requires ChainOf(chains, 1) == [0] && ChainOf(chains, 2) == [1] && ChainOf(chains, 3) == [2]
    requires f(1) == 4 && f(2) == 4 && f(3) == 4
    ensures MergedChain([(1, 0), (2, 1), (3, 2)], chains, f, 4) == [2, 1, 0]
  {
    var heads := [(1, 0), (2, 1), (3, 2)];
    assert heads[..2] == [(1, 0), (2, 1)];
    assert heads[..2][..1] == [(1, 0)];
    assert [(1, 0)][..0] == [];
    assert MergedChain([(1, 0)], chains, f, 4) == [0] + MergedChain([], chains, f, 4);
    assert MergedChain(heads[..2], chains, f, 4) == [1] + MergedChain([(1, 0)], chains, f, 4);
    assert MergedChain(heads, chains, f, 4) == [2] + MergedChain(heads[..2], chains, f, 4);
  }

  /** The three regions of `PushThree` re-keyed to region 4: walking region 4
      yields 2, 1, 0. */
  method ThreeWayCollision<S, H, K>(span: S, hiddenTy: H, key: K) returns (merged: seq<ConstraintIndex>)
    ensures merged == [2, 1, 0]
  {
    var store := PushThree(span, hiddenTy, key);
    var f := (r: RegionVid) => 4;
    ThreeWayMerge(store.Chains, f);
    var mapped := store.IntoMapped<RegionVid>(f);
    merged := mapped.Indices(4);
  }
}
