/** A compact store of `R0 member of [R1..Rn]` constraints, indexed by `R0`.

    The records live in one arena (`constraints`); every key's records form a
    singly linked list threaded through that arena by `nextConstraint`, and the
    head map (`firstConstraints`) gives the first record of each key's list,
    which is the key's most recent record until the store is re-keyed. The
    candidate regions of all records share one flat arena (`choiceRegions`),
    each record owning the slice `[startIndex, endIndex)` of it. */
module MemberConstraints {
  import opened IndexMap
  import opened Chains
  import opened Invariant
  import opened Remap

  // ---------------------------------------------------------------------------
  // The store

  class MemberConstraintSet<R(==,!new), S, H, K> {
    /** Head map: for each key, the index of the first record of its list. */
    var firstConstraints: seq<(R, ConstraintIndex)>
    /** The record arena. */
    var constraints: seq<MemberConstraint<S, H, K>>
    /** The candidate regions of all records, back to back. */
    var choiceRegions: seq<RegionVid>

    /** The chain of each key, from its head to the end of its list. */
    ghost var Chains: map<R, seq<ConstraintIndex>>
    /** The key whose chain holds each record. */
    ghost var KeyOf: seq<R>

    /** The store invariant over the current fields. */
    ghost predicate Valid()
      reads this
    {
      StoreInvariant(firstConstraints, constraints, choiceRegions, Chains, KeyOf)
    }

    /** The empty store. */
    constructor Default()
      ensures Valid()
      ensures firstConstraints == [] && constraints == [] && choiceRegions == []
      ensures Chains == map[] && KeyOf == []
    {
      firstConstraints := [];
      constraints := [];
      choiceRegions := [];
      Chains := map[];
      KeyOf := [];
    }

    /** A store without records is one without keys. */
    function IsEmpty(): (r: bool)
      reads this
      requires Valid()
      ensures r <==> Chains == map[]
      ensures r <==> firstConstraints == []
    {
      assert forall k :: k in Chains ==> HeadAgrees(firstConstraints, constraints, Chains, k);
      assert forall j :: 0 <= j < |firstConstraints| ==> HeadAgrees(firstConstraints, constraints, Chains, firstConstraints[j].0);
      if |constraints| == 0 then
        assert Chains == map[];
        true
      else
        assert KeyOf[0] in Chains;
        assert firstConstraints != [];
        false
    }

    /** Every record index, each once, in the order the records were added. */
    function AllIndices(): (r: seq<ConstraintIndex>)
      reads this
      ensures |r| == |constraints|
      ensures forall i :: i in r <==> 0 <= i < |constraints|
      ensures forall a, b :: 0 <= a < b < |r| ==> r[a] < r[b]
    {
      var r: seq<ConstraintIndex> := seq(|constraints|, i => i);
      assert forall i :: 0 <= i < |constraints| ==> r[i] == i;
      assert forall i :: i in r ==> 0 <= i < |constraints| by {
        forall i | i in r ensures 0 <= i < |constraints| {
          var j :| 0 <= j < |r| && r[j] == i;
        }
      }
      assert forall i :: 0 <= i < |constraints| ==> i in r by {
        forall i | 0 <= i < |constraints| ensures i in r {
          assert r[i] == i;
        }
      }
      r
    }

    /** The record with index `i`; an index the store never issued is a fatal
        error in the source and is excluded here. */
    function Index(i: ConstraintIndex): (r: MemberConstraint<S, H, K>)
      reads this
      requires Valid() && i < |constraints|
      ensures r.startIndex <= r.endIndex <= |choiceRegions|
      ensures r == constraints[i]
    {
      constraints[i]
    }

    /** The candidate regions `[R1..Rn]` of record `i`. */
    function ChoiceRegions(i: ConstraintIndex): (r: seq<RegionVid>)
      reads this
      requires Valid() && i < |constraints|
      ensures |r| == constraints[i].endIndex - constraints[i].startIndex
      ensures forall j :: 0 <= j < |r| ==> r[j] == choiceRegions[constraints[i].startIndex + j]
    {
      choiceRegions[constraints[i].startIndex..constraints[i].endIndex]
    }

    /** Re-keys the store by `mapFn`: the heads are visited in head-map order,
        and when the new key of a head already has a list, the visited list is
        spliced in front of it. The records, their order and the candidate
        arena are kept; only links change. */
    method IntoMapped<R2(==,!new)>(mapFn: R -> R2) returns (mapped: MemberConstraintSet<R2, S, H, K>)
      requires Valid()
      ensures fresh(mapped) && mapped.Valid()
      ensures mapped.firstConstraints == MappedHeads(firstConstraints, mapFn)
      ensures forall r2 :: ChainOf(mapped.Chains, r2) == MergedChain(firstConstraints, Chains, mapFn, r2)
      ensures |mapped.constraints| == |constraints|
      ensures forall x :: 0 <= x < |constraints| ==>
        mapped.constraints[x] == constraints[x].(nextConstraint := mapped.constraints[x].nextConstraint)
      ensures mapped.choiceRegions == choiceRegions
      ensures mapped.KeyOf == Rekeyed(KeyOf, mapFn)
    {
      var constraints2 := constraints;
      var firstConstraints2: seq<(R2, ConstraintIndex)> := [];
      ghost var chains2: map<R2, seq<ConstraintIndex>> := map[];
      MergeStart(firstConstraints, constraints, Chains, KeyOf, mapFn);
      var i := 0;
      while i < |firstConstraints|
        invariant MergeState(firstConstraints, constraints, Chains, KeyOf, mapFn, i, firstConstraints2, constraints2, chains2)
      {
        var (r1, start1) := firstConstraints[i];
        var r2 := mapFn(r1);
        MergeReady(firstConstraints, constraints, Chains, KeyOf, mapFn, i, firstConstraints2, constraints2, chains2);
        ghost var before := constraints2;
        var existing := Get(firstConstraints2, r2);
        if existing.Some? {
          constraints2 := AppendList(constraints2, start1, existing.value, Chains[r1]);
        }
        MergeStep(firstConstraints, constraints, Chains, KeyOf, mapFn, i,
                  firstConstraints2, before, chains2, Last(Chains[r1]), constraints2);
        firstConstraints2 := Insert<R2, ConstraintIndex>(firstConstraints2, r2, start1);
        chains2 := chains2[r2 := Chains[r1] + ChainOf(chains2, r2)];
        i := i + 1;
      }
      MergeDone(firstConstraints, constraints, choiceRegions, Chains, KeyOf, mapFn, firstConstraints2, constraints2, chains2);
      mapped := new MemberConstraintSet<R2, S, H, K>.Default();
      mapped.firstConstraints := firstConstraints2;
      mapped.constraints := constraints2;
      mapped.choiceRegions := choiceRegions;
      mapped.Chains := chains2;
      mapped.KeyOf := Rekeyed(KeyOf, mapFn);
    }

    /** Walks the list of `memberRegionVid` from its head: the indices yielded
        are exactly that key's chain. */
    method Indices(memberRegionVid: R) returns (xs: seq<ConstraintIndex>)
      requires Valid()
      ensures xs == ChainOf(Chains, memberRegionVid)
    {
      ghost var chain := ChainOf(Chains, memberRegionVid);
      assert HeadAgrees(firstConstraints, constraints, Chains, memberRegionVid);
      var next := Get(firstConstraints, memberRegionVid);
      xs := [];
      while next.Some?
        invariant |xs| <= |chain|
        invariant xs == chain[..|xs|]
        invariant next == if |xs| < |chain| then Some(chain[|xs|]) else None
        decreases |chain| - |xs|
      {
        var current := next.value;
        next := constraints[current].nextConstraint;
        xs := xs + [current];
      }
    }
  }

  // ---------------------------------------------------------------------------
  // Insertion (only for stores keyed by region variables)

  /** The indices of the records of `cs` whose member region is `k`, newest first. */
  ghost function PushedUnder<S, H, K>(cs: seq<MemberConstraint<S, H, K>>, k: RegionVid): seq<ConstraintIndex> {
    if cs == [] then []
    else (if cs[|cs| - 1].memberRegionVid == k then [|cs| - 1] else []) + PushedUnder(cs[..|cs| - 1], k)
  }

  /** `PushedUnder(cs, k)` lists each record added under `k` exactly once, in
      reverse order of addition. */
  lemma {:induction false} PushedUnderSpec<S, H, K>(cs: seq<MemberConstraint<S, H, K>>, k: RegionVid)
    ensures forall i :: i in PushedUnder(cs, k) <==> 0 <= i < |cs| && cs[i].memberRegionVid == k
    ensures forall a, b :: 0 <= a < b < |PushedUnder(cs, k)| ==> PushedUnder(cs, k)[a] > PushedUnder(cs, k)[b]
  {
    if cs != [] {
      var init := cs[..|cs| - 1];
      PushedUnderSpec(init, k);
      assert forall i :: 0 <= i < |init| ==> init[i] == cs[i];
      var rest := PushedUnder(init, k);
      assert forall x :: x in rest ==> x < |cs| - 1;
      if cs[|cs| - 1].memberRegionVid == k {
        assert PushedUnder(cs, k) == [|cs| - 1] + rest;
        forall a, b | 0 <= a < b < |PushedUnder(cs, k)|
          ensures PushedUnder(cs, k)[a] > PushedUnder(cs, k)[b]
        {
          if a == 0 {
            assert PushedUnder(cs, k)[b] == rest[b - 1] && rest[b - 1] in rest;
          } else {
            assert PushedUnder(cs, k)[a] == rest[a - 1] && PushedUnder(cs, k)[b] == rest[b - 1];
          }
        }
      }
    }
  }

  /** The store has not been re-keyed: the chain of every region is the list
      of records added under it, newest first. */
  ghost predicate ChainsFollowPushes<S, H, K>(store: MemberConstraintSet<RegionVid, S, H, K>)
    reads store
  {
    FollowPushes(store.Chains, store.constraints)
  }

  ghost predicate FollowPushes<S, H, K>(chains: map<RegionVid, seq<ConstraintIndex>>, cs: seq<MemberConstraint<S, H, K>>) {
    forall k :: ChainOf(chains, k) == PushedUnder(cs, k)
  }

  /** Pushing a record onto the chain of its own member region keeps every
      chain equal to the list of records added under its key. */
  lemma PushFollowsPushes<S, H, K>(chains: map<RegionVid, seq<ConstraintIndex>>, cs: seq<MemberConstraint<S, H, K>>, record: MemberConstraint<S, H, K>)
    requires FollowPushes(chains, cs)
    ensures FollowPushes(chains[record.memberRegionVid := [|cs|] + ChainOf(chains, record.memberRegionVid)], cs + [record])
  {
    var cs' := cs + [record];
    assert cs'[..|cs|] == cs;
    forall k
      ensures ChainOf(chains[record.memberRegionVid := [|cs|] + ChainOf(chains, record.memberRegionVid)], k) == PushedUnder(cs', k)
    {
      assert ChainOf(chains, k) == PushedUnder(cs, k);
    }
  }

  /** Before any re-keying, the chain of `k` (what `Indices(k)` yields) holds every
      record added with member region `k`, each once, newest first; a region never
      used yields nothing. */
  lemma IndicesInReversePushOrder<S, H, K>(store: MemberConstraintSet<RegionVid, S, H, K>, k: RegionVid)
    requires store.Valid() && ChainsFollowPushes(store)
    ensures forall i :: i in ChainOf(store.Chains, k) <==> 0 <= i < |store.constraints| && store.constraints[i].memberRegionVid == k
    ensures forall a, b :: 0 <= a < b < |ChainOf(store.Chains, k)| ==> ChainOf(store.Chains, k)[a] > ChainOf(store.Chains, k)[b]
  {
    PushedUnderSpec(store.constraints, k);
  }

  /** In a valid store, two different records never share a position of the
      candidate arena: each push appended a fresh slice. */
  lemma ChoiceRangesDisjoint<R(!new), S, H, K>(store: MemberConstraintSet<R, S, H, K>, i: ConstraintIndex, j: ConstraintIndex, p: nat)
    requires store.Valid() && i < |store.constraints| && j < |store.constraints| && i != j
    requires store.constraints[i].startIndex <= p < store.constraints[i].endIndex
    ensures !(store.constraints[j].startIndex <= p < store.constraints[j].endIndex)
  {
    if i < j {
      assert store.constraints[i].endIndex <= store.constraints[j].startIndex;
    } else {
      assert store.constraints[j].endIndex <= store.constraints[i].startIndex;
    }
  }

  /** Adds the constraint `memberRegionVid member of choiceRegions`: the candidates
      are appended to the candidate arena, the new record links to the previous
      head of `memberRegionVid`, and becomes its new head. */
  method AddMemberConstraint<S, H, K>(
    store: MemberConstraintSet<RegionVid, S, H, K>,
    key: K,
    hiddenTy: H,
    definitionSpan: S,
    memberRegionVid: RegionVid,
    choiceRegions: seq<RegionVid>)
    requires store.Valid()
    modifies store
    ensures store.Valid()
    ensures store.choiceRegions == old(store.choiceRegions) + choiceRegions
    ensures store.constraints == old(store.constraints) + [MemberConstraint(
      Get(old(store.firstConstraints), memberRegionVid), definitionSpan, hiddenTy, key,
      memberRegionVid, |old(store.choiceRegions)|, |store.choiceRegions|)]
    ensures store.firstConstraints == Insert<RegionVid, ConstraintIndex>(old(store.firstConstraints), memberRegionVid, |old(store.constraints)|)
    ensures Get(store.firstConstraints, memberRegionVid) == Some(|old(store.constraints)|)
    ensures forall k :: k != memberRegionVid ==> Get(store.firstConstraints, k) == Get(old(store.firstConstraints), k)
    ensures store.Chains == old(store.Chains)[memberRegionVid := [|old(store.constraints)|] + ChainOf(old(store.Chains), memberRegionVid)]
    ensures store.KeyOf == old(store.KeyOf) + [memberRegionVid]
    ensures store.ChoiceRegions(|old(store.constraints)|) == choiceRegions
    ensures forall i :: 0 <= i < |old(store.constraints)| ==> store.ChoiceRegions(i) == old(store.ChoiceRegions(i))
    ensures old(ChainsFollowPushes(store)) ==> ChainsFollowPushes(store)
  {
    ghost var oldConstraints := store.constraints;
    ghost var oldChains := store.Chains;
    var nextConstraint := Get(store.firstConstraints, memberRegionVid);
    var startIndex := |store.choiceRegions|;
    store.choiceRegions := store.choiceRegions + choiceRegions;
    var endIndex := |store.choiceRegions|;
    var constraintIndex: ConstraintIndex := |store.constraints|;
    var record := MemberConstraint(nextConstraint, definitionSpan, hiddenTy, key, memberRegionVid, startIndex, endIndex);
    store.constraints := store.constraints + [record];
    store.firstConstraints := Insert<RegionVid, ConstraintIndex>(store.firstConstraints, memberRegionVid, constraintIndex);
    store.Chains := store.Chains[memberRegionVid := [constraintIndex] + ChainOf(store.Chains, memberRegionVid)];
    store.KeyOf := store.KeyOf + [memberRegionVid];

    PushKeepsInvariant(old(store.firstConstraints), oldConstraints, old(store.choiceRegions), oldChains,
                       old(store.KeyOf), memberRegionVid, record, choiceRegions);
    forall k | true
      ensures Get(store.firstConstraints, k) == if k == memberRegionVid then Some(constraintIndex) else Get(old(store.firstConstraints), k)
    {
      InsertGet<RegionVid, ConstraintIndex>(old(store.firstConstraints), memberRegionVid, constraintIndex, k);
    }
    forall i | 0 <= i < constraintIndex
      ensures store.ChoiceRegions(i) == old(store.ChoiceRegions(i))
    {
      assert store.constraints[i] == oldConstraints[i];
    }
    if FollowPushes(oldChains, oldConstraints) {
      PushFollowsPushes(oldChains, oldConstraints, record);
    }
  }
}
