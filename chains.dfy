/** The records of a member-constraint set and the singly linked lists that
    thread them together. */
module Chains {
  import opened IndexMap


  /** A region inference variable (a dense index in the source). */
  type RegionVid = nat

  /** A handle on a record of the constraint arena. */
  type ConstraintIndex = nat

  /** One `R0 member of [R1..Rn]` record. The span `S`, the hidden type `H` and
      the opaque type key `K` are passenger data that the store never inspects. */
  datatype MemberConstraint<S, H, K> = MemberConstraint(
    nextConstraint: Option<ConstraintIndex>,
    definitionSpan: S,
    hiddenTy: H,
    key: K,
    memberRegionVid: RegionVid,
    startIndex: nat,
    endIndex: nat)

  // ---------------------------------------------------------------------------
  // Chains: the linked lists threaded through the arena

  function Last(xs: seq<ConstraintIndex>): ConstraintIndex
    requires xs != []
  {
    xs[|xs| - 1]
  }

  /** `xs` is a complete linked list in `cs`: it is not empty, every link of
      `xs` points at the next element, the last record ends the list, and no
      record occurs twice. */
  ghost predicate IsChain<S, H, K>(cs: seq<MemberConstraint<S, H, K>>, xs: seq<ConstraintIndex>) {
    xs != [] &&
    (forall a :: 0 <= a < |xs| ==> xs[a] < |cs|) &&
    (forall a :: 0 <= a < |xs| - 1 ==> cs[xs[a]].nextConstraint == Some(xs[a + 1])) &&
    cs[Last(xs)].nextConstraint == None &&
    (forall a, b :: 0 <= a < b < |xs| ==> xs[a] != xs[b])
  }

  /** The chain of key `k`, empty for a key that has none. */
  ghost function ChainOf<R>(chains: map<R, seq<ConstraintIndex>>, k: R): seq<ConstraintIndex> {
    if k in chains then chains[k] else []
  }

  /** A chain has one record exactly when its head ends the list. */
  lemma ChainEndsAtHead<S, H, K>(cs: seq<MemberConstraint<S, H, K>>, xs: seq<ConstraintIndex>)
    requires IsChain(cs, xs)
    ensures |xs| == 1 <==> cs[xs[0]].nextConstraint == None
  {
    if |xs| > 1 {
      assert cs[xs[0]].nextConstraint == Some(xs[1]);
    } else {
      assert Last(xs) == xs[0];
    }
  }

  /** Dropping the first record of a chain longer than one leaves a chain. */
  lemma ChainTail<S, H, K>(cs: seq<MemberConstraint<S, H, K>>, xs: seq<ConstraintIndex>)
    requires IsChain(cs, xs) && |xs| > 1
    ensures IsChain(cs, xs[1..]) && xs == [xs[0]] + xs[1..]
  {
    var t := xs[1..];
    forall a | 0 <= a < |t| - 1 ensures cs[t[a]].nextConstraint == Some(t[a + 1]) {
      assert t[a] == xs[a + 1] && t[a + 1] == xs[a + 2];
    }
    assert Last(t) == Last(xs);
  }

  /** The links determine the chain: two chains with the same first record are equal. */
  lemma {:induction false} ChainDeterminedByHead<S, H, K>(cs: seq<MemberConstraint<S, H, K>>, xs: seq<ConstraintIndex>, ys: seq<ConstraintIndex>)
    requires IsChain(cs, xs) && IsChain(cs, ys) && xs[0] == ys[0]
    ensures xs == ys
  {
    ChainEndsAtHead(cs, xs);
    ChainEndsAtHead(cs, ys);
    if |xs| > 1 && |ys| > 1 {
      assert xs[1] == ys[1] by {
        assert cs[xs[0]].nextConstraint == Some(xs[1]);
        assert cs[ys[0]].nextConstraint == Some(ys[1]);
      }
      ChainTail(cs, xs);
      ChainTail(cs, ys);
      ChainDeterminedByHead(cs, xs[1..], ys[1..]);
    } else {
      assert xs == [xs[0]] && ys == [ys[0]];
    }
  }

  /** A chain is not affected by rewriting a record that is not on it. */
  lemma ChainUntouched<S, H, K>(cs: seq<MemberConstraint<S, H, K>>, cs': seq<MemberConstraint<S, H, K>>, xs: seq<ConstraintIndex>, m: ConstraintIndex)
    requires IsChain(cs, xs) && m !in xs
    requires |cs'| == |cs| && forall j :: 0 <= j < |cs| && j != m ==> cs'[j] == cs[j]
    ensures IsChain(cs', xs)
  {
    assert forall a :: 0 <= a < |xs| ==> cs'[xs[a]] == cs[xs[a]];
  }

  /** A chain only depends on the links of its own records. */
  lemma ChainSameLinks<S, H, K>(cs: seq<MemberConstraint<S, H, K>>, cs': seq<MemberConstraint<S, H, K>>, xs: seq<ConstraintIndex>)
    requires IsChain(cs, xs) && |cs'| == |cs|
    requires forall a :: 0 <= a < |xs| ==> cs'[xs[a]].nextConstraint == cs[xs[a]].nextConstraint
    ensures IsChain(cs', xs)
  {
    assert cs'[Last(xs)].nextConstraint == cs[Last(xs)].nextConstraint by {
      assert Last(xs) == xs[|xs| - 1];
    }
  }

  /** A chain survives appending a record to the arena. */
  lemma ChainGrown<S, H, K>(cs: seq<MemberConstraint<S, H, K>>, c: MemberConstraint<S, H, K>, xs: seq<ConstraintIndex>)
    requires IsChain(cs, xs)
    ensures IsChain(cs + [c], xs)
  {
    assert forall a :: 0 <= a < |xs| ==> (cs + [c])[xs[a]] == cs[xs[a]];
  }

  /** Pointing the last record of chain `t` at the head of a disjoint chain `s`
      makes `t + s` a chain. */
  lemma SpliceChains<S, H, K>(cs: seq<MemberConstraint<S, H, K>>, cs': seq<MemberConstraint<S, H, K>>, t: seq<ConstraintIndex>, s: seq<ConstraintIndex>)
    requires IsChain(cs, t) && IsChain(cs, s)
    requires forall a, b :: 0 <= a < |t| && 0 <= b < |s| ==> t[a] != s[b]
    requires |cs'| == |cs|
    requires cs'[Last(t)] == cs[Last(t)].(nextConstraint := Some(s[0]))
    requires forall j :: 0 <= j < |cs| && j != Last(t) ==> cs'[j] == cs[j]
    ensures IsChain(cs', t + s)
  {
    var ts := t + s;
    forall a | 0 <= a < |ts| - 1
      ensures cs'[ts[a]].nextConstraint == Some(ts[a + 1])
    {
      if a < |t| - 1 {
        assert t[a] != Last(t);
      } else if a == |t| - 1 {
      } else {
        assert s[a - |t|] != Last(t) by {
          assert Last(t) == t[|t| - 1];
        }
      }
    }
    assert Last(ts) == Last(s);
    assert Last(s) != Last(t) by {
      assert Last(t) == t[|t| - 1];
    }
    forall a, b | 0 <= a < b < |ts|
      ensures ts[a] != ts[b]
    {
      if b < |t| {
        assert ts[a] == t[a] && ts[b] == t[b];
      } else if a >= |t| {
        assert ts[a] == s[a - |t|] && ts[b] == s[b - |t|];
      } else {
        assert ts[a] == t[a] && ts[b] == s[b - |t|];
      }
    }
  }

  // ---------------------------------------------------------------------------
  // Splicing two lists

  /** Walks from `targetList` to the last record of its list and points that
      record at `sourceList`; nothing else changes. The ghost `targetChain` is
      the list that starts at `targetList`, whose existence is what makes the
      walk end. */
  method AppendList<S, H, K>(
    constraints: seq<MemberConstraint<S, H, K>>,
    targetList: ConstraintIndex,
    sourceList: ConstraintIndex,
    ghost targetChain: seq<ConstraintIndex>)
    returns (result: seq<MemberConstraint<S, H, K>>)
    requires IsChain(constraints, targetChain) && targetChain[0] == targetList
    ensures |result| == |constraints|
    ensures result[Last(targetChain)] == constraints[Last(targetChain)].(nextConstraint := Some(sourceList))
    ensures forall j :: 0 <= j < |constraints| && j != Last(targetChain) ==> result[j] == constraints[j]
  {
    var p := targetList;
    ghost var a := 0;
    while constraints[p].nextConstraint.Some?
      invariant 0 <= a < |targetChain| && p == targetChain[a]
      invariant a < |targetChain| - 1 ==> constraints[p].nextConstraint == Some(targetChain[a + 1])
      decreases |targetChain| - a
    {
      p := constraints[p].nextConstraint.value;
      a := a + 1;
    }
    result := constraints[p := constraints[p].(nextConstraint := Some(sourceList))];
  }
}
