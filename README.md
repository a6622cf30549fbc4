# Member-constraint set of the borrow checker

This project models `MemberConstraintSet` from `rustc_borrowck` in Dafny. The set stores facts of the form `R0 member of [R1..Rn]`, which say that region `R0` must equal one of the candidate regions `R1..Rn`. The facts are keyed by `R0`. The store has three parts:

- **Head map** (`first_constraints`): an insertion-ordered map from each key to the index of the first record of its list. Until the store is re-keyed, that is the key's most recent record; after re-keying, the head of a merged list is the head of the last old list spliced in, which need not be the newest record.
- **Record arena** (`constraints`): a vector of records. Each record holds a `next_constraint` link, so the records of one key form a singly linked list threaded through the arena.
- **Candidate arena** (`choice_regions`): one flat vector that each record slices with `[start_index, end_index)`.

The model has six modules, one per file:

- `IndexMap` (`index_map.dfy`): the insertion-ordered map, written as a sequence of `(key, value)` pairs. Inserting a key that is already present overwrites its value and keeps its position; inserting a new key appends it.
- `Chains` (`chains.dfy`): the record datatype, the linked lists ("chains") threaded through the arena, and `AppendList`, which splices one list onto the end of another.
- `Invariant` (`invariant.dfy`): the store invariant, stated over plain values, and the proof that pushing a record keeps it.
  - Every key with a head has a chain that starts at that head.
  - Every chain is a complete, acyclic, terminated list.
  - Every record lies on exactly one chain, the chain of its own key.
  - Every candidate slice is in bounds, and the slices of different records follow one another without overlapping.
- `Remap` (`remap.dfy`): what re-keying produces (`MappedHeads`, `MergedChain`), the properties of those results, and the loop invariant of re-keying.
- `MemberConstraints` (`member_constraints.dfy`): the class `MemberConstraintSet` and its operations.
  - The class has the three fields above. It also has two ghost fields: `Chains`, the abstract list of each key, and `KeyOf`, the key that owns each record.
  - `AddMemberConstraint` is a module-level method on stores keyed by `RegionVid`. The source defines `add_member_constraint` only for that key type.
- `Scenarios` (`scenarios.dfy`): worked examples, concrete traces proved by the verifier, that show the order in which a chain is walked and the order in which colliding lists are merged.

## Model

All source paths are in `compiler/rustc_borrowck/src/member_constraints.rs`.

| member | source | states |
|---|---|---|
| IndexMap.Get | compiler/rustc_borrowck/src/member_constraints.rs:85 | The lookup returns None exactly when no entry has the key. A hit is an entry of the map. With unique keys, the hit is the value of that key's entry. |
| IndexMap.Insert | compiler/rustc_borrowck/src/member_constraints.rs:98 | Inserting a present key leaves the key order unchanged. Inserting an absent key appends `(k, v)` at the end. |
| IndexMap.InsertGet | compiler/rustc_borrowck/src/member_constraints.rs:98 | After an insert, the inserted key finds the new value and every other key finds what it found before. |
| IndexMap.InsertKeepsKeysUnique | compiler/rustc_borrowck/src/member_constraints.rs:19 | An insert never gives a key a second entry. |
| IndexMap.GetIffInKeys | compiler/rustc_borrowck/src/member_constraints.rs:85 | A key has an entry exactly when it is among the map's keys. |
| IndexMap.KeysSnoc | compiler/rustc_borrowck/src/member_constraints.rs:98 | Appending an entry appends its key to the key order. |
| Chains.ChainEndsAtHead | compiler/rustc_borrowck/src/member_constraints.rs:35 | A list has one record exactly when its head's link is None. |
| Chains.ChainTail | compiler/rustc_borrowck/src/member_constraints.rs:35 | Following the first link of a list longer than one reaches a list. |
| Chains.ChainDeterminedByHead | compiler/rustc_borrowck/src/member_constraints.rs:160-168 | The links determine a list: two lists with the same first record are equal, so walking from a head has exactly one outcome. |
| Chains.ChainUntouched | compiler/rustc_borrowck/src/member_constraints.rs:221 | Rewriting a record that is not on a list leaves that list intact. |
| Chains.ChainSameLinks | compiler/rustc_borrowck/src/member_constraints.rs:128-141 | A list depends only on the links of its own records. |
| Chains.ChainGrown | compiler/rustc_borrowck/src/member_constraints.rs:89 | Pushing a record onto the arena leaves every existing list intact. |
| Chains.SpliceChains | compiler/rustc_borrowck/src/member_constraints.rs:194-209 | Pointing the last record of list `t` at the head of a disjoint list `s`, and changing nothing else, makes `t + s` a list (`A -> B -> C -> D -> E -> F`). |
| Chains.AppendList | compiler/rustc_borrowck/src/member_constraints.rs:210-226 | The walk from `target_list` ends, because the list from that head exists. Exactly one record changes, the last one of `target_list`'s list, whose link becomes `Some(source_list)`. The arena keeps its length. |
| Invariant.PushKeepsInvariant | compiler/rustc_borrowck/src/member_constraints.rs:85-98 | A new record, linked to the key's old head and made its new head, keeps the whole store invariant. The key's list becomes `[new] + old list`, and the new candidate slice lies within the extended candidate arena, after every earlier slice. |
| Invariant.PushKeepsHeads | compiler/rustc_borrowck/src/member_constraints.rs:85-98 | Under the same push, every key still agrees with its head, and the head map keeps unique keys. |
| Invariant.PushKeepsHeadOf | compiler/rustc_borrowck/src/member_constraints.rs:85-98 | The pushed key's head is the new record, which starts its extended list; every other key's head and list are as before. |
| Invariant.ChainPushed | compiler/rustc_borrowck/src/member_constraints.rs:85-97 | A record whose link is the old head, or None when the key has no list, starts the list `[new] + old list`. |
| Invariant.PushKeepsPartition | compiler/rustc_borrowck/src/member_constraints.rs:89-98 | After a push, every record still lies on exactly one list, that of its key. |
| Remap.FirstOccurrencesSpec | compiler/rustc_borrowck/src/member_constraints.rs:133-139 | Deduplicating a sequence keeps each element once, drops nothing, and orders elements by their first occurrence. |
| Remap.MappedHeadsKeys | compiler/rustc_borrowck/src/member_constraints.rs:130-139 | The re-keyed head map has unique keys. Its key order is the new keys in the order they first appear while the old heads are visited in head-map order. |
| Remap.MappedHeadsStep | compiler/rustc_borrowck/src/member_constraints.rs:138 | Visiting one more head sets its new key to that head and leaves other new keys unchanged. |
| Remap.MappedHeadsDefined | compiler/rustc_borrowck/src/member_constraints.rs:133-139 | A new key has a head exactly when some old key is re-keyed to it. |
| Remap.MappedHeadsLatest | compiler/rustc_borrowck/src/member_constraints.rs:138 | The head of a new key is the head of the last old key visited that is re-keyed to it. |
| Remap.MergedChainMembers | compiler/rustc_borrowck/src/member_constraints.rs:133-139 | Both directions: a record lies on the merged list of `r2` exactly when it lies on the list of some old key that `f` sends to `r2`. |
| Remap.MergedChainRecords | compiler/rustc_borrowck/src/member_constraints.rs:128-141 | Both directions, in a valid store: the merged list of `r2` holds exactly the records whose key `f` sends to `r2`. |
| Remap.MergedChainUnused | compiler/rustc_borrowck/src/member_constraints.rs:133-139 | A new key that no old key is sent to has an empty list. |
| Remap.MergedChainUncollided | compiler/rustc_borrowck/src/member_constraints.rs:133-139 | An old key that collides with no other old key keeps its list verbatim under its new key. |
| Remap.InjectiveKeepsChains | compiler/rustc_borrowck/src/member_constraints.rs:106-142 | In a valid store, re-keying by an injective `f` moves every list unchanged to its new key. |
| Remap.MergeStart | compiler/rustc_borrowck/src/member_constraints.rs:128-131 | Before any head is visited, the loop invariant holds with an empty new head map and the untouched arena. |
| Remap.MergeReady | compiler/rustc_borrowck/src/member_constraints.rs:133-134 | The head being visited starts a non-empty list that is still intact in the current arena, and its key has not been visited before. |
| Remap.VisitedSnoc | compiler/rustc_borrowck/src/member_constraints.rs:133 | The visited keys after one more step are the old visited keys plus the current key. |
| Remap.SplicedOwner | compiler/rustc_borrowck/src/member_constraints.rs:135-137 | The record whose link is rewritten is owned by the key being visited. |
| Remap.StepRecords | compiler/rustc_borrowck/src/member_constraints.rs:135-137 | A step keeps every record's payload and range. It rewrites links only on the visited key's list, and leaves the records of unvisited keys untouched. |
| Remap.StepSpec | compiler/rustc_borrowck/src/member_constraints.rs:133-139 | A step's insertion yields the re-keyed head map of one more head. Its new list for `r2` is the visited list followed by `r2`'s previous list, which is the merged list of one more head. |
| Remap.StepHeadOf | compiler/rustc_borrowck/src/member_constraints.rs:135-138 | After the splice and the insertion, each new key agrees with its head and its list in the new arena. |
| Remap.StepHeads | compiler/rustc_borrowck/src/member_constraints.rs:135-138 | After a step, all new keys agree with their heads, and the new head map keeps unique keys. |
| Remap.StepOwners | compiler/rustc_borrowck/src/member_constraints.rs:133-139 | Every record on a new list belongs to a visited key that `f` sends to that list's key. |
| Remap.StepCoverage | compiler/rustc_borrowck/src/member_constraints.rs:133-139 | Every record of a visited key lies on the list of its new key. |
| Remap.MergeStep | compiler/rustc_borrowck/src/member_constraints.rs:133-139 | One iteration of the loop keeps the loop invariant. |
| Remap.MergeDone | compiler/rustc_borrowck/src/member_constraints.rs:141 | When the loop ends, the result satisfies the store invariant: every record is on exactly one list, that of its re-keyed key. The head map is the re-keyed head map and every list is the merged list. |
| MemberConstraints.MemberConstraintSet.Default | compiler/rustc_borrowck/src/member_constraints.rs:60-68 | The default store has no heads, no records and no candidates, and it satisfies the invariant. |
| MemberConstraints.MemberConstraintSet.IsEmpty | compiler/rustc_borrowck/src/member_constraints.rs:71-73 | The store has no records exactly when it has no lists, and exactly when its head map is empty. |
| MemberConstraints.MemberConstraintSet.AllIndices | compiler/rustc_borrowck/src/member_constraints.rs:149-151 | The result lists every record index, each once, in strictly increasing order, which is push order. |
| MemberConstraints.MemberConstraintSet.Index | compiler/rustc_borrowck/src/member_constraints.rs:189-191 | The result is record `i`, and its candidate range lies within the candidate arena. |
| MemberConstraints.MemberConstraintSet.ChoiceRegions | compiler/rustc_borrowck/src/member_constraints.rs:177-180 | The result is record `i`'s slice `[start_index, end_index)` of the candidate arena, element by element. |
| MemberConstraints.MemberConstraintSet.IntoMapped | compiler/rustc_borrowck/src/member_constraints.rs:111-142 | The new store satisfies the invariant. Its head map is the re-keyed head map, and each new key's list is the merged list, with the last-visited old key's list first. Payloads and ranges are kept, only links change, and the candidate arena is reused unchanged. |
| MemberConstraints.MemberConstraintSet.Indices | compiler/rustc_borrowck/src/member_constraints.rs:156-169 | The walk yields exactly the key's list, from its head to the record whose link is None. A key without a head yields nothing. |
| MemberConstraints.PushedUnderSpec | compiler/rustc_borrowck/src/member_constraints.rs:85-98 | The records pushed under `k`, listed newest first, contain each such record once, in strictly decreasing index order. |
| MemberConstraints.PushFollowsPushes | compiler/rustc_borrowck/src/member_constraints.rs:85-98 | If every list was the newest-first list of its key's pushes, it still is after one more push. |
| MemberConstraints.IndicesInReversePushOrder | compiler/rustc_borrowck/src/member_constraints.rs:156-169 | Before any re-keying, the walk of `k` yields every record pushed with region `k` and nothing else, each once, newest first. A region never pushed yields nothing. |
| MemberConstraints.ChoiceRangesDisjoint | compiler/rustc_borrowck/src/member_constraints.rs:86-88 | In a valid store, no position of the candidate arena lies in the slices of two different records. |
| MemberConstraints.AddMemberConstraint | compiler/rustc_borrowck/src/member_constraints.rs:77-98 | The candidates are appended verbatim, and the new record's slice returns exactly them; every earlier record's slice is unchanged. The new record links to the previous head of its region, or None if the region had none, and becomes that region's head; other heads are unchanged. The invariant and the push-order property are kept. |
| Scenarios.SameRegionTwice | compiler/rustc_borrowck/src/member_constraints.rs:71-98 | After two pushes under one region, the store is not empty, the region's walk yields `[1, 0]`, and all indices are `[0, 1]`. |
| Scenarios.PushTwo | compiler/rustc_borrowck/src/member_constraints.rs:77-98 | Two pushes under regions 1 and 2 give head map `[(1, 0), (2, 1)]`, one-record lists, and the given candidate slices. |
| Scenarios.TwoWayMerge | compiler/rustc_borrowck/src/member_constraints.rs:133-139 | When regions 1 and 2 are merged into region 3, region 2's list comes first: `[1, 0]`. |
| Scenarios.TwoWayCollision | compiler/rustc_borrowck/src/member_constraints.rs:111-142 | After re-keying both regions to 3, the walk of region 3 yields `[1, 0]`, and both candidate slices are unchanged. |
| Scenarios.PushThree | compiler/rustc_borrowck/src/member_constraints.rs:77-98 | Three pushes under regions 1, 2 and 3 give head map `[(1, 0), (2, 1), (3, 2)]` and one-record lists. |
| Scenarios.ThreeWayMerge | compiler/rustc_borrowck/src/member_constraints.rs:133-139 | When regions 1, 2 and 3 are merged into region 4, the order is `[2, 1, 0]`. |
| Scenarios.ThreeWayCollision | compiler/rustc_borrowck/src/member_constraints.rs:111-142 | After re-keying the three regions to 4, the walk of region 4 yields `[2, 1, 0]`. |

## Left out

- Logging is not modelled. The `#[instrument]` tracing and `#[derive(Debug)]` formatting have no effect on the store.
- Hashing is not modelled. The map keeps only key equality and `IndexMap`'s insertion order: an overwritten key keeps its position, and a new key goes at the end.
- The index type is a `nat`. The `newtype_index!` bound of `u32::MAX - 255`, and the panic `push` raises beyond it, are not modelled.
- `Span`, `Ty<'tcx>` and `OpaqueTypeKey<'tcx>` are type parameters that the store never inspects, and the `'tcx` lifetime is dropped.
- Cost is not modelled. `into_mapped` is quadratic in the worst case, and it keeps no tail pointers.
- MemberConstraints.MemberConstraintSet.IntoMapped: `map_fn` is a pure, total function, so the side effects that an `FnMut` closure could have are not modelled. The method returns a new store and leaves the old one as it was, whereas the source moves `self` into the result.
- MemberConstraints.MemberConstraintSet.Indices: it returns the whole yielded sequence at once, not a lazy iterator, and does not model a store that changes between two steps of the walk.
- MemberConstraints.MemberConstraintSet.AllIndices: it returns the index range as a sequence, not as an iterator.
- MemberConstraints.MemberConstraintSet.Index and MemberConstraints.MemberConstraintSet.ChoiceRegions: an index the store never issued is a fatal bounds error in the source. The model excludes it with a precondition.
- MemberConstraints.MemberConstraintSet.Default and MemberConstraints.MemberConstraintSet.IsEmpty are generic in the key type. The source defines `default` and `is_empty` only for stores keyed by `RegionVid`, and the model's versions behave the same for any key type.
- `reserve` in `into_mapped` only pre-allocates memory, so it has no counterpart in the model.
- Chains.AppendList: it takes the arena as a value and returns the updated arena, instead of writing through a mutable borrow. The only caller passes its own local arena, so nothing else can observe the write.
