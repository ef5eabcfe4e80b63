# vtrie in Dafny

vtrie is a C library: a trie of NUL-terminated byte strings, each stored
key carrying an opaque value.  It answers exact lookups and the longest
stored prefix of a string.  It also runs three resumable searches, each
driven by an iterator:

- suffixes: every stored key that extends a prefix;
- neighbours: every stored key of the query's length within a Hamming
  distance budget;
- Hamming pairs: every unordered pair of stored keys of one length within
  the budget, reported once.

This project models that core as pure functions over immutable values and
proves what each operation promises.

The trie is an arena keyed by path.  Each node is named by the bytes on the
way down from the root, and holds:

- an optional item;
- its children's bytes, in sibling order (newest first, as the C code
  links them);
- the explored mark the pair search uses.

`Tries.Valid` bundles what every reachable state keeps:

- the links are consistent;
- every non-root node leads to an item;
- the node, item and memory counters agree with the contents;
- marks are set only while a dirty iterator holds the trie.

An iterator is a value too.  It carries:

- its policy;
- its stack of search states (frames);
- the revision it was made at (the `state_id`);
- its error code;
- for a dirty iterator, the ticket it holds.

The ticket stands in for the C code's pointer comparison
`root->dirty_iter == it`.  Each search's correctness is stated through a
pending set, the hits the iterator still owes:

- `Next` reports a pending hit and removes exactly it, or reports nothing
  when nothing is pending;
- opening a search makes the pending set the expected answer;
- `Drain`, which calls `Next` until it reports nothing, lists every
  expected hit exactly once.

Modules follow the C code's parts:

| module | file | models |
|---|---|---|
| `Wrappers`, `Keys` | keys.dfy | `Option`, bytes, paths, Hamming distance |
| `Tries` | trie.dfy | the tree, its invariant, `trie_new` and the lookups |
| `TrieUpdates` | update.dfy | `trie_set_item`, `trie_del_item` |
| `TrieIters` | iter.dfy | iterator values, `trieiter_new`, `trieiter_free`, `trie_reset`, the state stack |
| `SuffixSearch` | suffixes.dfy | `trieiter_suffixes`, `trieiter_suffixes_next` |
| `NeighborSearch` | neighbors.dfy | `trieiter_neighbors`, `trieiter_neighbors_next` |
| `PairSearch`, `PairNext` | pairs.dfy, pairnext.dfy | `trie_find_all_strings`, `trieiter_hammingpairs`, `trieiter_hammingpairs_next` |
| `IterEngine` | engine.dfy | `trieiter_next` and how updates and other iterators affect a live one |
| `StaleValues` | stale.dfy | the item slot as written, for the finding below |

A deallocation hook becomes a flag.  An update returns the list of values
the hook would have received, in order.

## Model

| member | source | states |
|---|---|---|
| Keys.HammingSymmetric | src/trie.c:654-681 | the distance counted from the query equals the distance counted from the target, so a pair is reported with one distance whichever key is the query |
| Tries.New | src/trie.c:454-475 | a new trie stores nothing and has only the root; its node and item counts are 0, its memory is the root's size, its revision is 0 and no dirty iterator holds it |
| Tries.GetNode | src/trie.c:376-386 | a node is found exactly when the key's path exists, and it is the key's own node |
| Tries.HasNode | src/trie.c:418-421 | true exactly when the key is empty or a prefix of some stored key |
| Tries.HasKey | src/trie.c:411-415 | true exactly when the key is stored |
| Tries.GetItem | src/trie.c:424-431 | an item exactly when the key is stored, carrying that key and its value |
| Tries.LongestPrefix | src/trie.c:434-451 | nothing exactly when no stored key is a prefix of the query; otherwise a stored prefix of the query that no stored prefix is longer than |
| Tries.NumNodes | src/trie.c:389-394 | the number of non-empty prefixes of stored keys |
| Tries.NumItems | src/trie.c:397-402 | the number of stored keys |
| Tries.MemUsage | src/trie.c:405-408 | the root's size, plus a node's size per non-root node, plus each stored key's bytes and its terminator |
| Tries.NodesArePrefixes | src/trie.c:573-601 | in a valid trie the nodes are exactly the root and the prefixes of stored keys: pruning leaves no dead branch |
| TrieUpdates.SetItem | src/trie.c:519-564 | no key is an error that changes nothing. Otherwise the key maps to the new value and its missing prefixes become nodes. A new key bumps the item count and the revision and frees nothing. An overwrite keeps the nodes, links, count and revision, and hands the old value to the hook when one is given. Validity, marks and the dirty slot are kept |
| TrieUpdates.DelItem | src/trie.c:573-601 | no key, or a key not stored, is an error that changes nothing. Otherwise the key is gone and the item count drops by one. The revision is bumped and the value goes to the hook when one is given. The nodes removed are exactly a chain of the key's ancestors, so the remaining nodes are the prefixes of the remaining keys. Validity and marks are kept |
| TrieIters.ResetMarks | src/trie.c:271-283 | every explored mark is cleared and nothing else changes |
| TrieIters.NewIter | src/trie.c:183-212 | a negative budget or target depth gives no iterator. Otherwise the iterator has no states, the trie's revision, no error, and the given policy and parameters. A clean iterator leaves the trie alone. A dirty one takes the slot under a fresh ticket; marks are cleared when another dirty iterator held the slot and kept otherwise |
| TrieIters.FreeIter | src/trie.c:289-302 | freeing the slot's holder clears every mark and empties the slot; freeing any other iterator changes nothing |
| TrieIters.StepReach | src/trie.c:147-178 | replacing the top state by its children's states shrinks the set of nodes still to be reached, so every search ends |
| SuffixSearch.Open | src/trie.c:625-651 | an iterator exactly when a key is given whose node exists. It owes every stored key extending the key, at distance 0, and the trie is unchanged |
| SuffixSearch.Next | src/trie.c:604-622 | reports a pending hit and removes only it, or nothing once nothing is pending and the stack is empty; the trie is unchanged |
| SuffixSearch.DrainExact | src/trie.c:604-622 | calling next until it reports nothing lists every pending hit exactly once and nothing else |
| SuffixSearch.SearchExact | src/trie.c:604-651 | a suffix search run to the end lists each stored key extending the prefix exactly once, and no other key |
| NeighborSearch.Open | src/trie.c:684-710 | an iterator exactly when a stored key is given with a budget of at least 1. It owes every stored key of that length at distance 1 to the budget, with its distance |
| NeighborSearch.Next | src/trie.c:654-681 | reports a pending hit and removes only it, or nothing once nothing is pending; the trie is unchanged |
| NeighborSearch.DrainExact | src/trie.c:654-681 | calling next until it reports nothing lists every pending hit exactly once |
| NeighborSearch.SearchExact | src/trie.c:654-710 | a neighbour search run to the end lists each other stored key of the query's length within the budget exactly once, with its distance |
| PairSearch.FindAll | src/trie.c:713-720 | the keys collected `d` levels below a node are stored, `d` bytes longer and under it, and every such stored key is collected |
| PairSearch.CountExplored | src/trie.c:752-767 | the explored count reaches the number of children exactly when every child is explored |
| PairSearch.Open | src/trie.c:773-793 | no iterator exactly when the key length is not positive or the budget is negative. Otherwise a dirty iterator with no states whose queue holds exactly the stored keys of that length; the marks start clear and it holds the slot under a fresh ticket |
| PairSearch.PairOwedOnce | src/trie.c:723-770 | over the queue, a pair of queued keys is owed in one orientation exactly when the keys differ and are within the budget, and never in both |
| PairNext.Next | src/trie.c:723-770 | only explored marks change. It reports a pending pair and removes only it, or nothing once nothing is pending and the stack and queue are empty |
| PairNext.DrainExact | src/trie.c:723-770 | calling next until it reports nothing lists every pending pair exactly once |
| PairNext.OpenOwes | src/trie.c:773-793 | a new pair search owes each pair of distinct stored keys of the length within the budget in exactly one orientation |
| PairNext.SearchOnce | src/trie.c:713-793 | a pair search run to the end reports each unordered pair of distinct stored keys of the length within the budget, in exactly one orientation, and reports nothing twice |
| PairNext.SearchOnly | src/trie.c:713-793 | every pair a pair search reports joins two distinct stored keys of the length, with their distance, within the budget |
| IterEngine.Next | src/trie.c:215-236 | a changed revision records E_OUT_OF_SYNC, and a dirty iterator that lost the slot records E_REPLACED; both report nothing and leave the trie alone. Otherwise the search's next runs: it reports an owed hit and removes only it, keeps the error code, and changes only marks |
| IterEngine.RefusedStaysRefused | src/trie.c:224-233 | a refused iterator is refused again, with the same error, on the next call while the trie is unchanged |
| IterEngine.RefusedLater | src/trie.c:224-233 | a refused iterator stays refused in every later state of the trie, reporting nothing. Out of sync stays out of sync; replaced stays replaced or, once the revision has moved, becomes out of sync, because the revision check comes first |
| IterEngine.SetItemLater | src/trie.c:546-550 | storing, successful or not, only moves the revision forward and leaves the dirty slot and the ticket counter alone |
| IterEngine.DelItemLater | src/trie.c:597-600 | deleting, successful or not, only moves the revision forward and leaves the dirty slot and the ticket counter alone |
| IterEngine.NewIterLater | src/trie.c:203-209 | creating an iterator keeps the revision and hands the dirty slot, if at all, to a ticket newer than any iterator made before |
| IterEngine.FreeIterLater | src/trie.c:294-297 | freeing an iterator keeps the revision and at most empties the dirty slot |
| IterEngine.NextLater | src/trie.c:215-236 | a call on any iterator keeps the revision, the dirty slot and the ticket counter |
| IterEngine.SuffixOpenHealthy | src/trie.c:625-651 | a suffix search opened on an existing node is in step with the trie, meets every guard of the iterator's next call, and owes exactly the stored extensions of the prefix |
| IterEngine.NeighborOpenHealthy | src/trie.c:684-710 | a neighbour search opened on a stored key with a budget of at least 1 is in step with the trie, meets every guard of the next call, and owes exactly the expected neighbours |
| IterEngine.PairOpenHealthy | src/trie.c:773-793 | a pair search opened with a positive key length and a non-negative budget is in step with the trie, holds the dirty slot and meets every guard of the next call |
| IterEngine.OverwriteKeeps | src/trie.c:546-553 | overwriting a stored key leaves every live iterator healthy and owing what it owed |
| IterEngine.InsertStales | src/trie.c:546-550 | storing a new key moves the revision past every existing iterator, which is out of sync from then on |
| IterEngine.DeleteStales | src/trie.c:597-600 | deleting a key moves the revision past every existing iterator, which is out of sync from then on |
| IterEngine.AddThenDeleteStales | src/trie.c:219-227 | storing a new key and deleting it again leaves the same stored items, yet an iterator made before is out of sync: E_OUT_OF_SYNC and no hit |
| IterEngine.OthersKeepClean | src/trie.c:215-236 | a call on one iterator leaves every clean iterator healthy and owing what it owed |
| IterEngine.NewPairsReplaces | src/trie.c:203-209 | opening a pair search replaces any older dirty iterator, which is refused with E_REPLACED from then on; clean iterators are unaffected |
| IterEngine.FreeKeepsClean | src/trie.c:294-297 | freeing an iterator leaves every clean iterator healthy and owing what it owed |
| StaleValues.ItemFree | src/trie.c:251-267 | freeing an item forgets its key and keeps the children. The value goes to the hook exactly when there is a hook and a value. As written, without a hook the value stays in the slot |
| StaleValues.HookSeesReturnedValue | src/trie.c:251-267 | store "a" and "ab"; delete "a" without a hook, then "ab" with one: as written the hook receives both values, the one handed back included, and with the slot cleared it receives only the second |
| StaleValues.ClearedFreesOnce | src/trie.c:573-601 | with the slot cleared on every free, a deletion hands the hook only the deleted key's value and leaves no stale value behind |

## Left out

- Python bindings (`src/pyapi.c`): they are callers only. They matter to the finding below, which is why it names `pop`.
- Allocation: `malloc` failure, the state buffer's growth (`trieiter_push_state`), and `num_states`. These are memory management, not behaviour. `trieiter_new`'s `num_states < 1` refusal cannot happen, because every caller passes 1.
- NULL `root` or iterator arguments: pointers are not modelled. A NULL key is modelled as `None` where the C code checks for it.
- Tries.GetNode, Tries.HasKey, Tries.HasNode, Tries.GetItem, Tries.LongestPrefix: take a present key, because the C lookups dereference a NULL key without checking it.
- `state_id` is a C `long long` and the model's revision is unbounded: wrap-around after 2^63 updates is not modelled.
- `trie_free` and `_trie_free` (whole-trie teardown) are not modelled, since after teardown no operation is defined.
- PairSearch.Open: when `trieiter_new` refuses a negative budget, the C code leaks the already collected queue; the model simply returns no iterator.
- `sizeof` values: the model fixes 96 bytes for the root and 56 per node, as on a 64-bit build. The memory proofs do not depend on these values.
- `trieiter_errcode` and `trieiter_len_query` read a field and are left as field reads on the iterator value.
- Result structs are values, so `triesearchresult_new` and freeing a result are not modelled.

## Findings

| source | as written | input that shows it | evidently intended | confidence | as-written member | corrected member |
|---|---|---|---|---|---|---|
| src/trie.c:251-267 | `trieitem_free` clears the key but leaves the value pointer in place when no hook is given. `trie_del_item` without a hook (`pop` and `popitem` in the bindings pass NULL to hand the value to the caller) then leaves the value in a node that survives because longer keys pass through it. A later pruning of that node with a hook frees the value again | store "a"→1 and "ab"→2; delete "a" without a hook; delete "ab" with a hook: the hook receives 2 and then 1, though 1 was handed to the caller | freeing an item empties its value slot whether or not a hook is given, so a value reaches the hook at most once and never after being handed back | not executed | StaleValues.HookSeesReturnedValue | TrieUpdates.DelItem |

In the rest of the model a node's item holds key and value together, as in
`TrieUpdates.DelItem`, so a deleted key's value cannot outlive it.
`StaleValues.ClearedFreesOnce` proves the same property on the C code's
separate slots, once the slot is cleared on every free.
