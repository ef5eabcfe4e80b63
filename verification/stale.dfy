/**
  The item slot as the C code keeps it.  A node's key and value are separate
  pointers, and `trieitem_free` forgets the key always but clears the value
  only when it hands it to a deallocation hook.  A node that survives the
  deletion of its key, because longer keys pass through it, therefore keeps
  the deleted value; when the node is pruned later by a deletion that does
  pass a hook, the hook receives that value a second time.

  This module models the slot with both behaviours: `AsWritten`, and
  `Cleared`, where every free empties the slot.  The rest of the model uses
  the cleared behaviour: its nodes hold a key and its value together, so no
  value outlives its key.
 */
module StaleValues {
  import opened Wrappers
  import opened Keys
  import U = TrieUpdates

  /** A node as the C code stores it: the key pointer, the value pointer, the children. */
  datatype Slot<V> = Slot(hasKey: bool, value: Option<V>, kids: seq<byte>)

  /** How `trieitem_free` treats the value when no hook is given. */
  datatype Release = AsWritten | Cleared

  /** The nodes after a deletion and the values handed to the hook, in order. */
  datatype Raw<V> = Raw(nodes: map<Path, Slot<V>>, freed: seq<V>)

  /** `trieitem_free`: the key goes; the value goes to the hook when there is one. */
  function ItemFree<V>(how: Release, n: Slot<V>, dealloc: bool): (r: (Slot<V>, seq<V>))
    ensures !r.0.hasKey && r.0.kids == n.kids
    ensures r.1 == (if dealloc && n.value.Some? then [n.value.value] else [])
    ensures how == Cleared || dealloc ==> r.0.value.None?
    ensures how == AsWritten && !dealloc ==> r.0.value == n.value
  {
    var freed := if dealloc && n.value.Some? then [n.value.value] else [];
    var value := if how == Cleared || dealloc then None else n.value;
    (n.(hasKey := false, value := value), freed)
  }

  /**
    The pruning loop of `trie_del_item`: while the node is not the root, has
    no children and holds no key, unlink it from its parent and free it
    (`trienode_remove_child`, `trienode_free`) with the deletion's hook.
   */
  function Prune<V>(how: Release, nodes: map<Path, Slot<V>>, p: Path, dealloc: bool): (r: Raw<V>)
    decreases |p|
  {
    if p != [] && p in nodes && Parent(p) in nodes && nodes[p].kids == [] && !nodes[p].hasKey then
      var par := Parent(p);
      var f := ItemFree(how, nodes[p], dealloc);
      var nodes1 := (nodes - {p})[par := nodes[par].(kids := U.Unlink(nodes[par].kids, Last(p)))];
      var r := Prune(how, nodes1, par, dealloc);
      Raw(r.nodes, f.1 + r.freed)
    else Raw(nodes, [])
  }

  /**
    `trie_del_item` over raw slots: no node or no key is an error; otherwise
    free the item, then prune upwards.
   */
  function Del<V>(how: Release, nodes: map<Path, Slot<V>>, key: Path, dealloc: bool): (r: Option<Raw<V>>)
    ensures r.Some? <==> key in nodes && nodes[key].hasKey
  {
    if key !in nodes || !nodes[key].hasKey then None
    else
      var f := ItemFree(how, nodes[key], dealloc);
      var r := Prune(how, nodes[key := f.0], key, dealloc);
      Some(Raw(r.nodes, f.1 + r.freed))
  }

  /** No node without a key still holds a value. */
  ghost predicate NoStale<V>(nodes: map<Path, Slot<V>>) {
    forall p | p in nodes && !nodes[p].hasKey :: nodes[p].value.None?
  }

  /** Without stale values, pruning hands nothing to the hook and leaves none behind. */
  lemma {:induction false} PruneFreesNothing<V>(how: Release, nodes: map<Path, Slot<V>>, p: Path, dealloc: bool)
    requires NoStale(nodes)
    ensures Prune(how, nodes, p, dealloc).freed == [] && NoStale(Prune(how, nodes, p, dealloc).nodes)
    decreases |p|
  {
    if p != [] && p in nodes && Parent(p) in nodes && nodes[p].kids == [] && !nodes[p].hasKey {
      var par := Parent(p);
      var nodes1 := (nodes - {p})[par := nodes[par].(kids := U.Unlink(nodes[par].kids, Last(p)))];
      assert NoStale(nodes1);
      PruneFreesNothing(how, nodes1, par, dealloc);
    }
  }

  /**
    With the slot cleared on every free, a deletion hands the hook exactly the
    deleted key's value, and only when a hook is given, and leaves no stale
    value behind: a value returned to the caller never reaches the hook later.
   */
  lemma ClearedFreesOnce<V>(nodes: map<Path, Slot<V>>, key: Path, dealloc: bool)
    requires NoStale(nodes) && key in nodes && nodes[key].hasKey
    ensures var r := Del(Cleared, nodes, key, dealloc).value;
            && r.freed == (if dealloc && nodes[key].value.Some? then [nodes[key].value.value] else [])
            && NoStale(r.nodes)
  {
    var f := ItemFree(Cleared, nodes[key], dealloc);
    assert NoStale(nodes[key := f.0]);
    PruneFreesNothing(Cleared, nodes[key := f.0], key, dealloc);
  }

  /** The trie holding "a" with value 1 and "ab" with value 2. */
  const Both: map<Path, Slot<int>> :=
    map[[] := Slot(false, None, [97]), [97] := Slot(true, Some(1), [98]), [97, 98] := Slot(true, Some(2), [])]

  /** `Both` after deleting "a" as written without a hook: the slot of "a" still holds 1. */
  const Kept: map<Path, Slot<int>> :=
    map[[] := Slot(false, None, [97]), [97] := Slot(false, Some(1), [98]), [97, 98] := Slot(true, Some(2), [])]

  /** `Both` after deleting "a" with the slot cleared. */
  const Emptied: map<Path, Slot<int>> :=
    map[[] := Slot(false, None, [97]), [97] := Slot(false, None, [98]), [97, 98] := Slot(true, Some(2), [])]

  /** The root alone, with no children. */
  const Bare: map<Path, Slot<int>> := map[[] := Slot(false, None, [])]

  lemma DeleteShortWritten()
    ensures Del(AsWritten, Both, [97], false) == Some(Raw(Kept, []))
  {
    var a: Path := [97];
    assert ItemFree(AsWritten, Both[a], false) == (Kept[a], []);
    assert Both[a := Kept[a]] == Kept;
    assert Prune(AsWritten, Kept, a, false) == Raw(Kept, []);
    assert Del(AsWritten, Both, a, false).value.nodes == Kept;
    assert Del(AsWritten, Both, a, false).value.freed == [];
  }

  lemma DeleteShortCleared()
    ensures Del(Cleared, Both, [97], false) == Some(Raw(Emptied, []))
  {
    var a: Path := [97];
    assert ItemFree(Cleared, Both[a], false) == (Emptied[a], []);
    assert Both[a := Emptied[a]] == Emptied;
    assert Prune(Cleared, Emptied, a, false) == Raw(Emptied, []);
    assert Del(Cleared, Both, a, false).value.nodes == Emptied;
    assert Del(Cleared, Both, a, false).value.freed == [];
  }

  /** Pruning "ab" and then "a" from `t`, the item of "ab" freed already. */
  lemma PruneLong(how: Release, t: map<Path, Slot<int>>, v: Option<int>)
    requires t == map[[] := Slot(false, None, [97]), [97] := Slot(false, v, [98]), [97, 98] := Slot(false, None, [])]
    ensures Prune(how, t, [97, 98], true) == Raw(Bare, if v.Some? then [v.value] else [])
  {
    var a: Path := [97];
    var ab: Path := [97, 98];
    assert Parent(ab) == a && Last(ab) == 98 && Parent(a) == [] && Last(a) == 97;
    assert U.Unlink([98], 98) == [] && U.Unlink([97], 97) == [];
    var t3 := (t - {ab})[a := Slot(false, v, [])];
    assert (t - {ab})[a := t[a].(kids := U.Unlink(t[a].kids, 98))] == t3;
    assert (t3 - {a})[[] := t3[[]].(kids := U.Unlink(t3[[]].kids, 97))] == Bare;
    assert Prune(how, Bare, [], true) == Raw(Bare, []);
    assert Prune(how, t3, a, true) == Raw(Bare, if v.Some? then [v.value] else []);
  }

  /** Deleting "ab" with a hook from `Kept` or `Emptied`, whose node "a" holds `v`. */
  lemma DeleteLong(how: Release, t: map<Path, Slot<int>>, v: Option<int>)
    requires t == map[[] := Slot(false, None, [97]), [97] := Slot(false, v, [98]), [97, 98] := Slot(true, Some(2), [])]
    ensures Del(how, t, [97, 98], true) == Some(Raw(Bare, [2] + if v.Some? then [v.value] else []))
  {
    var ab: Path := [97, 98];
    var t2 := t[ab := Slot(false, None, [])];
    assert ItemFree(how, t[ab], true) == (t2[ab], [2]);
    PruneLong(how, t2, v);
  }

  /** `Both` holds no stale value; `Kept` does, in node "a". */
  lemma StaleInKept()
    ensures NoStale(Both) && !NoStale(Kept)
  {
    assert !Kept[[97]].hasKey && Kept[[97]].value.Some?;
  }

  /**
    In `Both`, deleting "a" without a hook (as `pop` does, handing 1 back to
    its caller) keeps 1 in the surviving node "a"; deleting "ab" with a hook
    then prunes "a" and hands the hook 2 and then 1.  With the slot cleared
    the hook sees only 2.
   */
  lemma HookSeesReturnedValue()
    ensures NoStale(Both) && Del(AsWritten, Both, [97], false) == Some(Raw(Kept, [])) && !NoStale(Kept)
    ensures Del(AsWritten, Kept, [97, 98], true).value.freed == [2, 1]
    ensures Del(Cleared, Both, [97], false) == Some(Raw(Emptied, []))
    ensures Del(Cleared, Emptied, [97, 98], true).value.freed == [2]
  {
    StaleInKept();
    DeleteShortWritten();
    DeleteShortCleared();
    DeleteLong(AsWritten, Kept, Some(1));
    DeleteLong(Cleared, Emptied, None);
    assert [2] + [1] == [2, 1];
    assert [2] + [] == [2];
  }
}
