/**
  The mutating half of the tree manager: `trie_set_item` and `trie_del_item`.
  Both return 0 on success and -1 on error, and report the values they hand to
  the caller's deallocation hook, in call order.
 */
module TrieUpdates {
  import opened Wrappers
  import opened Keys
  import opened Tries

  /** Outcome of a mutation: the new trie, the C return code, and the values given to the hook. */
  datatype Update<V> = Update(trie: Trie<V>, rc: int, freed: seq<V>)

  /** The proper and improper non-empty prefixes `key[..j]` for `lo < j <= |key|`. */
  ghost function Chain(key: Path, lo: nat): set<Path> {
    set j | lo < j <= |key| :: key[..j]
  }

  lemma ChainStep(key: Path, i: nat)
    requires i < |key|
    ensures Chain(key, i) == {key[..i + 1]} + Chain(key, i + 1)
  {
    forall x | x in Chain(key, i) ensures x in {key[..i + 1]} + Chain(key, i + 1) {
      var j :| i < j <= |key| && x == key[..j];
      if j > i + 1 { assert x in Chain(key, i + 1); }
    }
  }

  /** Structure is linked and pruned everywhere except possibly at `x`. */
  ghost predicate PrunedExcept<V>(nodes: map<Path, Node<V>>, x: Path) {
    forall p | p in nodes && p != [] && p != x :: nodes[p].item.Some? || nodes[p].kids != []
  }

  /** The counters agree with the structure, whatever its pruning. */
  ghost predicate Tallied<V>(t: Trie<V>) {
    && t.numNodes + 1 == |t.nodes|
    && t.memsize == ROOT_SIZE + t.numNodes * NODE_SIZE + KeyBytes(Items(t).Keys)
  }

  // ---------------------------------------------------------------------
  // Insertion

  lemma AddEdgeLinked<V>(nodes: map<Path, Node<V>>, p: Path, c: byte)
    requires Linked(nodes) && p in nodes && c != 0 && p + [c] !in nodes
    ensures Linked(nodes[p := nodes[p].(kids := [c] + nodes[p].kids)][p + [c] := Node(None, [], false)])
  {
    var nodes' := nodes[p := nodes[p].(kids := [c] + nodes[p].kids)][p + [c] := Node(None, [], false)];
    assert c !in nodes[p].kids;
    AddEdgeNulFree(nodes, p, c, nodes');
    AddEdgeUp(nodes, p, c, nodes');
    AddEdgeDown(nodes, p, c, nodes');
    AddEdgeDistinct(nodes, p, c, nodes');
  }

  lemma AddEdgeNulFree<V>(nodes: map<Path, Node<V>>, p: Path, c: byte, nodes': map<Path, Node<V>>)
    requires PathsNulFree(nodes) && p in nodes && c != 0
    requires nodes'.Keys == nodes.Keys + {p + [c]}
    ensures PathsNulFree(nodes')
  {
    var q := p + [c];
    forall i | 0 <= i < |q| ensures q[i] != 0 {
      if i < |p| { assert q[i] == p[i]; }
    }
  }

  lemma AddEdgeUp<V>(nodes: map<Path, Node<V>>, p: Path, c: byte, nodes': map<Path, Node<V>>)
    requires UpLinked(nodes) && p in nodes && p + [c] !in nodes
    requires nodes' == nodes[p := nodes[p].(kids := [c] + nodes[p].kids)][p + [c] := Node(None, [], false)]
    ensures UpLinked(nodes')
  {
    var q := p + [c];
    assert Parent(q) == p && Last(q) == c;
    forall r | r in nodes' && r != [] ensures Parent(r) in nodes' && Last(r) in nodes'[Parent(r)].kids {
      if r != q {
        assert Parent(r) in nodes && Last(r) in nodes[Parent(r)].kids;
        assert Parent(r) != q;
      }
    }
  }

  lemma AddEdgeDown<V>(nodes: map<Path, Node<V>>, p: Path, c: byte, nodes': map<Path, Node<V>>)
    requires DownLinked(nodes) && p in nodes && p + [c] !in nodes
    requires nodes' == nodes[p := nodes[p].(kids := [c] + nodes[p].kids)][p + [c] := Node(None, [], false)]
    ensures DownLinked(nodes')
  {
    var q := p + [c];
    forall r, x | r in nodes' && x in nodes'[r].kids ensures r + [x] in nodes' {
      if r == p {
        if x != c { assert x in nodes[p].kids; }
      } else if r != q {
        assert x in nodes[r].kids;
      }
    }
  }

  lemma AddEdgeDistinct<V>(nodes: map<Path, Node<V>>, p: Path, c: byte, nodes': map<Path, Node<V>>)
    requires SiblingsDistinct(nodes) && p in nodes && c !in nodes[p].kids
    requires nodes' == nodes[p := nodes[p].(kids := [c] + nodes[p].kids)][p + [c] := Node(None, [], false)]
    ensures SiblingsDistinct(nodes')
  {
    var ks := [c] + nodes[p].kids;
    assert Distinct(ks) by {
      forall i, j | 0 <= i < j < |ks| ensures ks[i] != ks[j] {
        assert ks[j] == nodes[p].kids[j - 1];
        if i > 0 { assert ks[i] == nodes[p].kids[i - 1]; }
      }
    }
  }

  /**
    One step of the insertion walk at node `p`: follow the child over `c`, or
    create it as an empty leaf linked in at the head of the sibling list,
    counting one more node and one more node record of memory.
   */
  function AddEdge<V>(t: Trie<V>, p: Path, c: byte): (r: Trie<V>)
    requires Linked(t.nodes) && p in t.nodes && c != 0
    ensures Linked(r.nodes)
    ensures r.nodes.Keys == t.nodes.Keys + {p + [c]}
  {
    ChildIffKid(t.nodes, p, c);
    if GetChild(t, p, c).Some? then t
    else
      AddEdgeLinked(t.nodes, p, c);
      var n := t.nodes[p];
      t.(nodes := t.nodes[p := n.(kids := [c] + n.kids)][p + [c] := Node(None, [], false)],
         numNodes := t.numNodes + 1,
         memsize := t.memsize + NODE_SIZE)
  }

  /** What one walk step leaves alone, and what it adds. */
  lemma AddEdgeKeeps<V>(t: Trie<V>, p: Path, c: byte)
    requires Linked(t.nodes) && p in t.nodes && c != 0
    ensures var r := AddEdge(t, p, c);
            && c in r.nodes[p].kids
            && (p + [c] in t.nodes ==> r == t)
            && (p + [c] !in t.nodes ==>
                  && r.nodes[p + [c]] == Node(None, [], false)
                  && r.numNodes == t.numNodes + 1 && r.memsize == t.memsize + NODE_SIZE)
            && (forall q | q in t.nodes ::
                  r.nodes[q].item == t.nodes[q].item && r.nodes[q].explored == t.nodes[q].explored)
            && r.numItems == t.numItems && r.stateId == t.stateId
            && r.dirty == t.dirty && r.nextTicket == t.nextTicket
  {
    ChildIffKid(t.nodes, p, c);
  }

  /** The whole insertion walk: afterwards every prefix of `key` has a node. */
  function Descend<V>(t: Trie<V>, key: Key, i: nat): (r: Trie<V>)
    requires i <= |key| && Linked(t.nodes) && key[..i] in t.nodes
    ensures Linked(r.nodes) && key in r.nodes
    ensures r.nodes.Keys == t.nodes.Keys + Chain(key, i)
    decreases |key| - i
  {
    if i == |key| then
      assert key[..i] == key;
      assert Chain(key, i) == {};
      t
    else
      var t1 := AddEdge(t, key[..i], key[i]);
      assert key[..i] + [key[i]] == key[..i + 1];
      ChainStep(key, i);
      Descend(t1, key, i + 1)
  }

  /** The walk changes no item, no flag and no counter other than the node tallies. */
  lemma {:induction false} DescendKeeps<V>(t: Trie<V>, key: Key, i: nat)
    requires i <= |key| && Linked(t.nodes) && key[..i] in t.nodes
    ensures var r := Descend(t, key, i);
            && (forall q | q in t.nodes ::
                  r.nodes[q].item == t.nodes[q].item && r.nodes[q].explored == t.nodes[q].explored)
            && (forall q | q in r.nodes && q !in t.nodes :: r.nodes[q].item.None? && !r.nodes[q].explored)
            && (Chain(key, i) <= t.nodes.Keys ==> r == t)
            && r.numItems == t.numItems && r.stateId == t.stateId
            && r.dirty == t.dirty && r.nextTicket == t.nextTicket
    decreases |key| - i
  {
    if i < |key| {
      var t1 := AddEdge(t, key[..i], key[i]);
      assert key[..i] + [key[i]] == key[..i + 1];
      AddEdgeKeeps(t, key[..i], key[i]);
      DescendKeeps(t1, key, i + 1);
      ChainStep(key, i);
    }
  }

  /** The walk keeps the counters in step with the nodes it creates. */
  lemma {:induction false} DescendTallied<V>(t: Trie<V>, key: Key, i: nat)
    requires i <= |key| && Linked(t.nodes) && key[..i] in t.nodes && Tallied(t)
    ensures Tallied(Descend(t, key, i)) && Items(Descend(t, key, i)) == Items(t)
    decreases |key| - i
  {
    if i < |key| {
      var p := key[..i];
      var t1 := AddEdge(t, p, key[i]);
      assert p + [key[i]] == key[..i + 1];
      AddEdgeKeeps(t, p, key[i]);
      ItemsAgree(t, t1);
      if key[..i + 1] !in t.nodes {
        assert |t1.nodes.Keys| == |t.nodes.Keys| + 1;
      }
      DescendTallied(t1, key, i + 1);
    } else {
      assert Descend(t, key, i) == t;
    }
  }

  /** Only the node the walk ends on may be left bare. */
  lemma {:induction false} DescendPruned<V>(t: Trie<V>, key: Key, i: nat)
    requires i <= |key| && Linked(t.nodes) && key[..i] in t.nodes
    requires PrunedExcept(t.nodes, key[..i])
    ensures PrunedExcept(Descend(t, key, i).nodes, key)
    decreases |key| - i
  {
    if i < |key| {
      var p := key[..i];
      var t1 := AddEdge(t, p, key[i]);
      assert p + [key[i]] == key[..i + 1];
      AddEdgeKeeps(t, p, key[i]);
      assert PrunedExcept(t1.nodes, key[..i + 1]) by {
        forall q | q in t1.nodes && q != [] && q != key[..i + 1]
          ensures t1.nodes[q].item.Some? || t1.nodes[q].kids != []
        {
          if q != p {
            assert q in t.nodes;
            if t1 != t {
              assert t1.nodes[q] == t.nodes[q];
            }
          }
        }
      }
      DescendPruned(t1, key, i + 1);
    } else {
      assert key[..i] == key;
    }
  }

  lemma StoredChainExists<V>(t: Trie<V>, k: Path)
    requires Valid(t)
    ensures k in Items(t) ==> Chain(k, 0) <= t.nodes.Keys
  {
    if k in Items(t) {
      forall x | x in Chain(k, 0) ensures x in t.nodes {
        var j :| 0 < j <= |k| && x == k[..j];
        PrefixClosed(t.nodes, k, j);
      }
    }
  }

  /**
    `trie_set_item`: store `v` under `key`.  A missing key is an error that
    changes nothing.  A new key adds the nodes its path lacks, bumps the item
    count and the revision; overwriting keeps both and hands the old value to
    the hook when one is given.
   */
  function SetItem<V>(t: Trie<V>, key: Option<Key>, v: V, dealloc: bool): (r: Update<V>)
    requires Valid(t)
    ensures Valid(r.trie)
    ensures key.None? ==> r == Update(t, -1, [])
    ensures key.Some? ==> r.rc == 0 && Items(r.trie) == Items(t)[key.value := v]
    ensures key.Some? ==> r.trie.nodes.Keys == t.nodes.Keys + Prefixes({key.value})
    ensures key.Some? && key.value !in Items(t) ==>
              && r.trie.numItems == t.numItems + 1 && r.trie.stateId == t.stateId + 1
              && r.freed == []
    ensures key.Some? && key.value in Items(t) ==>
              && r.trie.numItems == t.numItems && r.trie.stateId == t.stateId
              && r.trie.nodes.Keys == t.nodes.Keys
              && (forall p | p in t.nodes :: r.trie.nodes[p].kids == t.nodes[p].kids)
              && r.freed == (if dealloc then [Items(t)[key.value]] else [])
    ensures r.trie.dirty == t.dirty && r.trie.nextTicket == t.nextTicket
    ensures forall p | p in t.nodes :: r.trie.nodes[p].explored == t.nodes[p].explored
  {
    if key.None? then Update(t, -1, [])
    else if key.value in Items(t) then
      // The walk to a stored key creates nothing (DescendFacts): only the value changes.
      var k := key.value;
      Overwrite(t, k, v);
      StoredPrefixes(t, k);
      Update(t.(nodes := t.nodes[k := t.nodes[k].(item := Some(v))]), 0,
             if dealloc then [Items(t)[k]] else [])
    else Update(AddKey(t, key.value, v), 0, [])
  }

  /** Storing a new key: walk down creating nodes, then fill the last one. */
  function AddKey<V>(t: Trie<V>, k: Key, v: V): (r: Trie<V>)
    requires Valid(t) && k !in Items(t)
    ensures Valid(r) && Items(r) == Items(t)[k := v]
    ensures r.nodes.Keys == t.nodes.Keys + Prefixes({k})
    ensures r.numItems == t.numItems + 1 && r.stateId == t.stateId + 1
    ensures r.dirty == t.dirty && r.nextTicket == t.nextTicket
    ensures forall p | p in t.nodes :: r.nodes[p].explored == t.nodes[p].explored
  {
    var t1 := Descend(t, k, 0);
    DescendFacts(t, k);
    var n := t1.nodes[k];
    var t3 := t1.(nodes := t1.nodes[k := n.(item := Some(v))],
                  numItems := t1.numItems + 1, stateId := t1.stateId + 1,
                  memsize := t1.memsize + (|k| + 1));
    FillLeaf(t1, k, v, t3);
    t3
  }

  /** The non-empty prefixes of a key, with the root, are all its prefixes. */
  lemma ChainPrefixes(k: Path)
    ensures Chain(k, 0) + {[]} == Prefixes({k})
  {
    forall x | x in Prefixes({k}) ensures x in Chain(k, 0) + {[]} {
      var j :| 0 <= j <= |k| && x == k[..j];
      if j == 0 { assert x == []; }
    }
  }

  /** The insertion walk from the root, with what it preserves. */
  lemma DescendFacts<V>(t: Trie<V>, k: Key)
    requires Valid(t)
    ensures [] == k[..0]
    ensures var t1 := Descend(t, k, 0);
            && Linked(t1.nodes) && k in t1.nodes && PrunedExcept(t1.nodes, k)
            && Tallied(t1) && Items(t1) == Items(t) && Leased(t1)
            && t1.nodes.Keys == t.nodes.Keys + Prefixes({k})
            && (k in Items(t) ==> t1 == t)
            && (forall q | q in t.nodes ::
                  t1.nodes[q].item == t.nodes[q].item && t1.nodes[q].explored == t.nodes[q].explored)
            && t1.numItems == t.numItems && t1.stateId == t.stateId
            && t1.dirty == t.dirty && t1.nextTicket == t.nextTicket
  {
    assert k[..0] == [];
    var t1 := Descend(t, k, 0);
    DescendKeeps(t, k, 0);
    DescendTallied(t, k, 0);
    DescendPruned(t, k, 0);
    ChainPrefixes(k);
    if k in Items(t) {
      StoredChainExists(t, k);
    }
  }

  /** Every prefix of a stored key has a node. */
  lemma StoredPrefixes<V>(t: Trie<V>, k: Path)
    requires Valid(t) && k in Items(t)
    ensures Prefixes({k}) <= t.nodes.Keys
  {
    NodesArePrefixes(t);
    forall x | x in Prefixes({k}) ensures x in Prefixes(Items(t).Keys) {
      var j :| 0 <= j <= |k| && x == k[..j];
    }
  }

  /** Setting or clearing one item keeps the links and flags, and at most that node bare. */
  lemma SetShape<V>(nodes: map<Path, Node<V>>, k: Path, x: Option<V>, nodes': map<Path, Node<V>>)
    requires Linked(nodes) && PrunedExcept(nodes, k) && k in nodes
    requires nodes' == nodes[k := nodes[k].(item := x)]
    ensures Linked(nodes') && SameShape(nodes, nodes') && PrunedExcept(nodes', k)
    ensures x.Some? ==> Pruned(nodes')
    ensures forall p | p in nodes :: nodes'[p].explored == nodes[p].explored
  {
    SameShapeLinked(nodes, nodes');
  }

  /** Replacing the value of a stored key keeps every invariant and the shape. */
  lemma Overwrite<V>(t: Trie<V>, k: Key, v: V)
    requires Valid(t) && k in Items(t)
    ensures var t2 := t.(nodes := t.nodes[k := t.nodes[k].(item := Some(v))]);
            && Valid(t2) && Items(t2) == Items(t)[k := v] && SameShape(t.nodes, t2.nodes)
            && (forall q | q in t.nodes :: t2.nodes[q].explored == t.nodes[q].explored)
  {
    var t2 := t.(nodes := t.nodes[k := t.nodes[k].(item := Some(v))]);
    SetShape(t.nodes, k, Some(v), t2.nodes);
    ItemsAt(k, Some(v), t, t2);
    assert Items(t2).Keys == Items(t).Keys;
  }

  /** Storing a value in the bare node the walk ended on keeps every invariant. */
  lemma FillLeaf<V>(t1: Trie<V>, k: Key, v: V, t3: Trie<V>)
    requires Linked(t1.nodes) && k in t1.nodes && PrunedExcept(t1.nodes, k) && Tallied(t1) && Leased(t1)
    requires t1.nodes[k].item.None? && t1.numItems == |Items(t1)|
    requires t3 == t1.(nodes := t1.nodes[k := t1.nodes[k].(item := Some(v))],
                       numItems := t1.numItems + 1, stateId := t1.stateId + 1,
                       memsize := t1.memsize + (|k| + 1))
    ensures Valid(t3) && Items(t3) == Items(t1)[k := v]
    ensures forall q | q in t1.nodes :: t3.nodes[q].explored == t1.nodes[q].explored
  {
    SetShape(t1.nodes, k, Some(v), t3.nodes);
    ItemsAt(k, Some(v), t1, t3);
    assert k !in Items(t1);
    KeyBytesAdd(Items(t1).Keys, k);
  }

  // ---------------------------------------------------------------------
  // Deletion

  /** Unlinking the first sibling whose edge byte is `c` (`trienode_remove_child`). */
  function Unlink(kids: seq<byte>, c: byte): (r: seq<byte>)
    ensures forall x | x in r :: x in kids
    ensures Distinct(kids) ==> Distinct(r) && (forall x :: x in r <==> x in kids && x != c)
  {
    if kids == [] then []
    else if kids[0] == c then kids[1..]
    else
      var rest := Unlink(kids[1..], c);
      assert Distinct(kids) ==> Distinct(kids[1..]) && kids[0] !in kids[1..];
      [kids[0]] + rest
  }

  /**
    Detach childless node `par + [c]` from its parent and drop it.  The C code
    checks that the child has no children of its own before freeing it.
   */
  function RemoveChild<V>(nodes: map<Path, Node<V>>, par: Path, c: byte): map<Path, Node<V>>
    requires par in nodes
  {
    var child := par + [c];
    if child in nodes && nodes[child].kids == [] then
      (nodes - {child})[par := nodes[par].(kids := Unlink(nodes[par].kids, c))]
    else nodes
  }

  lemma RemoveLeafLinked<V>(t: Trie<V>, p: Path)
    requires Linked(t.nodes) && p in t.nodes && p != []
    requires t.nodes[p].kids == [] && t.nodes[p].item.None?
    requires PrunedExcept(t.nodes, p)
    ensures Parent(p) in t.nodes
    ensures var nodes' := RemoveChild(t.nodes, Parent(p), Last(p));
            && nodes'.Keys == t.nodes.Keys - {p}
            && Linked(nodes') && PrunedExcept(nodes', Parent(p))
            && (forall q | q in nodes' :: nodes'[q].item == t.nodes[q].item
                                          && nodes'[q].explored == t.nodes[q].explored)
            && (forall q | q in nodes' && q != Parent(p) :: nodes'[q] == t.nodes[q])
  {
    var par := Parent(p);
    var c := Last(p);
    assert par + [c] == p;
    assert c in t.nodes[par].kids;
    RemoveLeafUp(t.nodes, p);
    RemoveLeafDown(t.nodes, p);
  }

  lemma RemoveLeafUp<V>(nodes: map<Path, Node<V>>, p: Path)
    requires Linked(nodes) && p in nodes && p != [] && nodes[p].kids == []
    requires Parent(p) + [Last(p)] == p
    ensures UpLinked(RemoveChild(nodes, Parent(p), Last(p)))
  {
    var par := Parent(p);
    var c := Last(p);
    var nodes' := RemoveChild(nodes, par, c);
    forall q | q in nodes' && q != [] ensures Parent(q) in nodes' && Last(q) in nodes'[Parent(q)].kids {
      assert Parent(q) in nodes && Last(q) in nodes[Parent(q)].kids;
      if Parent(q) == p {
        assert false;
      }
      if Parent(q) == par {
        assert q == par + [Last(q)];
        assert Last(q) != c;
      }
    }
  }

  lemma RemoveLeafDown<V>(nodes: map<Path, Node<V>>, p: Path)
    requires Linked(nodes) && p in nodes && p != [] && nodes[p].kids == []
    requires Parent(p) + [Last(p)] == p
    ensures DownLinked(RemoveChild(nodes, Parent(p), Last(p)))
  {
    var nodes' := RemoveChild(nodes, Parent(p), Last(p));
    forall q, x | q in nodes' && x in nodes'[q].kids ensures q + [x] in nodes' {
      assert x in nodes[q].kids;
      assert q + [x] in nodes;
      assert q + [x] != p by {
        assert Parent(q + [x]) == q && Last(q + [x]) == x;
      }
    }
  }

  lemma RemoveLeafCounts<V>(t: Trie<V>, p: Path, t1: Trie<V>)
    requires Linked(t.nodes) && p in t.nodes && p != []
    requires t.nodes[p].kids == [] && t.nodes[p].item.None?
    requires PrunedExcept(t.nodes, p) && Tallied(t)
    requires Parent(p) in t.nodes && t.numNodes >= 1
    requires t1 == t.(nodes := RemoveChild(t.nodes, Parent(p), Last(p)),
                      memsize := t.memsize - NODE_SIZE, numNodes := t.numNodes - 1)
    ensures Tallied(t1) && Items(t1) == Items(t)
  {
    RemoveLeafLinked(t, p);
    assert Items(t1) == Items(t);
    assert |t1.nodes.Keys| == |t.nodes.Keys| - 1;
  }

  /**
    The pruning walk of `trie_del_item`: while the current node is not the
    root, has no children and holds no item, unlink it from its parent and
    move up, one node and one node record fewer each time.
   */
  function Prune<V>(t: Trie<V>, p: Path): (r: Trie<V>)
    requires Linked(t.nodes) && p in t.nodes && PrunedExcept(t.nodes, p) && Tallied(t)
    ensures Linked(r.nodes) && Pruned(r.nodes) && Tallied(r)
    ensures Items(r) == Items(t)
    ensures exists m :: 0 <= m <= |p| && r.nodes.Keys == t.nodes.Keys - Chain(p, m)
    ensures forall q | q in r.nodes :: q in t.nodes && r.nodes[q].explored == t.nodes[q].explored
    ensures r.numItems == t.numItems && r.stateId == t.stateId
    ensures r.dirty == t.dirty && r.nextTicket == t.nextTicket
    decreases |p|
  {
    if p != [] && t.nodes[p].kids == [] && t.nodes[p].item.None? then
      var par := Parent(p);
      assert par in t.nodes;
      SubsetCard({p, []}, t.nodes.Keys);
      var t1 := t.(nodes := RemoveChild(t.nodes, par, Last(p)),
                   memsize := t.memsize - NODE_SIZE,
                   numNodes := t.numNodes - 1);
      RemoveLeafLinked(t, p);
      RemoveLeafCounts(t, p, t1);
      var r := Prune(t1, par);
      PruneChain(t, t1, r, p);
      r
    else
      assert t.nodes.Keys == t.nodes.Keys - Chain(p, |p|);
      t
  }

  lemma PruneChain<V>(t: Trie<V>, t1: Trie<V>, r: Trie<V>, p: Path)
    requires p != [] && t1.nodes.Keys == t.nodes.Keys - {p}
    requires exists m :: 0 <= m <= |Parent(p)| && r.nodes.Keys == t1.nodes.Keys - Chain(Parent(p), m)
    ensures exists m :: 0 <= m <= |p| && r.nodes.Keys == t.nodes.Keys - Chain(p, m)
  {
    var m :| 0 <= m <= |Parent(p)| && r.nodes.Keys == t1.nodes.Keys - Chain(Parent(p), m);
    assert Chain(p, m) == Chain(Parent(p), m) + {p} by {
      forall x | x in Chain(p, m) ensures x in Chain(Parent(p), m) + {p} {
        var j :| m < j <= |p| && x == p[..j];
        if j < |p| { assert x == Parent(p)[..j]; } else { assert x == p; }
      }
      forall x | x in Chain(Parent(p), m) ensures x in Chain(p, m) {
        var j :| m < j <= |Parent(p)| && x == Parent(p)[..j];
        assert x == p[..j];
      }
      assert p == p[..|p|];
    }
  }

  /**
    `trie_del_item`: remove `key`.  A missing key, an absent node or a node
    without an item is an error that changes nothing.  Otherwise the item goes
    (its value to the hook, if given), then exactly the chain of ancestors that
    no longer lead to any item, stopping below the root; the revision is bumped.
   */
  function DelItem<V>(t: Trie<V>, key: Option<Key>, dealloc: bool): (r: Update<V>)
    requires Valid(t)
    ensures Valid(r.trie)
    ensures key.None? || key.value !in Items(t) ==> r == Update(t, -1, [])
    ensures key.Some? && key.value in Items(t) ==>
              && r.rc == 0
              && Items(r.trie) == Items(t) - {key.value}
              && r.trie.numItems + 1 == t.numItems
              && r.trie.stateId == t.stateId + 1
              && r.freed == (if dealloc then [Items(t)[key.value]] else [])
              && (exists m :: 0 <= m <= |key.value| && r.trie.nodes.Keys == t.nodes.Keys - Chain(key.value, m))
              && r.trie.nodes.Keys == Prefixes(Items(r.trie).Keys) + {[]}
    ensures r.trie.dirty == t.dirty && r.trie.nextTicket == t.nextTicket
    ensures forall p | p in r.trie.nodes :: p in t.nodes && r.trie.nodes[p].explored == t.nodes[p].explored
  {
    if key.None? then Update(t, -1, [])
    else
      var k := key.value;
      var n := GetNode(t, k);
      if n.None? || t.nodes[n.value].item.None? then Update(t, -1, [])
      else Update(RemoveKey(t, k), 0, if dealloc then [t.nodes[k].item.value] else [])
  }

  /** Clear the item of stored key `k`, then prune the chain above it and bump the revision. */
  function RemoveKey<V>(t: Trie<V>, k: Key): (r: Trie<V>)
    requires Valid(t) && k in Items(t)
    ensures Valid(r) && Items(r) == Items(t) - {k}
    ensures r.numItems + 1 == t.numItems && r.stateId == t.stateId + 1
    ensures exists m :: 0 <= m <= |k| && r.nodes.Keys == t.nodes.Keys - Chain(k, m)
    ensures r.nodes.Keys == Prefixes(Items(r).Keys) + {[]}
    ensures r.dirty == t.dirty && r.nextTicket == t.nextTicket
    ensures forall p | p in r.nodes :: p in t.nodes && r.nodes[p].explored == t.nodes[p].explored
  {
    SubsetCard({k}, Items(t).Keys);
    var t1 := t.(nodes := t.nodes[k := t.nodes[k].(item := None)],
                 memsize := t.memsize - (|k| + 1),
                 numItems := t.numItems - 1);
    ClearItem(t, k, t1);
    var t2 := Prune(t1, k);
    var t3 := t2.(stateId := t2.stateId + 1);
    PrunedValid(t1, t2, t3);
    t3
  }

  /** After pruning, and with the revision bumped, every invariant holds again. */
  lemma PrunedValid<V>(t1: Trie<V>, t2: Trie<V>, t3: Trie<V>)
    requires Linked(t2.nodes) && Pruned(t2.nodes) && Tallied(t2) && Items(t2) == Items(t1)
    requires t1.numItems == |Items(t1)| && t2.numItems == t1.numItems && Leased(t1)
    requires t2.dirty == t1.dirty && t2.nextTicket == t1.nextTicket
    requires forall q | q in t2.nodes :: q in t1.nodes && t2.nodes[q].explored == t1.nodes[q].explored
    requires t3 == t2.(stateId := t2.stateId + 1)
    ensures Valid(t3) && Items(t3) == Items(t1)
    ensures t3.nodes.Keys == Prefixes(Items(t3).Keys) + {[]}
  {
    assert Items(t3) == Items(t2);
    NodesArePrefixes(t3);
  }

  /** Clearing the item leaves a trie that is pruned everywhere but at `k`. */
  lemma ClearItem<V>(t: Trie<V>, k: Key, t1: Trie<V>)
    requires Valid(t) && k in Items(t) && t.numItems >= 1
    requires t1 == t.(nodes := t.nodes[k := t.nodes[k].(item := None)],
                      memsize := t.memsize - (|k| + 1),
                      numItems := t.numItems - 1)
    ensures Linked(t1.nodes) && t1.nodes.Keys == t.nodes.Keys && PrunedExcept(t1.nodes, k) && Tallied(t1)
    ensures Items(t1) == Items(t) - {k} && t1.numItems == |Items(t1)| && Leased(t1)
    ensures forall p | p in t.nodes :: t1.nodes[p].explored == t.nodes[p].explored
  {
    SetShape(t.nodes, k, None, t1.nodes);
    ClearCounts(t, k, t1);
  }

  lemma ClearCounts<V>(t: Trie<V>, k: Key, t1: Trie<V>)
    requires Counted(t) && k in Items(t) && t.numItems >= 1
    requires t1 == t.(nodes := t.nodes[k := t.nodes[k].(item := None)],
                      memsize := t.memsize - (|k| + 1),
                      numItems := t.numItems - 1)
    ensures Tallied(t1) && Items(t1) == Items(t) - {k} && t1.numItems == |Items(t1)|
  {
    ItemsAt(k, None, t, t1);
    KeyBytesRemove(Items(t).Keys, k);
  }
}
