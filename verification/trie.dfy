/**
  The tree manager of the trie: its nodes, the counters kept in the root
  record, and the read-only queries (node lookup, key lookup, longest stored
  prefix, counters).

  A node is identified by its path from the root, so the tree is a map from
  paths to nodes: an arena whose addresses are the paths.  Each node keeps its
  optional item, the edge bytes of its children in sibling-list order (a new
  child is linked in at the head) and the transient `explored` flag used by the
  all-pairs search.  The item's key is the node's own path and its key length
  is the length of that path.
 */
module Tries {
  import opened Wrappers
  import opened Keys

  /** Bytes accounted for the root record and for every other node record. */
  const ROOT_SIZE: nat := 96
  const NODE_SIZE: nat := 56

  datatype Node<V> = Node(item: Option<V>, kids: seq<byte>, explored: bool)

  /**
    The root record: the node arena plus the counters `num_nodes`,
    `num_items`, `memsize`, the revision `state_id`, and the slot naming the
    active dirty iterator.  Iterator identity is a ticket drawn from
    `nextTicket`.
   */
  datatype Trie<V> = Trie(
    nodes: map<Path, Node<V>>,
    numNodes: nat,
    numItems: nat,
    memsize: int,
    stateId: nat,
    dirty: Option<nat>,
    nextTicket: nat)

  /** A stored key with its value, as handed out by lookups. */
  datatype Item<V> = Item(key: Path, value: V)

  /** The abstract dictionary a trie represents. */
  function Items<V>(t: Trie<V>): map<Path, V> {
    map p | p in t.nodes && t.nodes[p].item.Some? :: t.nodes[p].item.value
  }

  /** Sum of `keylen + 1` over a set of keys: the bytes of their NUL-terminated copies. */
  ghost function KeyBytes(s: set<Path>): nat {
    if s == {} then 0 else var k :| k in s; |k| + 1 + KeyBytes(s - {k})
  }

  lemma {:induction false} KeyBytesRemove(s: set<Path>, k: Path)
    requires k in s
    ensures KeyBytes(s) == KeyBytes(s - {k}) + |k| + 1
    decreases |s|
  {
    var x :| x in s && KeyBytes(s) == |x| + 1 + KeyBytes(s - {x});
    if x != k {
      KeyBytesRemove(s - {x}, k);
      KeyBytesRemove(s - {k}, x);
      assert s - {x} - {k} == s - {k} - {x};
    }
  }

  lemma KeyBytesAdd(s: set<Path>, k: Path)
    requires k !in s
    ensures KeyBytes(s + {k}) == KeyBytes(s) + |k| + 1
  {
    KeyBytesRemove(s + {k}, k);
    assert s + {k} - {k} == s;
  }

  /** Every prefix of every key in `keys`, the empty one included. */
  ghost function Prefixes(keys: set<Path>): set<Path> {
    set k, j | k in keys && 0 <= j <= |k| :: k[..j]
  }

  lemma InPrefixes(keys: set<Path>, p: Path)
    ensures p in Prefixes(keys) <==> exists k :: k in keys && p <= k
  {
    if exists k :: k in keys && p <= k {
      var k :| k in keys && p <= k;
      assert p == k[..|p|];
    }
  }

  ghost predicate Distinct(s: seq<byte>) {
    forall i, j :: 0 <= i < j < |s| ==> s[i] != s[j]
  }

  /**
    The links of the tree agree with the paths: the root exists, a node's
    parent exists and lists it among its children, every listed child exists,
    and no two siblings share an edge byte.
   */
  ghost predicate Linked<V>(nodes: map<Path, Node<V>>) {
    && [] in nodes
    && PathsNulFree(nodes)
    && UpLinked(nodes)
    && DownLinked(nodes)
    && SiblingsDistinct(nodes)
  }

  ghost predicate PathsNulFree<V>(nodes: map<Path, Node<V>>) {
    forall p | p in nodes :: NulFree(p)
  }

  ghost predicate UpLinked<V>(nodes: map<Path, Node<V>>) {
    forall p {:trigger Parent(p)} | p in nodes && p != [] ::
      Parent(p) in nodes && Last(p) in nodes[Parent(p)].kids
  }

  ghost predicate DownLinked<V>(nodes: map<Path, Node<V>>) {
    forall p, c {:trigger c in nodes[p].kids} | p in nodes && c in nodes[p].kids :: p + [c] in nodes
  }

  ghost predicate SiblingsDistinct<V>(nodes: map<Path, Node<V>>) {
    forall p | p in nodes :: Distinct(nodes[p].kids)
  }

  /** No node other than the root is retained without an item and without children. */
  ghost predicate Pruned<V>(nodes: map<Path, Node<V>>) {
    forall p | p in nodes && p != [] :: nodes[p].item.Some? || nodes[p].kids != []
  }

  /** The counters of the root record reflect the retained structure exactly. */
  ghost predicate Counted<V>(t: Trie<V>) {
    && t.numNodes + 1 == |t.nodes|
    && t.numItems == |Items(t)|
    && t.memsize == ROOT_SIZE + t.numNodes * NODE_SIZE + KeyBytes(Items(t).Keys)
  }

  ghost predicate NoneExplored<V>(nodes: map<Path, Node<V>>) {
    forall p | p in nodes :: !nodes[p].explored
  }

  /** Explored marks only exist while a dirty iterator holds the slot. */
  ghost predicate Leased<V>(t: Trie<V>) {
    && (t.dirty.None? ==> NoneExplored(t.nodes))
    && (t.dirty.Some? ==> t.dirty.value < t.nextTicket)
  }

  ghost predicate Valid<V>(t: Trie<V>) {
    Linked(t.nodes) && Pruned(t.nodes) && Counted(t) && Leased(t)
  }

  // ---------------------------------------------------------------------
  // Structural facts

  /** Two arenas with the same paths and the same child lists. */
  ghost predicate SameShape<V>(nodes: map<Path, Node<V>>, nodes': map<Path, Node<V>>) {
    nodes'.Keys == nodes.Keys && forall p | p in nodes :: nodes'[p].kids == nodes[p].kids
  }

  /** Changing items or flags, and nothing else, keeps the links intact. */
  lemma SameShapeLinked<V>(nodes: map<Path, Node<V>>, nodes': map<Path, Node<V>>)
    requires Linked(nodes) && SameShape(nodes, nodes')
    ensures Linked(nodes')
  {
    forall p | p in nodes' && p != [] ensures Parent(p) in nodes' && Last(p) in nodes'[Parent(p)].kids {
      assert Parent(p) in nodes && Last(p) in nodes[Parent(p)].kids;
    }
    forall p, c | p in nodes' && c in nodes'[p].kids ensures p + [c] in nodes' {
      assert c in nodes[p].kids;
    }
  }

  lemma {:induction false} PrefixClosed<V>(nodes: map<Path, Node<V>>, p: Path, j: nat)
    requires Linked(nodes) && p in nodes && j <= |p|
    ensures p[..j] in nodes
    decreases |p|
  {
    if j == |p| {
      assert p[..j] == p;
    } else {
      PrefixClosed(nodes, Parent(p), j);
      assert Parent(p)[..j] == p[..j];
    }
  }

  /** A child path exists exactly when its edge byte is listed by the parent. */
  lemma ChildIffKid<V>(nodes: map<Path, Node<V>>, p: Path, c: byte)
    requires Linked(nodes) && p in nodes
    ensures p + [c] in nodes <==> c in nodes[p].kids
  {
    if p + [c] in nodes {
      assert Parent(p + [c]) == p && Last(p + [c]) == c;
    }
  }

  ghost function Below<V>(nodes: map<Path, Node<V>>, p: Path): set<Path> {
    set q | q in nodes && p <= q
  }

  lemma SubsetCard<T>(a: set<T>, b: set<T>)
    requires a <= b
    ensures |a| <= |b|
  {
    assert b == a + (b - a);
  }

  /** Two tries whose nodes carry the same items, new and vanished nodes being bare, hold the same dictionary. */
  lemma ItemsAgree<V>(t: Trie<V>, u: Trie<V>)
    requires forall p | p in u.nodes && p !in t.nodes :: u.nodes[p].item.None?
    requires forall p | p in t.nodes && p !in u.nodes :: t.nodes[p].item.None?
    requires forall p | p in t.nodes && p in u.nodes :: u.nodes[p].item == t.nodes[p].item
    ensures Items(u) == Items(t)
  {
  }

  /** Setting or clearing the item of one existing node changes the dictionary at that key only. */
  lemma ItemsAt<V>(k: Path, x: Option<V>, t: Trie<V>, u: Trie<V>)
    requires k in t.nodes && u.nodes == t.nodes[k := t.nodes[k].(item := x)]
    ensures x.Some? ==> Items(u) == Items(t)[k := x.value]
    ensures x.None? ==> Items(u) == Items(t) - {k}
    ensures x.Some? ==> Items(u).Keys == Items(t).Keys + {k}
    ensures x.None? ==> Items(u).Keys == Items(t).Keys - {k}
  {
  }

  /** In a pruned tree every non-root node lies on the path of some stored key. */
  lemma {:induction false} StoredBelow<V>(t: Trie<V>, p: Path)
    requires Linked(t.nodes) && Pruned(t.nodes) && p in t.nodes && p != []
    ensures exists k :: k in Items(t) && p <= k
    decreases |Below(t.nodes, p)|
  {
    if t.nodes[p].item.Some? {
      assert p in Items(t);
    } else {
      var c := t.nodes[p].kids[0];
      var q := p + [c];
      assert c in t.nodes[p].kids;
      assert q in t.nodes;
      assert Below(t.nodes, q) <= Below(t.nodes, p) - {p} by {
        forall r | r in Below(t.nodes, q) ensures r in Below(t.nodes, p) - {p} {
          assert p <= q <= r;
        }
      }
      SubsetCard(Below(t.nodes, q), Below(t.nodes, p) - {p});
      StoredBelow(t, q);
      var k :| k in Items(t) && q <= k;
      assert p <= k;
    }
  }

  /**
    The retained nodes are exactly the root and the prefixes of the stored
    keys: insertion builds no more and deletion leaves no less.
   */
  lemma NodesArePrefixes<V>(t: Trie<V>)
    requires Valid(t)
    ensures t.nodes.Keys == Prefixes(Items(t).Keys) + {[]}
  {
    forall p | p in t.nodes ensures p in Prefixes(Items(t).Keys) + {[]} {
      if p != [] {
        StoredBelow(t, p);
        var k :| k in Items(t) && p <= k;
        assert k[..|p|] == p;
      }
    }
    forall p | p in Prefixes(Items(t).Keys) ensures p in t.nodes {
      var k, j :| k in Items(t) && 0 <= j <= |k| && p == k[..j];
      PrefixClosed(t.nodes, k, j);
    }
  }

  // ---------------------------------------------------------------------
  // Creation

  /** `trie_new`: an empty dictionary whose memory is the root record alone. */
  function New<V>(): (t: Trie<V>)
    ensures Valid(t)
    ensures Items(t) == map[] && t.nodes.Keys == {[]}
    ensures t.numNodes == 0 && t.numItems == 0 && t.memsize == ROOT_SIZE
    ensures t.stateId == 0 && t.dirty == None
  {
    var t := Trie(map[[] := Node(None, [], false)], 0, 0, ROOT_SIZE, 0, None, 0);
    assert Items(t).Keys == {};
    t
  }

  // ---------------------------------------------------------------------
  // Walking a key

  /** `trienode_get_child`: the child of `p` reached over edge byte `c`, if listed. */
  function GetChild<V>(t: Trie<V>, p: Path, c: byte): Option<Path> {
    if p in t.nodes && c in t.nodes[p].kids then Some(p + [c]) else None
  }

  function Walk<V>(t: Trie<V>, p: Path, rest: Path): Option<Path>
    decreases |rest|
  {
    if rest == [] then Some(p)
    else match GetChild(t, p, rest[0])
      case None => None
      case Some(q) => Walk(t, q, rest[1..])
  }

  lemma {:induction false} WalkFinds<V>(t: Trie<V>, p: Path, rest: Path)
    requires Linked(t.nodes) && p in t.nodes
    ensures Walk(t, p, rest) == if p + rest in t.nodes then Some(p + rest) else None
    decreases |rest|
  {
    if rest == [] {
      assert p + rest == p;
    } else {
      var q := p + [rest[0]];
      assert p + rest == q + rest[1..];
      ChildIffKid(t.nodes, p, rest[0]);
      if q in t.nodes {
        WalkFinds(t, q, rest[1..]);
      } else if p + rest in t.nodes {
        assert (p + rest)[..|q|] == q;
        PrefixClosed(t.nodes, p + rest, |q|);
      }
    }
  }

  /** `trie_get_node`: walking the key from the root reaches exactly the node for that key. */
  function GetNode<V>(t: Trie<V>, key: Key): (r: Option<Path>)
    requires Valid(t)
    ensures r.Some? <==> key in t.nodes
    ensures r.Some? ==> r.value == key
  {
    WalkFinds(t, [], key);
    assert [] + key == key;
    Walk(t, [], key)
  }

  /** `trie_has_node`: true exactly for prefixes of stored keys, and always for the empty key. */
  function HasNode<V>(t: Trie<V>, key: Key): (r: bool)
    requires Valid(t)
    ensures r <==> key in t.nodes
    ensures r <==> key == [] || exists k :: k in Items(t) && key <= k
  {
    NodesArePrefixes(t);
    InPrefixes(Items(t).Keys, key);
    GetNode(t, key).Some?
  }

  /** `trie_has_key`: true exactly for stored keys, never for a bare prefix node. */
  function HasKey<V>(t: Trie<V>, key: Key): (r: bool)
    requires Valid(t)
    ensures r <==> key in Items(t)
  {
    var n := GetNode(t, key);
    n.Some? && t.nodes[n.value].item.Some?
  }

  /** `trie_get_item`: the stored item for `key`, or none for absent and bare prefix nodes. */
  function GetItem<V>(t: Trie<V>, key: Key): (r: Option<Item<V>>)
    requires Valid(t)
    ensures r.Some? <==> key in Items(t)
    ensures r.Some? ==> r.value == Item(key, Items(t)[key])
  {
    var n := GetNode(t, key);
    if n.None? || t.nodes[n.value].item.None? then None
    else Some(Item(key, t.nodes[n.value].item.value))
  }

  // ---------------------------------------------------------------------
  // Longest prefix

  /** `r` names the longest stored key that is a prefix of `key`, or none when there is none. */
  ghost predicate IsLongestPrefix<V>(t: Trie<V>, key: Path, r: Option<Path>) {
    && (r.None? ==> forall k | k in Items(t) :: !(k <= key))
    && (r.Some? ==> r.value in Items(t) && r.value <= key
                    && forall k | k in Items(t) && k <= key :: |k| <= |r.value|)
  }

  function LongestFrom<V>(t: Trie<V>, p: Path, rest: Path, res: Option<Path>): Option<Path>
    decreases |rest|
  {
    if rest == [] then res
    else match GetChild(t, p, rest[0])
      case None => res
      case Some(q) => LongestFrom(t, q, rest[1..], if q in t.nodes && t.nodes[q].item.Some? then Some(q) else res)
  }

  lemma {:induction false} LongestFromCorrect<V>(t: Trie<V>, p: Path, rest: Path, res: Option<Path>)
    requires Linked(t.nodes) && p in t.nodes
    requires IsLongestPrefix(t, p, res)
    ensures IsLongestPrefix(t, p + rest, LongestFrom(t, p, rest, res))
    decreases |rest|
  {
    var key := p + rest;
    if rest == [] {
      assert key == p;
    } else {
      var q := p + [rest[0]];
      assert key == q + rest[1..];
      ChildIffKid(t.nodes, p, rest[0]);
      if q in t.nodes {
        var res' := if q in t.nodes && t.nodes[q].item.Some? then Some(q) else res;
        forall k | k in Items(t) && k <= q ensures k <= p || k == q {
          if |k| <= |p| { assert k == q[..|k|] && p == q[..|p|]; } else { assert |k| == |q|; }
        }
        assert IsLongestPrefix(t, q, res');
        LongestFromCorrect(t, q, rest[1..], res');
      } else {
        forall k | k in Items(t) && k <= key ensures k <= p {
          if |k| > |p| {
            assert k[..|q|] == key[..|q|] == q;
            PrefixClosed(t.nodes, k, |q|);
          } else {
            assert k == key[..|k|] && p == key[..|p|];
          }
        }
        forall k | k in Items(t) && k <= p ensures k <= key { }
      }
    }
  }

  /** `trie_longest_prefix`: the longest stored key that is a prefix of `key`, the root's empty key included. */
  function LongestPrefix<V>(t: Trie<V>, key: Key): (r: Option<Item<V>>)
    requires Valid(t)
    ensures r.None? <==> forall k | k in Items(t) :: !(k <= key)
    ensures r.Some? ==> r.value.key in Items(t) && r.value.key <= key
                        && r.value.value == Items(t)[r.value.key]
    ensures r.Some? ==> forall k | k in Items(t) && k <= key :: |k| <= |r.value.key|
  {
    var start := if t.nodes[[]].item.Some? then Some([]) else None;
    assert IsLongestPrefix(t, [], start) by {
      forall k | k in Items(t) && k <= [] ensures k == [] { }
    }
    LongestFromCorrect(t, [], key, start);
    assert [] + key == key;
    var n := LongestFrom(t, [], key, start);
    if n.None? then None else Some(Item(n.value, Items(t)[n.value]))
  }

  // ---------------------------------------------------------------------
  // Counters

  /** `trie_num_nodes`: the number of distinct non-empty prefixes of the stored keys. */
  function NumNodes<V>(t: Trie<V>): (r: nat)
    requires Valid(t)
    ensures r == |Prefixes(Items(t).Keys) - {[]}|
  {
    NodesArePrefixes(t);
    assert Prefixes(Items(t).Keys) - {[]} == t.nodes.Keys - {[]};
    t.numNodes
  }

  /** `trie_num_items`: the number of stored keys. */
  function NumItems<V>(t: Trie<V>): (r: nat)
    requires Valid(t)
    ensures r == |Items(t)|
  {
    t.numItems
  }

  /** `trie_mem_usage`: root record, one node record per non-root node, and each key's NUL-terminated copy. */
  function MemUsage<V>(t: Trie<V>): (r: int)
    requires Valid(t)
    ensures r == ROOT_SIZE + NODE_SIZE * |Prefixes(Items(t).Keys) - {[]}| + KeyBytes(Items(t).Keys)
  {
    var n := NumNodes(t);
    t.memsize
  }
}
