/**
  The all-pairs search (`trieiter_hammingpairs`): every unordered pair of
  distinct stored keys of one given length whose Hamming distance is at most
  `maxhd`, each pair reported once.  The stored keys of that length are
  collected first; each in turn becomes the query of a budgeted walk from the
  root.  The walk marks what it has finished with, so a later query never
  revisits a key that was already a query: this search is the dirty one.
 */
module PairSearch {
  import opened Wrappers
  import opened Keys
  import opened Tries
  import opened TrieIters
  import N = NeighborSearch

  /** `p` holds an item. */
  ghost predicate Stored<V>(nodes: map<Path, Node<V>>, p: Path) {
    p in nodes && nodes[p].item.Some?
  }

  ghost predicate DistinctPaths(s: seq<Path>) {
    forall i, j | 0 <= i < j < |s| :: s[i] != s[j]
  }

  // ---------------------------------------------------------------------
  // Collecting the keys of one length

  /**
    `trie_find_all_strings`: the stored keys exactly `d` bytes below `p`,
    collected depth first with children in sibling order.
   */
  function FindAll<V>(nodes: map<Path, Node<V>>, p: Path, d: nat): (r: seq<Path>)
    requires Linked(nodes) && p in nodes
    ensures forall i | 0 <= i < |r| :: Stored(nodes, r[i]) && |r[i]| == |p| + d && p <= r[i]
    ensures forall k | Stored(nodes, k) && |k| == |p| + d && p <= k :: k in r
    decreases d, 1, 0
  {
    if d == 0 then
      assert forall k | p <= k && |k| == |p| :: k == p;
      if nodes[p].item.Some? then [p] else []
    else
      var r := FindKids(nodes, p, nodes[p].kids, d - 1);
      forall k | Stored(nodes, k) && |k| == |p| + d && p <= k ensures k in r {
        PrefixClosed(nodes, k, |p| + 1);
        PrefixExtend(p, k);
        assert k[..|p| + 1] == p + [k[|p|]];
        assert Parent(p + [k[|p|]]) == p;
      }
      r
  }

  /** The keys `d + 1` bytes below `p` that lie under the children over `ks`. */
  function FindKids<V>(nodes: map<Path, Node<V>>, p: Path, ks: seq<byte>, d: nat): (r: seq<Path>)
    requires Linked(nodes) && p in nodes
    requires forall i | 0 <= i < |ks| :: ks[i] in nodes[p].kids
    ensures forall i | 0 <= i < |r| ::
              Stored(nodes, r[i]) && |r[i]| == |p| + 1 + d && p <= r[i] && r[i][|p|] in ks
    ensures forall k | Stored(nodes, k) && |k| == |p| + 1 + d && p <= k && k[|p|] in ks :: k in r
    decreases d + 1, 0, |ks|
  {
    if ks == [] then []
    else
      assert ks[0] in nodes[p].kids;
      var c := p + [ks[0]];
      var here := FindAll(nodes, c, d);
      var rest := FindKids(nodes, p, ks[1..], d);
      forall i | 0 <= i < |here| ensures here[i][|p|] == ks[0] {
        PrefixAt(c, here[i], |p|);
      }
      forall k | Stored(nodes, k) && |k| == |p| + 1 + d && p <= k && k[|p|] in ks
        ensures k in here + rest
      {
        if k[|p|] == ks[0] {
          PrefixExtend(p, k);
        } else {
          assert k[|p|] in ks[1..];
        }
      }
      here + rest
  }

  lemma SamePrefix(p: Path, k: Path)
    requires p <= k && |p| == |k|
    ensures p == k
  {
    assert k[..|p|] == k;
  }

  lemma PrefixAt(c: Path, x: Path, i: nat)
    requires c <= x && i < |c|
    ensures x[i] == c[i]
  {
  }

  lemma PrefixExtend(p: Path, k: Path)
    requires p <= k && |p| < |k|
    ensures p + [k[|p|]] <= k
  {
    assert k[..|p| + 1] == k[..|p|] + [k[|p|]];
  }

  lemma DistinctJoin(a: seq<Path>, b: seq<Path>)
    requires DistinctPaths(a) && DistinctPaths(b)
    requires forall i, j | 0 <= i < |a| && 0 <= j < |b| :: a[i] != b[j]
    ensures DistinctPaths(a + b)
  {
    var r := a + b;
    forall i, j | 0 <= i < j < |r| ensures r[i] != r[j] {
      if j < |a| {
        assert r[i] == a[i] && r[j] == a[j];
      } else if i >= |a| {
        assert r[i] == b[i - |a|] && r[j] == b[j - |a|];
      } else {
        assert r[i] == a[i] && r[j] == b[j - |a|];
      }
    }
  }

  /** Under distinct sibling bytes no key is collected twice. */
  lemma {:induction false} FindAllDistinct<V>(nodes: map<Path, Node<V>>, p: Path, d: nat)
    requires Linked(nodes) && p in nodes
    ensures DistinctPaths(FindAll(nodes, p, d))
    decreases d, 1, 0
  {
    if d > 0 {
      FindKidsDistinct(nodes, p, nodes[p].kids, d - 1);
    }
  }

  lemma {:induction false} FindKidsDistinct<V>(nodes: map<Path, Node<V>>, p: Path, ks: seq<byte>, d: nat)
    requires Linked(nodes) && p in nodes
    requires forall i | 0 <= i < |ks| :: ks[i] in nodes[p].kids
    requires Distinct(ks)
    ensures DistinctPaths(FindKids(nodes, p, ks, d))
    decreases d + 1, 0, |ks|
  {
    if ks != [] {
      assert ks[0] in nodes[p].kids;
      var c := p + [ks[0]];
      var here := FindAll(nodes, c, d);
      var rest := FindKids(nodes, p, ks[1..], d);
      assert Distinct(ks[1..]) && ks[0] !in ks[1..];
      FindAllDistinct(nodes, c, d);
      FindKidsDistinct(nodes, p, ks[1..], d);
      forall i, j | 0 <= i < |here| && 0 <= j < |rest| ensures here[i] != rest[j] {
        PrefixAt(c, here[i], |p|);
        assert rest[j][|p|] in ks[1..];
      }
      DistinctJoin(here, rest);
    }
  }

  // ---------------------------------------------------------------------
  // What is still to be reported

  /** The hits a saved state stands for: queued keys below its node within the budget. */
  ghost function Hits(queue: seq<Path>, maxhd: int, f: Frame): set<SearchResult> {
    set q | q in queue && |q| == |f.query| && f.node <= q && Hamming(q, f.query) <= maxhd
      :: SearchResult(f.query, q, Hamming(q, f.query))
  }

  lemma HitsMember(queue: seq<Path>, maxhd: int, f: Frame, r: SearchResult)
    ensures r in Hits(queue, maxhd, f) <==>
              && r.query == f.query && r.target in queue && |r.target| == |f.query|
              && f.node <= r.target && Hamming(r.target, f.query) <= maxhd
              && r.hd == Hamming(r.target, f.query)
  {
  }

  ghost function FramePending(queue: seq<Path>, maxhd: int, frames: seq<Frame>): set<SearchResult>
    decreases |frames|
  {
    if frames == [] then {} else FramePending(queue, maxhd, Pop(frames)) + Hits(queue, maxhd, Top(frames))
  }

  /** The state a query's walk starts from: the root, nothing spent. */
  function Root(query: Path): Frame {
    Frame([], query, 0, 0)
  }

  /**
    The pairs the queued queries still owe: each query, when taken up, is
    paired with the keys queued before it.
   */
  ghost function QueuePending(queue: seq<Path>, maxhd: int): set<SearchResult>
    decreases |queue|
  {
    if queue == [] then {}
    else
      var rest := queue[..|queue| - 1];
      QueuePending(rest, maxhd) + Hits(rest, maxhd, Root(queue[|queue| - 1]))
  }

  ghost function Pending(it: Iter): set<SearchResult> {
    FramePending(it.queue, it.maxhd, it.frames) + QueuePending(it.queue, it.maxhd)
  }

  lemma {:induction false} FramePendingAppend(queue: seq<Path>, maxhd: int, a: seq<Frame>, b: seq<Frame>)
    ensures FramePending(queue, maxhd, a + b) == FramePending(queue, maxhd, a) + FramePending(queue, maxhd, b)
    decreases |b|
  {
    if b == [] {
      assert a + b == a;
    } else {
      assert Pop(a + b) == a + Pop(b);
      assert Top(a + b) == Top(b);
      FramePendingAppend(queue, maxhd, a, Pop(b));
    }
  }

  lemma {:induction false} FramePendingMember(queue: seq<Path>, maxhd: int, frames: seq<Frame>, r: SearchResult)
    ensures r in FramePending(queue, maxhd, frames) <==>
              exists i | 0 <= i < |frames| :: r in Hits(queue, maxhd, frames[i])
    decreases |frames|
  {
    if frames != [] {
      FramePendingMember(queue, maxhd, Pop(frames), r);
      if r in Hits(queue, maxhd, Top(frames)) {
        assert r in Hits(queue, maxhd, frames[|frames| - 1]);
      }
    }
  }

  /** A queued pair: a later query with an earlier key, within the budget. */
  ghost predicate QueuedPair(queue: seq<Path>, maxhd: int, r: SearchResult) {
    exists i, j | 0 <= j < i < |queue| ::
      && |queue[j]| == |queue[i]| && Hamming(queue[j], queue[i]) <= maxhd
      && r == SearchResult(queue[i], queue[j], Hamming(queue[j], queue[i]))
  }

  lemma QueuePendingMember(queue: seq<Path>, maxhd: int, r: SearchResult)
    ensures r in QueuePending(queue, maxhd) <==> QueuedPair(queue, maxhd, r)
  {
    if r in QueuePending(queue, maxhd) {
      QueuePendingSound(queue, maxhd, r);
    }
    if QueuedPair(queue, maxhd, r) {
      QueuePendingComplete(queue, maxhd, r);
    }
  }

  lemma {:induction false} QueuePendingSound(queue: seq<Path>, maxhd: int, r: SearchResult)
    requires r in QueuePending(queue, maxhd)
    ensures QueuedPair(queue, maxhd, r)
    decreases |queue|
  {
    var n := |queue| - 1;
    var rest := queue[..n];
    if r in QueuePending(rest, maxhd) {
      QueuePendingSound(rest, maxhd, r);
      var i, j :| 0 <= j < i < |rest| && |rest[j]| == |rest[i]| && Hamming(rest[j], rest[i]) <= maxhd
                  && r == SearchResult(rest[i], rest[j], Hamming(rest[j], rest[i]));
      assert rest[i] == queue[i] && rest[j] == queue[j];
    } else {
      HitsMember(rest, maxhd, Root(queue[n]), r);
      var j :| 0 <= j < |rest| && rest[j] == r.target;
      assert queue[j] == r.target;
    }
  }

  lemma QueuePendingComplete(queue: seq<Path>, maxhd: int, r: SearchResult)
    requires QueuedPair(queue, maxhd, r)
    ensures r in QueuePending(queue, maxhd)
  {
    var i, j :| 0 <= j < i < |queue| && |queue[j]| == |queue[i]| && Hamming(queue[j], queue[i]) <= maxhd
                && r == SearchResult(queue[i], queue[j], Hamming(queue[j], queue[i]));
    QueuePendingHas(queue, maxhd, i, j);
  }

  /** The pair of the `i`-th query with an earlier `j`-th key is pending. */
  lemma {:induction false} QueuePendingHas(queue: seq<Path>, maxhd: int, i: int, j: int)
    requires 0 <= j < i < |queue| && |queue[j]| == |queue[i]| && Hamming(queue[j], queue[i]) <= maxhd
    ensures SearchResult(queue[i], queue[j], Hamming(queue[j], queue[i])) in QueuePending(queue, maxhd)
    decreases |queue|
  {
    var n := |queue| - 1;
    var rest := queue[..n];
    assert QueuePending(queue, maxhd) == QueuePending(rest, maxhd) + Hits(rest, maxhd, Root(queue[n]));
    assert rest[j] == queue[j];
    if i < n {
      assert rest[i] == queue[i];
      QueuePendingHas(rest, maxhd, i, j);
    } else {
      assert Root(queue[n]).node <= queue[j];
      HitsMember(rest, maxhd, Root(queue[n]), SearchResult(queue[i], queue[j], Hamming(queue[j], queue[i])));
    }
  }

  /**
    Over a queue without repeats, a pair of queued keys is owed in exactly one
    orientation when the keys differ and lie within the budget, and in none
    otherwise: every unordered pair is reported once.
   */
  lemma PairOwedOnce(queue: seq<Path>, maxhd: int, a: Path, b: Path)
    requires DistinctPaths(queue) && a in queue && b in queue && |a| == |b|
    ensures var ab := SearchResult(a, b, Hamming(b, a));
            var ba := SearchResult(b, a, Hamming(a, b));
            && (ab in QueuePending(queue, maxhd) || ba in QueuePending(queue, maxhd) <==>
                  a != b && Hamming(a, b) <= maxhd)
            && !(ab in QueuePending(queue, maxhd) && ba in QueuePending(queue, maxhd))
  {
    var ab := SearchResult(a, b, Hamming(b, a));
    var ba := SearchResult(b, a, Hamming(a, b));
    QueuePendingMember(queue, maxhd, ab);
    QueuePendingMember(queue, maxhd, ba);
    HammingSymmetric(a, b);
    var ia :| 0 <= ia < |queue| && queue[ia] == a;
    var ib :| 0 <= ib < |queue| && queue[ib] == b;
    if a != b && Hamming(a, b) <= maxhd {
      if ib < ia {
        assert QueuedPair(queue, maxhd, ab);
      } else {
        assert ia != ib;
        assert QueuedPair(queue, maxhd, ba);
      }
    }
    if QueuedPair(queue, maxhd, ab) {
      var i, j :| 0 <= j < i < |queue| && |queue[j]| == |queue[i]| && Hamming(queue[j], queue[i]) <= maxhd
                  && ab == SearchResult(queue[i], queue[j], Hamming(queue[j], queue[i]));
      assert i == ia && j == ib;
    }
    if QueuedPair(queue, maxhd, ba) {
      var i, j :| 0 <= j < i < |queue| && |queue[j]| == |queue[i]| && Hamming(queue[j], queue[i]) <= maxhd
                  && ba == SearchResult(queue[i], queue[j], Hamming(queue[j], queue[i]));
      assert i == ib && j == ia;
    }
  }

  // ---------------------------------------------------------------------
  // The iterator's invariant and its creation

  /** The queue holds stored keys of the search's length, none twice. */
  ghost predicate QueueOk<V>(nodes: map<Path, Node<V>>, queue: seq<Path>, len: int) {
    && DistinctPaths(queue)
    && forall i | 0 <= i < |queue| :: Stored(nodes, queue[i]) && |queue[i]| == len
  }

  /**
    What the explored marks mean: a key of the search's length that is no
    longer queued has been a query, and no explored node has a queued key at
    or below it, so skipping explored nodes loses nothing still owed.
   */
  ghost predicate MarksOk<V>(nodes: map<Path, Node<V>>, queue: seq<Path>, len: int) {
    && (forall k | Stored(nodes, k) && |k| == len && k !in queue :: nodes[k].explored)
    && (forall p, i | p in nodes && nodes[p].explored && 0 <= i < |queue| :: !(p <= queue[i]))
  }

  /** A saved state of the current query's walk; only the root state may sit on an explored node. */
  ghost predicate FrameOk<V>(nodes: map<Path, Node<V>>, it: Iter, f: Frame) {
    && N.FrameOk(f, it.targetDepth, it.maxhd) && f.query !in it.queue && f.node in nodes
    && (f.depth > 0 ==> !nodes[f.node].explored)
  }

  ghost predicate Inv<V>(t: Trie<V>, it: Iter) {
    && it.policy == PairWalk && HoldsSlot(t, it) && it.targetDepth >= 1 && it.maxhd >= 0
    && Linked(t.nodes) && Antichain(it.frames) && FramesIn(t.nodes, it.frames)
    && QueueOk(t.nodes, it.queue, it.targetDepth) && MarksOk(t.nodes, it.queue, it.targetDepth)
    && forall i | 0 <= i < |it.frames| :: FrameOk(t.nodes, it, it.frames[i])
  }

  /**
    `trieiter_hammingpairs`: no iterator for a non-positive key length or a
    negative budget.  Otherwise the stored keys of that length become the
    queue of a dirty iterator with no saved state, and the marks start clear.
   */
  function Open<V>(t: Trie<V>, keylen: int, maxhd: int): (r: Opened<V>)
    requires Valid(t)
    ensures r.iter.None? <==> keylen <= 0 || maxhd < 0
    ensures r.iter.None? ==> r.trie == t
    ensures Valid(r.trie) && MarksOnly(t, r.trie.(nextTicket := t.nextTicket, dirty := t.dirty))
    ensures r.iter.Some? ==>
              var it := r.iter.value;
              && Inv(r.trie, it) && it.frames == [] && it.stateId == t.stateId && it.errcode == E_SUCCESS
              && it.targetDepth == keylen && it.lenQuery == keylen && it.maxhd == maxhd
              && it.ticket == t.nextTicket && r.trie.nextTicket == t.nextTicket + 1
              && NoneExplored(r.trie.nodes)
              && (forall k :: k in it.queue <==> k in Items(t) && |k| == keylen)
  {
    if keylen <= 0 then Opened(t, None)
    else
      var targets := FindAll(t.nodes, [], keylen);
      FindAllDistinct(t.nodes, [], keylen);
      var r := NewIter(t, PairWalk, maxhd, keylen, keylen, targets, true);
      if r.iter.Some? then
        OpenInv(t, r.trie, r.iter.value, targets);
        r
      else r
  }

  lemma OpenInv<V>(t: Trie<V>, u: Trie<V>, it: Iter, targets: seq<Path>)
    requires Linked(t.nodes) && it.targetDepth >= 1 && targets == FindAll(t.nodes, [], it.targetDepth)
    requires DistinctPaths(targets) && it.queue == targets && it.frames == [] && it.maxhd >= 0
    requires it.policy == PairWalk && HoldsSlot(u, it)
    requires MarksOnly(t, u.(nextTicket := t.nextTicket, dirty := t.dirty)) && NoneExplored(u.nodes)
    ensures Inv(u, it)
    ensures forall k :: k in it.queue <==> k in Items(t) && |k| == it.targetDepth
  {
    var L := it.targetDepth;
    SameShapeLinked(t.nodes, u.nodes);
    assert forall p | p in t.nodes :: Stored(u.nodes, p) == Stored(t.nodes, p);
    forall k | Stored(u.nodes, k) && |k| == L ensures k in targets {
      assert Stored(t.nodes, k) && [] <= k;
    }
  }

  // ---------------------------------------------------------------------
  // One visit

  lemma KidsIn<V>(nodes: map<Path, Node<V>>, p: Path)
    requires Linked(nodes) && p in nodes
    ensures forall i | 0 <= i < |nodes[p].kids| :: p + [nodes[p].kids[i]] in nodes
  {
    forall i | 0 <= i < |nodes[p].kids| ensures p + [nodes[p].kids[i]] in nodes {
      assert nodes[p].kids[i] in nodes[p].kids;
    }
  }

  /** `n_explored`: how many of the children over `ks` are explored. */
  function CountExplored<V>(nodes: map<Path, Node<V>>, p: Path, ks: seq<byte>): (n: nat)
    requires forall i | 0 <= i < |ks| :: p + [ks[i]] in nodes
    ensures n <= |ks|
    ensures n == |ks| <==> forall i | 0 <= i < |ks| :: nodes[p + [ks[i]]].explored
  {
    if ks == [] then 0
    else
      assert forall j | 1 <= j < |ks| :: ks[j] == ks[1..][j - 1];
      (if nodes[p + [ks[0]]].explored then 1 else 0) + CountExplored(nodes, p, ks[1..])
  }

  /**
    The states pushed for the children of `f`'s node, in sibling order:
    explored children are skipped; a child over the query's byte keeps the
    distance, any other costs one and is pushed only below the budget.
   */
  function Children<V>(nodes: map<Path, Node<V>>, f: Frame, maxhd: int, kids: seq<byte>): (r: seq<Frame>)
    requires 0 <= f.depth < |f.query|
    requires forall i | 0 <= i < |kids| :: f.node + [kids[i]] in nodes
    ensures forall i | 0 <= i < |r| ::
              && r[i].node != [] && Last(r[i].node) in kids && r[i] == N.Child(f, Last(r[i].node))
              && r[i].node in nodes && !nodes[r[i].node].explored
              && (Last(r[i].node) == f.query[f.depth] || f.hd < maxhd)
    ensures forall j | 0 <= j < |kids| ::
              ((!nodes[f.node + [kids[j]]].explored && (kids[j] == f.query[f.depth] || f.hd < maxhd))
                <==> N.Child(f, kids[j]) in r)
  {
    if kids == [] then []
    else
      var c := N.Child(f, kids[0]);
      var rest := Children(nodes, f, maxhd, kids[1..]);
      assert forall j | 1 <= j < |kids| :: kids[j] == kids[1..][j - 1];
      assert Last(c.node) == kids[0];
      (if !nodes[c.node].explored && (kids[0] == f.query[f.depth] || f.hd < maxhd) then [c] else []) + rest
  }

  lemma {:induction false} ChildrenDistinct<V>(nodes: map<Path, Node<V>>, f: Frame, maxhd: int, kids: seq<byte>)
    requires 0 <= f.depth < |f.query| && Distinct(kids)
    requires forall i | 0 <= i < |kids| :: f.node + [kids[i]] in nodes
    ensures N.DistinctNodes(Children(nodes, f, maxhd, kids))
  {
    if kids != [] {
      assert Distinct(kids[1..]) && kids[0] !in kids[1..];
      assert forall j | 1 <= j < |kids| :: kids[j] == kids[1..][j - 1];
      ChildrenDistinct(nodes, f, maxhd, kids[1..]);
      var rest := Children(nodes, f, maxhd, kids[1..]);
      var c := N.Child(f, kids[0]);
      var pre := if !nodes[c.node].explored && (kids[0] == f.query[f.depth] || f.hd < maxhd) then [c] else [];
      assert Children(nodes, f, maxhd, kids) == pre + rest;
      forall i, j | 0 <= i < |pre| && 0 <= j < |rest| ensures pre[i].node != rest[j].node {
        assert Last(rest[j].node) in kids[1..];
        assert Last(pre[i].node) == kids[0];
      }
      N.NodesJoin(pre, rest);
    }
  }

  /**
    The top state can be visited: its node and that node's children are in
    the trie, and a state above the target depth lies above the query's end.
   */
  ghost predicate Visitable<V>(t: Trie<V>, it: Iter) {
    && it.frames != [] && Top(it.frames).node in t.nodes
    && (forall i | 0 <= i < |t.nodes[Top(it.frames).node].kids| ::
          Top(it.frames).node + [t.nodes[Top(it.frames).node].kids[i]] in t.nodes)
    && (Top(it.frames).depth != it.targetDepth ==> 0 <= Top(it.frames).depth < |Top(it.frames).query|)
  }

  lemma InvVisitable<V>(t: Trie<V>, it: Iter)
    requires Inv(t, it) && it.frames != []
    ensures Visitable(t, it)
  {
    assert FrameOk(t.nodes, it, it.frames[|it.frames| - 1]);
    KidsIn(t.nodes, Top(it.frames).node);
  }

  /** The stack after visiting the top state: popped, with its children pushed above the target depth. */
  function Advance<V>(t: Trie<V>, it: Iter): seq<Frame>
    requires Visitable(t, it)
  {
    var f := Top(it.frames);
    if f.depth == it.targetDepth then Pop(it.frames)
    else Pop(it.frames) + Children(t.nodes, f, it.maxhd, t.nodes[f.node].kids)
  }

  /**
    The marks after visiting the top state: a node at the target depth
    without an item, or a node all of whose children are explored, is
    marked explored.
   */
  function Visit<V>(t: Trie<V>, it: Iter): (r: Trie<V>)
    requires Visitable(t, it)
    ensures MarksOnly(t, r)
  {
    var f := Top(it.frames);
    var kids := t.nodes[f.node].kids;
    if f.depth == it.targetDepth then
      if t.nodes[f.node].item.None? then Mark(t, f.node) else t
    else if CountExplored(t.nodes, f.node, kids) == |kids| then Mark(t, f.node)
    else t
  }

  /** The hit the top state reports itself: a stored key at the target depth. */
  ghost function Own<V>(t: Trie<V>, it: Iter): set<SearchResult>
    requires it.frames != [] && Top(it.frames).node in t.nodes
  {
    var f := Top(it.frames);
    if f.depth == it.targetDepth && t.nodes[f.node].item.Some?
    then {SearchResult(f.query, f.node, f.hd)} else {}
  }

  lemma TakePending(it: Iter)
    requires it.frames == [] && it.queue != []
    ensures var q := it.queue[|it.queue| - 1];
            Pending(it.(frames := [Root(q)], queue := it.queue[..|it.queue| - 1])) == Pending(it)
  {
    var q := it.queue[|it.queue| - 1];
    var rest := it.queue[..|it.queue| - 1];
    assert Pop([Root(q)]) == [] && Top([Root(q)]) == Root(q);
    assert FramePending(rest, it.maxhd, [Root(q)]) == Hits(rest, it.maxhd, Root(q));
    assert QueuePending(it.queue, it.maxhd) == QueuePending(rest, it.maxhd) + Hits(rest, it.maxhd, Root(q));
  }

  lemma TakeInv<V>(t: Trie<V>, it: Iter)
    requires Inv(t, it) && it.frames == [] && it.queue != []
    ensures var q := it.queue[|it.queue| - 1];
            q in t.nodes && Inv(Mark(t, q), it.(frames := [Root(q)], queue := it.queue[..|it.queue| - 1]))
  {
    var q := it.queue[|it.queue| - 1];
    assert Stored(t.nodes, q);
    var t1 := Mark(t, q);
    SameShapeLinked(t.nodes, t1.nodes);
    TakeQueue(t.nodes, it.queue, it.targetDepth);
    TakeMarks(t.nodes, it.queue, it.targetDepth);
    RootFrame(t1, it.(frames := [Root(q)], queue := it.queue[..|it.queue| - 1]), q);
  }

  /** The root state of a query of the search's length that is no longer queued. */
  lemma RootFrame<V>(t: Trie<V>, it: Iter, q: Path)
    requires [] in t.nodes && it.frames == [Root(q)] && |q| == it.targetDepth >= 0 && it.maxhd >= 0
    requires q !in it.queue
    ensures Antichain(it.frames) && FramesIn(t.nodes, it.frames)
    ensures forall i | 0 <= i < |it.frames| :: FrameOk(t.nodes, it, it.frames[i])
  {
    assert q[..0] == [];
  }

  lemma TakeQueue<V>(nodes: map<Path, Node<V>>, queue: seq<Path>, len: int)
    requires QueueOk(nodes, queue, len) && queue != []
    ensures var q := queue[|queue| - 1];
            && q in nodes && q !in queue[..|queue| - 1]
            && QueueOk(nodes[q := nodes[q].(explored := true)], queue[..|queue| - 1], len)
  {
    var n := |queue| - 1;
    var q := queue[n];
    var rest := queue[..n];
    var nodes1 := nodes[q := nodes[q].(explored := true)];
    assert Stored(nodes, q);
    forall i | 0 <= i < |rest| ensures Stored(nodes1, rest[i]) && |rest[i]| == len && rest[i] != q {
      assert rest[i] == queue[i];
    }
  }

  lemma TakeMarks<V>(nodes: map<Path, Node<V>>, queue: seq<Path>, len: int)
    requires QueueOk(nodes, queue, len) && MarksOk(nodes, queue, len) && queue != []
    ensures var q := queue[|queue| - 1];
            q in nodes && MarksOk(nodes[q := nodes[q].(explored := true)], queue[..|queue| - 1], len)
  {
    var q := queue[|queue| - 1];
    assert Stored(nodes, q);
    TakeMarksDone(nodes, queue, len);
    TakeMarksClear(nodes, queue, len);
  }

  /** The key taken up is no longer queued and is now explored. */
  lemma TakeMarksDone<V>(nodes: map<Path, Node<V>>, queue: seq<Path>, len: int)
    requires queue != [] && queue[|queue| - 1] in nodes
    requires forall k | Stored(nodes, k) && |k| == len && k !in queue :: nodes[k].explored
    ensures var q := queue[|queue| - 1];
            var nodes1 := nodes[q := nodes[q].(explored := true)];
            forall k | Stored(nodes1, k) && |k| == len && k !in queue[..|queue| - 1] :: nodes1[k].explored
  {
    var n := |queue| - 1;
    var q := queue[n];
    var rest := queue[..n];
    var nodes1 := nodes[q := nodes[q].(explored := true)];
    assert queue == rest + [q];
    forall k | Stored(nodes1, k) && |k| == len && k !in rest ensures nodes1[k].explored {
      if k != q {
        assert k !in queue;
      }
    }
  }

  /** Only the key taken up is newly explored, and it is queued nowhere else. */
  lemma TakeMarksClear<V>(nodes: map<Path, Node<V>>, queue: seq<Path>, len: int)
    requires QueueOk(nodes, queue, len) && queue != []
    requires forall p, i | p in nodes && nodes[p].explored && 0 <= i < |queue| :: !(p <= queue[i])
    ensures var q := queue[|queue| - 1];
            var nodes1 := nodes[q := nodes[q].(explored := true)];
            var rest := queue[..|queue| - 1];
            forall p, i | p in nodes1 && nodes1[p].explored && 0 <= i < |rest| :: !(p <= rest[i])
  {
    var n := |queue| - 1;
    var q := queue[n];
    var rest := queue[..n];
    var nodes1 := nodes[q := nodes[q].(explored := true)];
    forall p, i | p in nodes1 && nodes1[p].explored && 0 <= i < |rest| ensures !(p <= rest[i]) {
      assert rest[i] == queue[i];
      if p == q {
        assert |rest[i]| == len == |q|;
      }
    }
  }

  lemma VisitLeaf<V>(t: Trie<V>, it: Iter)
    requires Inv(t, it) && Visitable(t, it) && Top(it.frames).depth == it.targetDepth
    ensures Inv(Visit(t, it), it.(frames := Advance(t, it)))
    ensures |Reach(t.nodes, Advance(t, it))| < |Reach(t.nodes, it.frames)|
  {
    var f := Top(it.frames);
    var rest := Pop(it.frames);
    var it1 := it.(frames := rest);
    assert Advance(t, it) == rest;
    StepFrames(t.nodes, it.frames, []);
    assert rest + [] == rest;
    PopInv(t, it);
    if t.nodes[f.node].item.None? {
      assert Visit(t, it) == Mark(t, f.node);
      assert FrameOk(t.nodes, it, it.frames[|it.frames| - 1]);
      NoItemClear(t.nodes, it.queue, it.targetDepth, f.node);
      OthersOff(it.frames);
      MarkInv(t, it1, f.node);
    } else {
      assert Visit(t, it) == t;
    }
  }

  /** Dropping the top state keeps the invariant. */
  lemma PopInv<V>(t: Trie<V>, it: Iter)
    requires Inv(t, it) && it.frames != []
    ensures Inv(t, it.(frames := Pop(it.frames)))
  {
    var rest := Pop(it.frames);
    var it1 := it.(frames := rest);
    StepFrames(t.nodes, it.frames, []);
    assert rest + [] == rest;
    forall i | 0 <= i < |rest| ensures FrameOk(t.nodes, it1, rest[i]) {
      assert rest[i] == it.frames[i];
    }
  }

  /** A node of the search's length without an item has no queued key at or below it. */
  lemma NoItemClear<V>(nodes: map<Path, Node<V>>, queue: seq<Path>, len: int, p: Path)
    requires QueueOk(nodes, queue, len) && p in nodes && nodes[p].item.None? && |p| == len
    ensures forall i | 0 <= i < |queue| :: !(p <= queue[i])
  {
    forall i | 0 <= i < |queue| ensures !(p <= queue[i]) {
      assert Stored(nodes, queue[i]) && |queue[i]| == len;
      if p <= queue[i] {
        SamePrefix(p, queue[i]);
      }
    }
  }

  /** The states under the top lie neither at nor above it. */
  lemma OthersOff(frames: seq<Frame>)
    requires frames != [] && Antichain(frames)
    ensures forall i | 0 <= i < |Pop(frames)| :: !(Pop(frames)[i].node <= Top(frames).node)
  {
    forall i | 0 <= i < |Pop(frames)| ensures !(Pop(frames)[i].node <= Top(frames).node) {
      assert Pop(frames)[i] == frames[i];
    }
  }

  /** At the target depth a state's only hit is its own node, reported when stored. */
  lemma LeafPending<V>(t: Trie<V>, it: Iter)
    requires it.frames != [] && Antichain(it.frames) && Top(it.frames).depth == it.targetDepth >= 1
    requires FrameOk(t.nodes, it, Top(it.frames))
    requires QueueOk(t.nodes, it.queue, it.targetDepth) && MarksOk(t.nodes, it.queue, it.targetDepth)
    ensures Top(it.frames).node in t.nodes
    ensures Pending(it) == Pending(it.(frames := Pop(it.frames))) + Own(t, it)
    ensures Own(t, it) !! Pending(it.(frames := Pop(it.frames)))
  {
    var f := Top(it.frames);
    var rest := Pop(it.frames);
    var own := Own(t, it);
    LeafHits(t.nodes, it.queue, it.maxhd, f, it.targetDepth);
    forall r | r in own ensures r !in FramePending(it.queue, it.maxhd, rest) && r !in QueuePending(it.queue, it.maxhd) {
      LeafFresh(it.queue, it.maxhd, it.frames, r);
    }
  }

  /** At the target depth a state's only hit is its own node, when that holds a key. */
  lemma LeafHits<V>(nodes: map<Path, Node<V>>, queue: seq<Path>, maxhd: int, f: Frame, len: int)
    requires QueueOk(nodes, queue, len) && MarksOk(nodes, queue, len)
    requires N.FrameOk(f, len, maxhd) && f.depth == len >= 1 && f.node in nodes && !nodes[f.node].explored
    ensures Hits(queue, maxhd, f) == (if nodes[f.node].item.Some? then {SearchResult(f.query, f.node, f.hd)} else {})
  {
    assert f.query[..f.depth] == f.query;
    forall r | r in Hits(queue, maxhd, f)
      ensures nodes[f.node].item.Some? && r == SearchResult(f.query, f.node, f.hd)
    {
      HitsMember(queue, maxhd, f, r);
      var i :| 0 <= i < |queue| && queue[i] == r.target;
      assert Stored(nodes, queue[i]);
      SamePrefix(f.node, r.target);
    }
    if nodes[f.node].item.Some? {
      assert Stored(nodes, f.node);
      assert f.node in queue;
      HitsMember(queue, maxhd, f, SearchResult(f.query, f.node, f.hd));
    }
  }

  /** A key reported by the top state is pending neither at another state nor in the queue. */
  lemma LeafFresh(queue: seq<Path>, maxhd: int, frames: seq<Frame>, r: SearchResult)
    requires frames != [] && Antichain(frames) && Top(frames).query !in queue
    requires r.query == Top(frames).query && r.target == Top(frames).node
    ensures r !in FramePending(queue, maxhd, Pop(frames)) && r !in QueuePending(queue, maxhd)
  {
    var rest := Pop(frames);
    var n := |frames| - 1;
    FramePendingMember(queue, maxhd, rest, r);
    forall i | 0 <= i < |rest| ensures r !in Hits(queue, maxhd, rest[i]) {
      assert rest[i] == frames[i];
      assert !(frames[i].node <= frames[n].node);
    }
    QueuePendingMember(queue, maxhd, r);
  }

  /** Marking a node with no queued key at or below it, and no deeper state on it, keeps the invariant. */
  lemma MarkInv<V>(t: Trie<V>, it: Iter, p: Path)
    requires Inv(t, it) && p in t.nodes
    requires forall i | 0 <= i < |it.queue| :: !(p <= it.queue[i])
    requires forall i | 0 <= i < |it.frames| && it.frames[i].depth > 0 :: it.frames[i].node != p
    ensures Inv(Mark(t, p), it)
  {
    var t1 := Mark(t, p);
    SameShapeLinked(t.nodes, t1.nodes);
    forall i | 0 <= i < |it.frames| ensures FrameOk(t1.nodes, it, it.frames[i]) {
      assert FrameOk(t.nodes, it, it.frames[i]);
    }
  }

  lemma VisitInner<V>(t: Trie<V>, it: Iter)
    requires Inv(t, it) && Visitable(t, it) && Top(it.frames).depth != it.targetDepth
    ensures Top(it.frames).node in t.nodes && Own(t, it) == {}
    ensures Inv(Visit(t, it), it.(frames := Advance(t, it)))
    ensures |Reach(t.nodes, Advance(t, it))| < |Reach(t.nodes, it.frames)|
  {
    InnerAdvance(t, it);
    InnerMark(t, it);
  }

  lemma InnerAdvance<V>(t: Trie<V>, it: Iter)
    requires Inv(t, it) && Visitable(t, it) && Top(it.frames).depth != it.targetDepth
    ensures Top(it.frames).node in t.nodes && Own(t, it) == {}
    ensures Inv(t, it.(frames := Advance(t, it)))
    ensures |Reach(t.nodes, Advance(t, it))| < |Reach(t.nodes, it.frames)|
    ensures Top(it.frames).node !in Reach(t.nodes, Advance(t, it))
    ensures Pending(it) == Pending(it.(frames := Advance(t, it)))
  {
    var f := Top(it.frames);
    assert FrameOk(t.nodes, it, it.frames[|it.frames| - 1]);
    var kids := t.nodes[f.node].kids;
    KidsIn(t.nodes, f.node);
    var pushed := Children(t.nodes, f, it.maxhd, kids);
    assert Advance(t, it) == Pop(it.frames) + pushed;
    PushedInv(t, it, pushed);
    StepFrames(t.nodes, it.frames, pushed);
    InnerPending(t, it, pushed);
  }

  /** Marking a node whose children are all explored keeps the invariant. */
  lemma InnerMark<V>(t: Trie<V>, it: Iter)
    requires Inv(t, it) && Visitable(t, it) && Top(it.frames).depth != it.targetDepth
    requires Inv(t, it.(frames := Advance(t, it)))
    requires Top(it.frames).node !in Reach(t.nodes, Advance(t, it))
    ensures Inv(Visit(t, it), it.(frames := Advance(t, it)))
  {
    var f := Top(it.frames);
    assert FrameOk(t.nodes, it, it.frames[|it.frames| - 1]);
    var kids := t.nodes[f.node].kids;
    KidsIn(t.nodes, f.node);
    if CountExplored(t.nodes, f.node, kids) == |kids| {
      assert Visit(t, it) == Mark(t, f.node);
      AllKidsExplored(t, it);
      OffReach(t.nodes, Advance(t, it), f.node);
      MarkInv(t, it.(frames := Advance(t, it)), f.node);
    } else {
      assert Visit(t, it) == t;
    }
  }

  /** A node the walk can no longer reach carries no saved state. */
  lemma OffReach<V>(nodes: map<Path, Node<V>>, frames: seq<Frame>, p: Path)
    requires FramesIn(nodes, frames) && p !in Reach(nodes, frames)
    ensures forall i | 0 <= i < |frames| :: frames[i].node != p
  {
    forall i | 0 <= i < |frames| ensures frames[i].node != p {
      assert frames[i].node <= frames[i].node;
      assert frames[i].node in Reach(nodes, frames);
    }
  }

  /** The pushed children are states of the walk: distinct, unexplored, within budget. */
  lemma PushedInv<V>(t: Trie<V>, it: Iter, pushed: seq<Frame>)
    requires Inv(t, it) && it.frames != [] && Top(it.frames).depth != it.targetDepth
    requires forall i | 0 <= i < |t.nodes[Top(it.frames).node].kids| ::
               Top(it.frames).node + [t.nodes[Top(it.frames).node].kids[i]] in t.nodes
    requires Top(it.frames).depth < |Top(it.frames).query|
    requires pushed == Children(t.nodes, Top(it.frames), it.maxhd, t.nodes[Top(it.frames).node].kids)
    ensures ChildFrames(t.nodes, Top(it.frames).node, pushed)
    ensures Inv(t, it.(frames := Pop(it.frames) + pushed))
  {
    var f := Top(it.frames);
    assert FrameOk(t.nodes, it, it.frames[|it.frames| - 1]);
    PushedOk(t.nodes, it, f, pushed);
    ChildrenDistinct(t.nodes, f, it.maxhd, t.nodes[f.node].kids);
    StepFrames(t.nodes, it.frames, pushed);
    FramesJoin(t.nodes, it, Pop(it.frames), pushed);
  }

  lemma PushedOk<V>(nodes: map<Path, Node<V>>, it: Iter, f: Frame, pushed: seq<Frame>)
    requires f.node in nodes && FrameOk(nodes, it, f) && f.depth < it.targetDepth
    requires forall i | 0 <= i < |nodes[f.node].kids| :: f.node + [nodes[f.node].kids[i]] in nodes
    requires pushed == Children(nodes, f, it.maxhd, nodes[f.node].kids)
    ensures forall i | 0 <= i < |pushed| ::
              && pushed[i].node in nodes && pushed[i].node != [] && Parent(pushed[i].node) == f.node
              && FrameOk(nodes, it, pushed[i])
  {
    forall i | 0 <= i < |pushed|
      ensures pushed[i].node in nodes && pushed[i].node != [] && Parent(pushed[i].node) == f.node
      ensures FrameOk(nodes, it, pushed[i])
    {
      var c := Last(pushed[i].node);
      assert Parent(f.node + [c]) == f.node;
      N.ChildHamming(f, c);
    }
  }

  lemma FramesJoin<V>(nodes: map<Path, Node<V>>, it: Iter, rest: seq<Frame>, pushed: seq<Frame>)
    requires forall i | 0 <= i < |rest| :: FrameOk(nodes, it, rest[i])
    requires forall i | 0 <= i < |pushed| :: FrameOk(nodes, it, pushed[i])
    ensures forall i | 0 <= i < |rest + pushed| :: FrameOk(nodes, it, (rest + pushed)[i])
  {
    forall i | 0 <= i < |rest + pushed| ensures FrameOk(nodes, it, (rest + pushed)[i]) {
      if i < |rest| { assert (rest + pushed)[i] == rest[i]; }
      else { assert (rest + pushed)[i] == pushed[i - |rest|]; }
    }
  }

  /** Above the target depth a state's hits are exactly its pushed children's. */
  lemma InnerPending<V>(t: Trie<V>, it: Iter, pushed: seq<Frame>)
    requires Inv(t, it) && it.frames != [] && Top(it.frames).depth != it.targetDepth
    requires forall i | 0 <= i < |t.nodes[Top(it.frames).node].kids| ::
               Top(it.frames).node + [t.nodes[Top(it.frames).node].kids[i]] in t.nodes
    requires Top(it.frames).depth < |Top(it.frames).query|
    requires pushed == Children(t.nodes, Top(it.frames), it.maxhd, t.nodes[Top(it.frames).node].kids)
    ensures FramePending(it.queue, it.maxhd, it.frames) == FramePending(it.queue, it.maxhd, Pop(it.frames) + pushed)
  {
    var f := Top(it.frames);
    assert FrameOk(t.nodes, it, it.frames[|it.frames| - 1]);
    FramePendingAppend(it.queue, it.maxhd, Pop(it.frames), pushed);
    InnerCover(t, it, f, pushed);
    InnerBack(it.queue, it.maxhd, t.nodes, f, pushed);
  }

  /** Every queued key within budget below the popped node lies below a pushed child. */
  lemma InnerCover<V>(t: Trie<V>, it: Iter, f: Frame, pushed: seq<Frame>)
    requires Linked(t.nodes) && f.node in t.nodes && N.FrameOk(f, it.targetDepth, it.maxhd)
    requires f.depth < it.targetDepth && QueueOk(t.nodes, it.queue, it.targetDepth)
    requires MarksOk(t.nodes, it.queue, it.targetDepth)
    requires forall i | 0 <= i < |t.nodes[f.node].kids| :: f.node + [t.nodes[f.node].kids[i]] in t.nodes
    requires pushed == Children(t.nodes, f, it.maxhd, t.nodes[f.node].kids)
    ensures Hits(it.queue, it.maxhd, f) <= FramePending(it.queue, it.maxhd, pushed)
  {
    forall r | r in Hits(it.queue, it.maxhd, f) ensures r in FramePending(it.queue, it.maxhd, pushed) {
      HitsMember(it.queue, it.maxhd, f, r);
      var qi :| 0 <= qi < |it.queue| && it.queue[qi] == r.target;
      CoverOne(t, it, f, pushed, qi);
    }
  }

  lemma CoverOne<V>(t: Trie<V>, it: Iter, f: Frame, pushed: seq<Frame>, qi: int)
    requires Linked(t.nodes) && f.node in t.nodes && N.FrameOk(f, it.targetDepth, it.maxhd)
    requires f.depth < it.targetDepth && QueueOk(t.nodes, it.queue, it.targetDepth)
    requires MarksOk(t.nodes, it.queue, it.targetDepth)
    requires forall i | 0 <= i < |t.nodes[f.node].kids| :: f.node + [t.nodes[f.node].kids[i]] in t.nodes
    requires pushed == Children(t.nodes, f, it.maxhd, t.nodes[f.node].kids)
    requires 0 <= qi < |it.queue| && f.node <= it.queue[qi] && Hamming(it.queue[qi], f.query) <= it.maxhd
    ensures SearchResult(f.query, it.queue[qi], Hamming(it.queue[qi], f.query))
              in FramePending(it.queue, it.maxhd, pushed)
  {
    var kids := t.nodes[f.node].kids;
    var k := it.queue[qi];
    var r := SearchResult(f.query, k, Hamming(k, f.query));
    var d := f.depth;
    assert Stored(t.nodes, k);
    PrefixClosed(t.nodes, k, d + 1);
    N.KeyChild(f, k);
    var cf := N.Child(f, k[d]);
    assert Parent(cf.node) == f.node && Last(cf.node) == k[d];
    assert k[d] in kids;
    assert !t.nodes[cf.node].explored;
    var j :| 0 <= j < |kids| && kids[j] == k[d];
    var i :| 0 <= i < |pushed| && pushed[i] == cf;
    HitsMember(it.queue, it.maxhd, pushed[i], r);
    FramePendingMember(it.queue, it.maxhd, pushed, r);
  }

  /** Every hit of a pushed child lies below the popped node. */
  lemma InnerBack<V>(queue: seq<Path>, maxhd: int, nodes: map<Path, Node<V>>, f: Frame, pushed: seq<Frame>)
    requires f.node in nodes && 0 <= f.depth < |f.query|
    requires forall i | 0 <= i < |nodes[f.node].kids| :: f.node + [nodes[f.node].kids[i]] in nodes
    requires pushed == Children(nodes, f, maxhd, nodes[f.node].kids)
    ensures FramePending(queue, maxhd, pushed) <= Hits(queue, maxhd, f)
  {
    forall r | r in FramePending(queue, maxhd, pushed) ensures r in Hits(queue, maxhd, f) {
      FramePendingMember(queue, maxhd, pushed, r);
      var i :| 0 <= i < |pushed| && r in Hits(queue, maxhd, pushed[i]);
      assert pushed[i] == N.Child(f, Last(pushed[i].node));
      assert f.node <= pushed[i].node;
      HitsMember(queue, maxhd, pushed[i], r);
      HitsMember(queue, maxhd, f, r);
    }
  }

  /** A node whose children are all explored has no queued key at or below it. */
  lemma AllKidsExplored<V>(t: Trie<V>, it: Iter)
    requires Inv(t, it) && it.frames != [] && Top(it.frames).depth != it.targetDepth
    requires forall i | 0 <= i < |t.nodes[Top(it.frames).node].kids| ::
               Top(it.frames).node + [t.nodes[Top(it.frames).node].kids[i]] in t.nodes
    requires forall i | 0 <= i < |t.nodes[Top(it.frames).node].kids| ::
               t.nodes[Top(it.frames).node + [t.nodes[Top(it.frames).node].kids[i]]].explored
    ensures forall i | 0 <= i < |it.queue| :: !(Top(it.frames).node <= it.queue[i])
  {
    assert FrameOk(t.nodes, it, it.frames[|it.frames| - 1]);
    forall i | 0 <= i < |it.queue| ensures !(Top(it.frames).node <= it.queue[i]) {
      assert Stored(t.nodes, it.queue[i]);
      if Top(it.frames).node <= it.queue[i] {
        ChildOnPath(t.nodes, Top(it.frames).node, it.queue[i]);
      }
    }
  }

  /** Below a node, a deeper node lies under one of its children. */
  lemma ChildOnPath<V>(nodes: map<Path, Node<V>>, p: Path, k: Path)
    requires Linked(nodes) && k in nodes && p <= k && |p| < |k|
    ensures p in nodes && p + [k[|p|]] in nodes && p + [k[|p|]] <= k
    ensures exists j | 0 <= j < |nodes[p].kids| :: nodes[p].kids[j] == k[|p|]
  {
    PrefixClosed(nodes, k, |p| + 1);
    PrefixExtend(p, k);
    var ch := p + [k[|p|]];
    assert k[..|p| + 1] == ch;
    assert Parent(ch) == p && Last(ch) == k[|p|];
    assert k[|p|] in nodes[p].kids;
  }
}
