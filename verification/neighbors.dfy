/**
  The neighbour search (`trieiter_neighbors`): every stored key of the same
  length as a stored query key whose Hamming distance from it is between 1
  and `maxhd`, each reported once with that distance.  The walk starts at the
  root, follows the query's byte at no cost and any other byte at a cost of
  one while the budget allows, and reports at the query's depth.
 */
module NeighborSearch {
  import opened Wrappers
  import opened Keys
  import opened Tries
  import opened TrieIters

  /** The hits a saved state stands for: the near keys of the right length below its node. */
  ghost function Hits<V>(t: Trie<V>, maxhd: int, f: Frame): set<SearchResult> {
    set k | k in Items(t) && |k| == |f.query| && f.node <= k && 1 <= Hamming(k, f.query) <= maxhd
      :: SearchResult(f.query, k, Hamming(k, f.query))
  }

  lemma HitsMember<V>(t: Trie<V>, maxhd: int, f: Frame, r: SearchResult)
    ensures r in Hits(t, maxhd, f) <==>
              && r.query == f.query && r.target in Items(t) && |r.target| == |f.query|
              && f.node <= r.target && 1 <= Hamming(r.target, f.query) <= maxhd
              && r.hd == Hamming(r.target, f.query)
  {
  }

  ghost function Pending<V>(t: Trie<V>, maxhd: int, frames: seq<Frame>): set<SearchResult>
    decreases |frames|
  {
    if frames == [] then {} else Pending(t, maxhd, Pop(frames)) + Hits(t, maxhd, Top(frames))
  }

  lemma {:induction false} PendingAppend<V>(t: Trie<V>, maxhd: int, a: seq<Frame>, b: seq<Frame>)
    ensures Pending(t, maxhd, a + b) == Pending(t, maxhd, a) + Pending(t, maxhd, b)
    decreases |b|
  {
    if b == [] {
      assert a + b == a;
    } else {
      assert Pop(a + b) == a + Pop(b);
      assert Top(a + b) == Top(b);
      PendingAppend(t, maxhd, a, Pop(b));
    }
  }

  lemma {:induction false} PendingMember<V>(t: Trie<V>, maxhd: int, frames: seq<Frame>, r: SearchResult)
    ensures r in Pending(t, maxhd, frames) <==>
              exists i | 0 <= i < |frames| :: r in Hits(t, maxhd, frames[i])
    decreases |frames|
  {
    if frames != [] {
      PendingMember(t, maxhd, Pop(frames), r);
      if r in Hits(t, maxhd, Top(frames)) {
        assert r in Hits(t, maxhd, frames[|frames| - 1]);
      }
    }
  }

  /** A saved state of the walk for query `q` at depth `d = |node|`, within budget. */
  ghost predicate FrameOk(f: Frame, depth: int, maxhd: int) {
    && |f.query| == depth && 0 <= f.depth == |f.node| <= depth
    && f.hd == Hamming(f.node, f.query[..f.depth]) && f.hd <= maxhd
  }

  ghost predicate Inv<V>(t: Trie<V>, it: Iter) {
    && it.policy == NeighborWalk && !it.isDirty && it.queue == [] && it.maxhd >= 1
    && Linked(t.nodes) && Antichain(it.frames) && FramesIn(t.nodes, it.frames)
    && forall i | 0 <= i < |it.frames| :: FrameOk(it.frames[i], it.targetDepth, it.maxhd)
  }

  /**
    The states pushed for the children of `f`'s node, in sibling order: a
    child over the query's byte keeps the distance; any other child costs one
    and is pushed only while the distance so far is below the budget.
   */
  function Children(f: Frame, maxhd: int, kids: seq<byte>): (r: seq<Frame>)
    requires 0 <= f.depth < |f.query|
    ensures forall i | 0 <= i < |r| ::
              && r[i].node != [] && Last(r[i].node) in kids && r[i] == Child(f, Last(r[i].node))
              && (Last(r[i].node) == f.query[f.depth] || f.hd < maxhd)
    ensures forall j | 0 <= j < |kids| ::
              (kids[j] == f.query[f.depth] || f.hd < maxhd <==> Child(f, kids[j]) in r)
  {
    if kids == [] then []
    else
      var c := Child(f, kids[0]);
      var rest := Children(f, maxhd, kids[1..]);
      assert forall j | 1 <= j < |kids| :: kids[j] == kids[1..][j - 1];
      assert Last(c.node) == kids[0];
      (if kids[0] == f.query[f.depth] || f.hd < maxhd then [c] else []) + rest
  }

  ghost predicate DistinctNodes(fs: seq<Frame>) {
    forall i, j | 0 <= i < j < |fs| :: fs[i].node != fs[j].node
  }

  /** Distinct sibling bytes give pushed states over distinct nodes. */
  lemma {:induction false} ChildrenDistinct(f: Frame, maxhd: int, kids: seq<byte>)
    requires 0 <= f.depth < |f.query| && Distinct(kids)
    ensures DistinctNodes(Children(f, maxhd, kids))
  {
    if kids != [] {
      assert Distinct(kids[1..]) && kids[0] !in kids[1..];
      ChildrenDistinct(f, maxhd, kids[1..]);
      var rest := Children(f, maxhd, kids[1..]);
      var c := Child(f, kids[0]);
      var pre := if kids[0] == f.query[f.depth] || f.hd < maxhd then [c] else [];
      assert Children(f, maxhd, kids) == pre + rest;
      forall i, j | 0 <= i < |pre| && 0 <= j < |rest| ensures pre[i].node != rest[j].node {
        assert Last(rest[j].node) in kids[1..];
        assert Last(pre[i].node) == kids[0];
      }
      NodesJoin(pre, rest);
    }
  }

  lemma NodesJoin(a: seq<Frame>, b: seq<Frame>)
    requires DistinctNodes(a) && DistinctNodes(b)
    requires forall i, j | 0 <= i < |a| && 0 <= j < |b| :: a[i].node != b[j].node
    ensures DistinctNodes(a + b)
  {
    var r := a + b;
    forall i, j | 0 <= i < j < |r| ensures r[i].node != r[j].node {
      if j < |a| {
        assert r[i] == a[i] && r[j] == a[j];
      } else if i >= |a| {
        assert r[i] == b[i - |a|] && r[j] == b[j - |a|];
      } else {
        assert r[i] == a[i] && r[j] == b[j - |a|];
      }
    }
  }

  /** The state for the child of `f`'s node over byte `c`. */
  function Child(f: Frame, c: byte): Frame
    requires 0 <= f.depth < |f.query|
  {
    Frame(f.node + [c], f.query, if c == f.query[f.depth] then f.hd else f.hd + 1, f.depth + 1)
  }

  /**
    `trieiter_neighbors`: no iterator for a missing key, a budget below 1, or
    a key that is not stored; otherwise a clean iterator whose one state is
    the root, with the target depth and reported query length set to the
    key's length.
   */
  function Open<V>(t: Trie<V>, key: Option<Key>, maxhd: int): (r: Opened<V>)
    requires Valid(t)
    ensures r.trie == t
    ensures r.iter.Some? <==> key.Some? && maxhd >= 1 && key.value in Items(t)
    ensures r.iter.Some? ==>
              var it := r.iter.value;
              && Inv(t, it) && it.stateId == t.stateId && it.errcode == E_SUCCESS
              && it.targetDepth == |key.value| && it.lenQuery == |key.value| && it.maxhd == maxhd
              && Pending(t, maxhd, it.frames) == Expected(t, key.value, maxhd)
  {
    if key.None? || maxhd < 1 then Opened(t, None)
    else
      var k := key.value;
      var n := GetNode(t, k);
      if n.None? || t.nodes[n.value].item.None? then Opened(t, None)
      else
        var o := NewIter(t, NeighborWalk, maxhd, |k|, |k|, [], false);
        var root := Frame([], k, 0, 0);
        var it := o.iter.value.(frames := [root]);
        assert k[..0] == [];
        assert Pending(t, maxhd, it.frames) == Hits(t, maxhd, root);
        Opened(t, Some(it))
  }

  /** The stored keys of `key`'s length at distance 1 to `maxhd` from it. */
  ghost function Expected<V>(t: Trie<V>, key: Path, maxhd: int): set<SearchResult> {
    set k | k in Items(t) && |k| == |key| && 1 <= Hamming(k, key) <= maxhd
      :: SearchResult(key, k, Hamming(k, key))
  }

  /**
    `trieiter_neighbors_next`: pop states; at the target depth a stored key
    at non-zero distance is the next hit and anything else is dropped; above
    it the children within budget are pushed.  Each call reports one pending
    hit and removes only it.
   */
  function Next<V>(t: Trie<V>, it: Iter): (r: Step<V>)
    requires Inv(t, it)
    ensures r.trie == t && Inv(t, r.iter) && r.iter == it.(frames := r.iter.frames)
    ensures r.result.None? ==> Pending(t, it.maxhd, it.frames) == {} && r.iter.frames == []
    ensures r.result.Some? ==>
              && r.result.value in Pending(t, it.maxhd, it.frames)
              && Pending(t, it.maxhd, r.iter.frames) == Pending(t, it.maxhd, it.frames) - {r.result.value}
              && |Reach(t.nodes, r.iter.frames)| < |Reach(t.nodes, it.frames)|
    decreases |Reach(t.nodes, it.frames)|
  {
    if it.frames == [] then Step(t, it, None)
    else
      var f := Top(it.frames);
      var it1 := it.(frames := Advance(t, it));
      AdvanceStep(t, it);
      if f.depth == it.targetDepth && t.nodes[f.node].item.Some? && f.hd != 0 then
        Step(t, it1, Some(SearchResult(f.query, f.node, f.hd)))
      else Next(t, it1)
  }

  /** The stack after visiting the top state: popped, with its children pushed above the target depth. */
  function Advance<V>(t: Trie<V>, it: Iter): seq<Frame>
    requires Inv(t, it) && it.frames != []
  {
    var f := Top(it.frames);
    assert FrameOk(it.frames[|it.frames| - 1], it.targetDepth, it.maxhd);
    if f.depth == it.targetDepth then Pop(it.frames)
    else Pop(it.frames) + Children(f, it.maxhd, t.nodes[f.node].kids)
  }

  /** What the top state itself reports: its own node, when stored at the target depth and non-zero distance. */
  ghost function Own<V>(t: Trie<V>, it: Iter): set<SearchResult>
    requires it.frames != [] && Top(it.frames).node in t.nodes
  {
    var f := Top(it.frames);
    if f.depth == it.targetDepth && t.nodes[f.node].item.Some? && f.hd != 0
    then {SearchResult(f.query, f.node, f.hd)} else {}
  }

  /**
    Visiting the top state keeps the invariant, shrinks what is reachable,
    and moves the pending hits of the top state to its children, except its
    own hit, which is pending nowhere else.
   */
  lemma AdvanceStep<V>(t: Trie<V>, it: Iter)
    requires Inv(t, it) && it.frames != []
    ensures Top(it.frames).node in t.nodes
    ensures Inv(t, it.(frames := Advance(t, it)))
    ensures |Reach(t.nodes, Advance(t, it))| < |Reach(t.nodes, it.frames)|
    ensures Pending(t, it.maxhd, it.frames) == Pending(t, it.maxhd, Advance(t, it)) + Own(t, it)
    ensures Own(t, it) !! Pending(t, it.maxhd, Advance(t, it))
  {
    if Top(it.frames).depth == it.targetDepth {
      AdvanceLeaf(t, it);
    } else {
      AdvanceInner(t, it);
    }
  }

  lemma AdvanceLeaf<V>(t: Trie<V>, it: Iter)
    requires Inv(t, it) && it.frames != [] && Top(it.frames).depth == it.targetDepth
    ensures Top(it.frames).node in t.nodes
    ensures Inv(t, it.(frames := Advance(t, it)))
    ensures |Reach(t.nodes, Advance(t, it))| < |Reach(t.nodes, it.frames)|
    ensures Pending(t, it.maxhd, it.frames) == Pending(t, it.maxhd, Advance(t, it)) + Own(t, it)
    ensures Own(t, it) !! Pending(t, it.maxhd, Advance(t, it))
  {
    var rest := Pop(it.frames);
    assert Advance(t, it) == rest;
    StepFrames(t.nodes, it.frames, []);
    assert rest + [] == rest;
    LeafStep(t, it);
    forall i | 0 <= i < |rest| ensures FrameOk(rest[i], it.targetDepth, it.maxhd) {
      assert rest[i] == it.frames[i];
    }
  }

  lemma AdvanceInner<V>(t: Trie<V>, it: Iter)
    requires Inv(t, it) && it.frames != [] && Top(it.frames).depth != it.targetDepth
    ensures Top(it.frames).node in t.nodes
    ensures Inv(t, it.(frames := Advance(t, it)))
    ensures |Reach(t.nodes, Advance(t, it))| < |Reach(t.nodes, it.frames)|
    ensures Pending(t, it.maxhd, it.frames) == Pending(t, it.maxhd, Advance(t, it)) + Own(t, it)
    ensures Own(t, it) !! Pending(t, it.maxhd, Advance(t, it))
  {
    var f := Top(it.frames);
    assert FrameOk(it.frames[|it.frames| - 1], it.targetDepth, it.maxhd);
    var pushed := Children(f, it.maxhd, t.nodes[f.node].kids);
    assert Advance(t, it) == Pop(it.frames) + pushed;
    PushedChildren(t, it, pushed);
    StepFrames(t.nodes, it.frames, pushed);
    InnerStep(t, it, pushed);
  }

  /** At the target depth a state stands for its own node only. */
  lemma LeafStep<V>(t: Trie<V>, it: Iter)
    requires Inv(t, it) && it.frames != [] && Top(it.frames).depth == it.targetDepth
    ensures var f := Top(it.frames);
            var own := if t.nodes[f.node].item.Some? && f.hd != 0 then {SearchResult(f.query, f.node, f.hd)} else {};
            && Pending(t, it.maxhd, it.frames) == Pending(t, it.maxhd, Pop(it.frames)) + own
            && own !! Pending(t, it.maxhd, Pop(it.frames))
            && (f.hd != 0 ==> 1 <= f.hd <= it.maxhd)
  {
    var f := Top(it.frames);
    var rest := Pop(it.frames);
    var n := |it.frames| - 1;
    assert FrameOk(it.frames[n], it.targetDepth, it.maxhd);
    assert f.query[..f.depth] == f.query && f.node == f.node[..|f.node|];
    HammingZero(f.node, f.query);
    var own := if t.nodes[f.node].item.Some? && f.hd != 0 then {SearchResult(f.query, f.node, f.hd)} else {};
    forall r | r in Hits(t, it.maxhd, f) ensures r in own {
      assert r.target == f.node;
    }
    forall r | r in own ensures r !in Pending(t, it.maxhd, rest) {
      PendingMember(t, it.maxhd, rest, r);
      forall i | 0 <= i < |rest| ensures r !in Hits(t, it.maxhd, rest[i]) {
        assert rest[i] == it.frames[i];
        assert !(it.frames[i].node <= it.frames[n].node);
      }
    }
  }

  lemma PushedChildren<V>(t: Trie<V>, it: Iter, pushed: seq<Frame>)
    requires Inv(t, it) && it.frames != [] && Top(it.frames).depth < it.targetDepth
    requires pushed == Children(Top(it.frames), it.maxhd, t.nodes[Top(it.frames).node].kids)
    ensures ChildFrames(t.nodes, Top(it.frames).node, pushed)
    ensures Inv(t, it.(frames := Pop(it.frames) + pushed))
  {
    var f := Top(it.frames);
    var kids := t.nodes[f.node].kids;
    assert FrameOk(it.frames[|it.frames| - 1], it.targetDepth, it.maxhd);
    forall i | 0 <= i < |pushed|
      ensures pushed[i].node in t.nodes && pushed[i].node != [] && Parent(pushed[i].node) == f.node
      ensures FrameOk(pushed[i], it.targetDepth, it.maxhd)
    {
      var c := Last(pushed[i].node);
      assert c in t.nodes[f.node].kids;
      assert Parent(f.node + [c]) == f.node;
      ChildHamming(f, c);
    }
    ChildrenDistinct(f, it.maxhd, kids);
    StepFrames(t.nodes, it.frames, pushed);
    var rest := Pop(it.frames);
    forall i | 0 <= i < |rest + pushed| ensures FrameOk((rest + pushed)[i], it.targetDepth, it.maxhd) {
      if i < |rest| { assert (rest + pushed)[i] == it.frames[i]; }
      else { assert (rest + pushed)[i] == pushed[i - |rest|]; }
    }
  }

  /** The child over a key's next byte lies on the key's path and its distance is a lower bound. */
  lemma KeyChild(f: Frame, k: Path)
    requires 0 <= f.depth == |f.node| < |f.query| == |k| && f.node <= k
    requires f.hd == Hamming(f.node, f.query[..f.depth])
    ensures Child(f, k[f.depth]).node == k[..f.depth + 1]
    ensures Child(f, k[f.depth]).hd <= Hamming(k, f.query)
  {
    var d := f.depth;
    assert f.node == k[..d];
    assert k[..d + 1] == k[..d] + [k[d]];
    ChildHamming(f, k[d]);
    HammingPrefix(k, f.query, d + 1);
  }

  /** The child's distance is the Hamming distance of the extended paths. */
  lemma ChildHamming(f: Frame, c: byte)
    requires 0 <= f.depth == |f.node| < |f.query| && f.hd == Hamming(f.node, f.query[..f.depth])
    ensures Child(f, c).hd == Hamming(f.node + [c], f.query[..f.depth + 1])
  {
    assert f.query[..f.depth + 1] == f.query[..f.depth] + [f.query[f.depth]];
    HammingSnoc(f.node, f.query[..f.depth], c, f.query[f.depth]);
  }

  /**
    Above the target depth a state's hits are exactly its pushed children's:
    a child dropped for budget has only keys beyond the bound below it.
   */
  lemma InnerStep<V>(t: Trie<V>, it: Iter, pushed: seq<Frame>)
    requires Inv(t, it) && it.frames != [] && Top(it.frames).depth < it.targetDepth
    requires pushed == Children(Top(it.frames), it.maxhd, t.nodes[Top(it.frames).node].kids)
    ensures Pending(t, it.maxhd, it.frames) == Pending(t, it.maxhd, Pop(it.frames) + pushed)
  {
    var f := Top(it.frames);
    assert FrameOk(it.frames[|it.frames| - 1], it.targetDepth, it.maxhd);
    PendingAppend(t, it.maxhd, Pop(it.frames), pushed);
    InnerCover(t, it.maxhd, f, pushed);
    InnerBack(t, it.maxhd, f, pushed);
  }

  /** Every hit below the popped node is a hit of a pushed child. */
  lemma InnerCover<V>(t: Trie<V>, maxhd: int, f: Frame, pushed: seq<Frame>)
    requires Linked(t.nodes) && f.node in t.nodes && FrameOk(f, |f.query|, maxhd) && f.depth < |f.query|
    requires pushed == Children(f, maxhd, t.nodes[f.node].kids)
    ensures Hits(t, maxhd, f) <= Pending(t, maxhd, pushed)
  {
    var kids := t.nodes[f.node].kids;
    forall r | r in Hits(t, maxhd, f) ensures r in Pending(t, maxhd, pushed) {
      HitsMember(t, maxhd, f, r);
      var k := r.target;
      var d := f.depth;
      PrefixClosed(t.nodes, k, d + 1);
      KeyChild(f, k);
      var cf := Child(f, k[d]);
      assert Parent(cf.node) == f.node && Last(cf.node) == k[d];
      assert k[d] in kids;
      var j :| 0 <= j < |kids| && kids[j] == k[d];
      var i :| 0 <= i < |pushed| && pushed[i] == cf;
      assert cf.node <= k;
      HitsMember(t, maxhd, pushed[i], r);
      PendingMember(t, maxhd, pushed, r);
    }
  }

  /** Every hit of a pushed child lies below the popped node. */
  lemma InnerBack<V>(t: Trie<V>, maxhd: int, f: Frame, pushed: seq<Frame>)
    requires f.node in t.nodes && 0 <= f.depth < |f.query|
    requires pushed == Children(f, maxhd, t.nodes[f.node].kids)
    ensures Pending(t, maxhd, pushed) <= Hits(t, maxhd, f)
  {
    forall r | r in Pending(t, maxhd, pushed) ensures r in Hits(t, maxhd, f) {
      PendingMember(t, maxhd, pushed, r);
      var i :| 0 <= i < |pushed| && r in Hits(t, maxhd, pushed[i]);
      assert pushed[i] == Child(f, Last(pushed[i].node));
      assert f.node <= pushed[i].node;
      HitsMember(t, maxhd, pushed[i], r);
      HitsMember(t, maxhd, f, r);
    }
  }

  /** Calling `Next` until it reports nothing, collecting what it reports. */
  function Drain<V>(t: Trie<V>, it: Iter): (r: seq<SearchResult>)
    requires Inv(t, it)
    ensures r == [] <==> Pending(t, it.maxhd, it.frames) == {}
    decreases |Reach(t.nodes, it.frames)|
  {
    var s := Next(t, it);
    if s.result.None? then [] else [s.result.value] + Drain(t, s.iter)
  }

  /** A drained search reports exactly what was pending, each hit once. */
  lemma {:induction false} DrainExact<V>(t: Trie<V>, it: Iter)
    requires Inv(t, it)
    ensures Lists(Drain(t, it), Pending(t, it.maxhd, it.frames))
    decreases |Reach(t.nodes, it.frames)|
  {
    var s := Next(t, it);
    if s.result.Some? {
      DrainExact(t, s.iter);
      ListsCons(s.result.value, Drain(t, s.iter), Pending(t, it.maxhd, it.frames));
    }
  }

  /**
    A neighbour search run to the end reports every other stored key of the
    query's length within the distance budget, once.
   */
  lemma SearchExact<V>(t: Trie<V>, key: Key, maxhd: int)
    requires Valid(t) && key in Items(t) && maxhd >= 1
    ensures var it := Open(t, Some(key), maxhd).iter.value;
            Lists(Drain(t, it), Expected(t, key, maxhd))
  {
    DrainExact(t, Open(t, Some(key), maxhd).iter.value);
  }

  /** What is pending depends on which keys are stored, not on values or marks. */
  lemma {:induction false} PendingSameKeys<V>(t: Trie<V>, u: Trie<V>, maxhd: int, frames: seq<Frame>)
    requires Items(u).Keys == Items(t).Keys
    ensures Pending(u, maxhd, frames) == Pending(t, maxhd, frames)
    decreases |frames|
  {
    if frames != [] {
      PendingSameKeys(t, u, maxhd, Pop(frames));
      assert Hits(u, maxhd, Top(frames)) == Hits(t, maxhd, Top(frames));
    }
  }
}
