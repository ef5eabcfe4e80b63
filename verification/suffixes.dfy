/**
  The suffix search (`trieiter_suffixes`): every stored key that starts with
  a given prefix, each reported once with distance 0, found by a depth-first
  walk below the prefix's node.
 */
module SuffixSearch {
  import opened Wrappers
  import opened Keys
  import opened Tries
  import opened TrieIters

  /** The hits a saved state stands for: every stored key at or below its node. */
  ghost function Hits<V>(t: Trie<V>, f: Frame): set<SearchResult> {
    set k | k in Items(t) && f.node <= k :: SearchResult(f.query, k, 0)
  }

  /** The hits the walk has still to report. */
  ghost function Pending<V>(t: Trie<V>, frames: seq<Frame>): set<SearchResult>
    decreases |frames|
  {
    if frames == [] then {} else Pending(t, Pop(frames)) + Hits(t, Top(frames))
  }

  lemma {:induction false} PendingAppend<V>(t: Trie<V>, a: seq<Frame>, b: seq<Frame>)
    ensures Pending(t, a + b) == Pending(t, a) + Pending(t, b)
    decreases |b|
  {
    if b == [] {
      assert a + b == a;
    } else {
      assert Pop(a + b) == a + Pop(b);
      assert Top(a + b) == Top(b);
      PendingAppend(t, a, Pop(b));
    }
  }

  /** A hit is pending exactly when some saved state lies on its key's path. */
  lemma {:induction false} PendingMember<V>(t: Trie<V>, frames: seq<Frame>, r: SearchResult)
    ensures r in Pending(t, frames) <==>
              exists i | 0 <= i < |frames| :: r in Hits(t, frames[i])
    decreases |frames|
  {
    if frames != [] {
      PendingMember(t, Pop(frames), r);
      if r in Hits(t, Top(frames)) {
        assert r in Hits(t, frames[|frames| - 1]);
      }
    }
  }

  /** What an iterator of this search keeps true between calls. */
  ghost predicate Inv<V>(t: Trie<V>, it: Iter) {
    && it.policy == SuffixWalk && !it.isDirty && it.queue == []
    && Linked(t.nodes) && Antichain(it.frames) && FramesIn(t.nodes, it.frames)
  }

  /** The states pushed for the children of `f`'s node, in sibling order. */
  function Children(f: Frame, kids: seq<byte>): (r: seq<Frame>)
    ensures |r| == |kids|
    ensures forall i | 0 <= i < |r| :: r[i] == Frame(f.node + [kids[i]], f.query, 0, f.depth + 1)
  {
    if kids == [] then [] else [Frame(f.node + [kids[0]], f.query, 0, f.depth + 1)] + Children(f, kids[1..])
  }

  /**
    `trieiter_suffixes`: no iterator for a missing key or a prefix without a
    node; otherwise a clean iterator whose one state is the prefix's node.
   */
  function Open<V>(t: Trie<V>, key: Option<Key>): (r: Opened<V>)
    requires Valid(t)
    ensures r.trie == t
    ensures r.iter.Some? <==> key.Some? && key.value in t.nodes
    ensures r.iter.Some? ==>
              var it := r.iter.value;
              && Inv(t, it) && it.stateId == t.stateId && it.errcode == E_SUCCESS
              && it.lenQuery == |key.value|
              && Pending(t, it.frames) == Expected(t, key.value)
  {
    if key.None? then Opened(t, None)
    else
      var k := key.value;
      var n := GetNode(t, k);
      if n.None? then Opened(t, None)
      else
        var o := NewIter(t, SuffixWalk, 0, 0, |k|, [], false);
        var it := o.iter.value.(frames := [Frame(k, k, 0, 0)]);
        assert Pending(t, it.frames) == Hits(t, Frame(k, k, 0, 0));
        Opened(t, Some(it))
  }

  /** Every stored key extending `key`, reported against `key` at distance 0. */
  ghost function Expected<V>(t: Trie<V>, key: Path): set<SearchResult> {
    set k | k in Items(t) && key <= k :: SearchResult(key, k, 0)
  }

  /**
    `trieiter_suffixes_next`: pop states until one holds an item, pushing the
    children of every popped node; that item is the next hit.  An empty stack
    ends the search.  Each call reports a hit that was pending and removes
    only it, so no hit is reported twice and none is lost.
   */
  function Next<V>(t: Trie<V>, it: Iter): (r: Step<V>)
    requires Inv(t, it)
    ensures r.trie == t && Inv(t, r.iter) && r.iter == it.(frames := r.iter.frames)
    ensures r.result.None? ==> Pending(t, it.frames) == {} && r.iter.frames == []
    ensures r.result.Some? ==>
              && r.result.value in Pending(t, it.frames)
              && Pending(t, r.iter.frames) == Pending(t, it.frames) - {r.result.value}
              && |Reach(t.nodes, r.iter.frames)| < |Reach(t.nodes, it.frames)|
    decreases |Reach(t.nodes, it.frames)|
  {
    if it.frames == [] then Step(t, it, None)
    else
      var f := Top(it.frames);
      var n := t.nodes[f.node];
      var pushed := Children(f, n.kids);
      var it1 := it.(frames := Pop(it.frames) + pushed);
      PushedChildren(t, f, pushed);
      StepFrames(t.nodes, it.frames, pushed);
      PendingStep(t, it.frames, pushed);
      if n.item.Some? then Step(t, it1, Some(SearchResult(f.query, f.node, 0)))
      else Next(t, it1)
  }

  lemma PushedChildren<V>(t: Trie<V>, f: Frame, pushed: seq<Frame>)
    requires Linked(t.nodes) && f.node in t.nodes && pushed == Children(f, t.nodes[f.node].kids)
    ensures ChildFrames(t.nodes, f.node, pushed)
  {
    var kids := t.nodes[f.node].kids;
    forall i | 0 <= i < |pushed| ensures pushed[i].node in t.nodes && pushed[i].node != [] && Parent(pushed[i].node) == f.node {
      assert kids[i] in t.nodes[f.node].kids;
      assert Parent(f.node + [kids[i]]) == f.node;
    }
    forall i, j | 0 <= i < j < |pushed| ensures pushed[i].node != pushed[j].node {
      assert Last(pushed[i].node) == kids[i] && Last(pushed[j].node) == kids[j];
    }
  }

  /**
    The hits of a popped state are its own item, if any, and the hits of its
    children; the popped node's own hit is pending nowhere else.
   */
  lemma PendingStep<V>(t: Trie<V>, frames: seq<Frame>, pushed: seq<Frame>)
    requires Linked(t.nodes) && frames != [] && Antichain(frames) && FramesIn(t.nodes, frames)
    requires pushed == Children(Top(frames), t.nodes[Top(frames).node].kids)
    ensures var f := Top(frames);
            var own := if t.nodes[f.node].item.Some? then {SearchResult(f.query, f.node, 0)} else {};
            && Pending(t, frames) == Pending(t, Pop(frames) + pushed) + own
            && own !! Pending(t, Pop(frames) + pushed)
  {
    var f := Top(frames);
    var rest := Pop(frames);
    PendingAppend(t, rest, pushed);
    ChildHits(t, f, pushed);
    var own := if t.nodes[f.node].item.Some? then {SearchResult(f.query, f.node, 0)} else {};
    assert Hits(t, f) == own + Pending(t, pushed);
    forall r | r in own ensures r !in Pending(t, rest + pushed) {
      PendingMember(t, rest, r);
      PendingMember(t, pushed, r);
      forall i | 0 <= i < |rest| ensures r !in Hits(t, rest[i]) {
        assert rest[i] == frames[i];
        assert !(frames[i].node <= frames[|frames| - 1].node);
      }
      forall i | 0 <= i < |pushed| ensures r !in Hits(t, pushed[i]) {
        assert |pushed[i].node| > |f.node|;
      }
    }
  }

  /** Below a node, the stored keys other than its own lie below exactly one child. */
  lemma ChildHits<V>(t: Trie<V>, f: Frame, pushed: seq<Frame>)
    requires Linked(t.nodes) && f.node in t.nodes && pushed == Children(f, t.nodes[f.node].kids)
    ensures Hits(t, f) == (if t.nodes[f.node].item.Some? then {SearchResult(f.query, f.node, 0)} else {})
                          + Pending(t, pushed)
  {
    var kids := t.nodes[f.node].kids;
    forall r | r in Hits(t, f) && r.target != f.node ensures r in Pending(t, pushed) {
      var k := r.target;
      assert k in t.nodes && f.node <= k;
      var d := |f.node|;
      PrefixClosed(t.nodes, k, d + 1);
      var ch := k[..d + 1];
      assert Parent(ch) == f.node;
      assert Last(ch) in kids;
      var i :| 0 <= i < |kids| && kids[i] == Last(ch);
      assert pushed[i].node == ch;
      assert r in Hits(t, pushed[i]);
      PendingMember(t, pushed, r);
    }
    forall r | r in Pending(t, pushed) ensures r in Hits(t, f) {
      PendingMember(t, pushed, r);
      var i :| 0 <= i < |pushed| && r in Hits(t, pushed[i]);
      assert f.node <= pushed[i].node;
    }
  }

  /** Calling `Next` until it reports nothing, collecting what it reports. */
  function Drain<V>(t: Trie<V>, it: Iter): (r: seq<SearchResult>)
    requires Inv(t, it)
    ensures r == [] <==> Pending(t, it.frames) == {}
    decreases |Reach(t.nodes, it.frames)|
  {
    var s := Next(t, it);
    if s.result.None? then [] else [s.result.value] + Drain(t, s.iter)
  }

  /** A drained search reports exactly what was pending, each hit once. */
  lemma {:induction false} DrainExact<V>(t: Trie<V>, it: Iter)
    requires Inv(t, it)
    ensures Lists(Drain(t, it), Pending(t, it.frames))
    decreases |Reach(t.nodes, it.frames)|
  {
    var s := Next(t, it);
    if s.result.Some? {
      DrainExact(t, s.iter);
      ListsCons(s.result.value, Drain(t, s.iter), Pending(t, it.frames));
    }
  }

  /** A suffix search run to the end reports every stored key extending the prefix, once. */
  lemma SearchExact<V>(t: Trie<V>, key: Key)
    requires Valid(t) && key in t.nodes
    ensures var it := Open(t, Some(key)).iter.value;
            Lists(Drain(t, it), Expected(t, key))
  {
    DrainExact(t, Open(t, Some(key)).iter.value);
  }

  /** What is pending depends on which keys are stored, not on values or marks. */
  lemma {:induction false} PendingSameKeys<V>(t: Trie<V>, u: Trie<V>, frames: seq<Frame>)
    requires Items(u).Keys == Items(t).Keys
    ensures Pending(u, frames) == Pending(t, frames)
    decreases |frames|
  {
    if frames != [] {
      PendingSameKeys(t, u, Pop(frames));
      assert Hits(u, Top(frames)) == Hits(t, Top(frames));
    }
  }
}
