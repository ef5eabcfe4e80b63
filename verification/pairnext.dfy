/**
  The walk of the pair search (`trieiter_hammingpairs_next`): one call
  reports the next pending pair, taking up queued keys as queries and
  visiting saved states until a stored key turns up.
 */
module PairNext {
  import opened Wrappers
  import opened Keys
  import opened Tries
  import opened TrieIters
  import opened PairSearch

  /**
    `trieiter_hammingpairs_next`: with no saved state, take up the last
    queued key as the query, mark it explored and start from the root.
    Otherwise pop a state: at the target depth a stored key is the next hit
    and a node without an item is marked explored; above it the unexplored
    children within budget are pushed, and the node is marked explored when
    all of its children are.  An empty stack and queue end the search.
    Each call reports one pending pair and removes only it.
   */
  function Next<V>(t: Trie<V>, it: Iter): (r: Step<V>)
    requires Inv(t, it)
    ensures Reports(t, it, r)
    decreases |it.queue|, |Reach(t.nodes, it.frames)|, 1
  {
    if it.frames == [] && it.queue == [] then Step(t, it, None)
    else if it.frames == [] then NextQuery(t, it)
    else NextVisit(t, it)
  }

  /**
    What one call leaves behind: only marks changed, the invariant holds, only
    the stack and the queue moved, and the result is a pending pair that is
    no longer pending, or nothing when nothing was pending.
   */
  ghost predicate Reports<V>(t: Trie<V>, it: Iter, r: Step<V>) {
    MarksOnly(t, r.trie) && Inv(r.trie, r.iter) && Answers(it, r)
  }

  /** Only the stack and the queue moved, and the result is what was pending. */
  ghost predicate Answers<V>(it: Iter, r: Step<V>) {
    && r.iter == it.(frames := r.iter.frames, queue := r.iter.queue)
    && (r.result.None? ==> Pending(it) == {} && r.iter.frames == [] && r.iter.queue == [])
    && (r.result.Some? ==>
          && r.result.value in Pending(it)
          && Pending(r.iter) == Pending(it) - {r.result.value})
  }

  /** The stack is empty: take up the next query and carry on. */
  function NextQuery<V>(t: Trie<V>, it: Iter): (r: Step<V>)
    requires Inv(t, it) && it.frames == [] && it.queue != []
    ensures Reports(t, it, r)
    decreases |it.queue|, |Reach(t.nodes, it.frames)|, 0
  {
    var q := it.queue[|it.queue| - 1];
    TakeStep(t, it);
    var t1 := Mark(t, q);
    var r := Next(t1, it.(frames := [Root(q)], queue := it.queue[..|it.queue| - 1]));
    MarksOnlyTrans(t, t1, r.trie);
    r
  }

  /** Visit the top state: report its key, or carry on. */
  function NextVisit<V>(t: Trie<V>, it: Iter): (r: Step<V>)
    requires Inv(t, it) && it.frames != []
    ensures Reports(t, it, r)
    decreases |it.queue|, |Reach(t.nodes, it.frames)|, 0
  {
    var f := Top(it.frames);
    InvVisitable(t, it);
    VisitStep(t, it);
    var t1 := Visit(t, it);
    var it1 := it.(frames := Advance(t, it));
    ReachSameKeys(t.nodes, t1.nodes, it1.frames);
    if f.depth == it.targetDepth && t.nodes[f.node].item.Some? then
      VisitReport(t, it);
      Step(t1, it1, Some(SearchResult(f.query, f.node, f.hd)))
    else
      var r := Next(t1, it1);
      VisitOn(t, it, r);
      r
  }

  lemma VisitReport<V>(t: Trie<V>, it: Iter)
    requires Inv(t, it) && Visitable(t, it) && Top(it.frames).depth == it.targetDepth
    requires Top(it.frames).node in t.nodes && t.nodes[Top(it.frames).node].item.Some?
    ensures var f := Top(it.frames);
            Reports(t, it, Step(Visit(t, it), it.(frames := Advance(t, it)), Some(SearchResult(f.query, f.node, f.hd))))
  {
    VisitStep(t, it);
    VisitPending(t, it);
  }

  /** A visit that reports nothing passes the next call's answer through. */
  lemma VisitOn<V>(t: Trie<V>, it: Iter, r: Step<V>)
    requires Inv(t, it) && Visitable(t, it) && Own(t, it) == {}
    requires MarksOnly(Visit(t, it), r.trie) && Answers(it.(frames := Advance(t, it)), r)
    ensures MarksOnly(t, r.trie) && Answers(it, r)
  {
    VisitPending(t, it);
    MarksOnlyTrans(t, Visit(t, it), r.trie);
  }

  /** Visiting the top state moves its pairs to its children, or reports its own key. */
  lemma VisitPending<V>(t: Trie<V>, it: Iter)
    requires Inv(t, it) && Visitable(t, it)
    ensures Top(it.frames).node in t.nodes
    ensures Pending(it) == Pending(it.(frames := Advance(t, it))) + Own(t, it)
    ensures Own(t, it) !! Pending(it.(frames := Advance(t, it)))
  {
    if Top(it.frames).depth == it.targetDepth {
      assert Advance(t, it) == Pop(it.frames);
      assert FrameOk(t.nodes, it, it.frames[|it.frames| - 1]);
      LeafPending(t, it);
    } else {
      InnerAdvance(t, it);
    }
  }

  /** Taking up the last queued key moves its pairs from the queue to the root state. */
  lemma TakeStep<V>(t: Trie<V>, it: Iter)
    requires Inv(t, it) && it.frames == [] && it.queue != []
    ensures var q := it.queue[|it.queue| - 1];
            var it1 := it.(frames := [Root(q)], queue := it.queue[..|it.queue| - 1]);
            && q in t.nodes && Inv(Mark(t, q), it1) && Pending(it1) == Pending(it)
  {
    TakeInv(t, it);
    TakePending(it);
  }


  /** Visiting the top state keeps the invariant and shrinks the walk. */
  lemma VisitStep<V>(t: Trie<V>, it: Iter)
    requires Inv(t, it) && Visitable(t, it)
    ensures Top(it.frames).node in t.nodes
    ensures Inv(Visit(t, it), it.(frames := Advance(t, it)))
    ensures |Reach(t.nodes, Advance(t, it))| < |Reach(t.nodes, it.frames)|
  {
    if Top(it.frames).depth == it.targetDepth {
      VisitLeaf(t, it);
    } else {
      VisitInner(t, it);
    }
  }

  // ---------------------------------------------------------------------
  // The whole search

  /** Calling `Next` until it reports nothing, collecting what it reports. */
  function Drain<V>(t: Trie<V>, it: Iter): (r: seq<SearchResult>)
    requires Inv(t, it)
    ensures r == [] <==> Pending(it) == {}
    decreases |Pending(it)|
  {
    var s := Next(t, it);
    NextShrinks(t, it);
    if s.result.None? then [] else [s.result.value] + Drain(s.trie, s.iter)
  }

  /**
    The pairs a drained search reports are exactly the pairs pending at the
    start, none of them twice.
   */
  lemma {:induction false} DrainExact<V>(t: Trie<V>, it: Iter)
    requires Inv(t, it)
    ensures Lists(Drain(t, it), Pending(it))
    decreases |Pending(it)|
  {
    var s := Next(t, it);
    NextShrinks(t, it);
    if s.result.Some? {
      DrainExact(s.trie, s.iter);
      ListsCons(s.result.value, Drain(s.trie, s.iter), Pending(it));
    }
  }

  lemma NextShrinks<V>(t: Trie<V>, it: Iter)
    requires Inv(t, it)
    ensures var s := Next(t, it);
            && Inv(s.trie, s.iter)
            && (s.result.None? ==> Pending(it) == {})
            && (s.result.Some? ==>
                  && s.result.value in Pending(it)
                  && Pending(s.iter) == Pending(it) - {s.result.value}
                  && |Pending(s.iter)| < |Pending(it)|)
  {
  }

  /**
    A freshly opened pair search owes exactly the pairs of distinct stored
    keys of the requested length within the distance budget, reported with
    their distance, and each unordered pair in only one orientation.
   */
  lemma OpenOwes<V>(t: Trie<V>, keylen: int, maxhd: int, a: Path, b: Path)
    requires Valid(t) && Open(t, keylen, maxhd).iter.Some?
    requires a in Items(t) && b in Items(t) && |a| == keylen && |b| == keylen
    ensures var p := Pending(Open(t, keylen, maxhd).iter.value);
            var ab := SearchResult(a, b, Hamming(b, a));
            var ba := SearchResult(b, a, Hamming(a, b));
            && (ab in p || ba in p <==> a != b && Hamming(a, b) <= maxhd)
            && !(ab in p && ba in p)
  {
    var it := Open(t, keylen, maxhd).iter.value;
    assert FramePending(it.queue, it.maxhd, []) == {};
    PairOwedOnce(it.queue, maxhd, a, b);
  }

  /** Everything a freshly opened pair search owes is such a pair. */
  lemma OpenOwesOnly<V>(t: Trie<V>, keylen: int, maxhd: int, r: SearchResult)
    requires Valid(t) && Open(t, keylen, maxhd).iter.Some?
    requires r in Pending(Open(t, keylen, maxhd).iter.value)
    ensures r.query in Items(t) && r.target in Items(t) && |r.query| == keylen && |r.target| == keylen
    ensures r.query != r.target && r.hd == Hamming(r.target, r.query) <= maxhd
  {
    var it := Open(t, keylen, maxhd).iter.value;
    assert FramePending(it.queue, it.maxhd, []) == {};
    QueuePendingMember(it.queue, maxhd, r);
    var i, j :| 0 <= j < i < |it.queue| && |it.queue[j]| == |it.queue[i]| && Hamming(it.queue[j], it.queue[i]) <= maxhd
                && r == SearchResult(it.queue[i], it.queue[j], Hamming(it.queue[j], it.queue[i]));
    assert it.queue[i] in it.queue && it.queue[j] in it.queue;
  }

  /**
    A pair search run to the end reports each unordered pair of distinct
    stored keys of the requested length within the budget exactly once, in
    one orientation, and no other pair.
   */
  lemma SearchOnce<V>(t: Trie<V>, keylen: int, maxhd: int, a: Path, b: Path)
    requires Valid(t) && keylen >= 1 && maxhd >= 0
    requires a in Items(t) && b in Items(t) && |a| == keylen && |b| == keylen
    ensures var o := Open(t, keylen, maxhd);
            var r := Drain(o.trie, o.iter.value);
            var ab := SearchResult(a, b, Hamming(b, a));
            var ba := SearchResult(b, a, Hamming(a, b));
            && (ab in r || ba in r <==> a != b && Hamming(a, b) <= maxhd)
            && !(ab in r && ba in r)
            && (forall i, j | 0 <= i < j < |r| :: r[i] != r[j])
  {
    var o := Open(t, keylen, maxhd);
    DrainExact(o.trie, o.iter.value);
    OpenOwes(t, keylen, maxhd, a, b);
  }

  /** Every pair a pair search reports joins two distinct stored keys of the requested length within the budget. */
  lemma SearchOnly<V>(t: Trie<V>, keylen: int, maxhd: int, x: SearchResult)
    requires Valid(t) && keylen >= 1 && maxhd >= 0
    requires x in Drain(Open(t, keylen, maxhd).trie, Open(t, keylen, maxhd).iter.value)
    ensures x.query in Items(t) && x.target in Items(t) && |x.query| == keylen && |x.target| == keylen
    ensures x.query != x.target && x.hd == Hamming(x.target, x.query) <= maxhd
  {
    var o := Open(t, keylen, maxhd);
    DrainExact(o.trie, o.iter.value);
    OpenOwesOnly(t, keylen, maxhd, x);
  }
}
