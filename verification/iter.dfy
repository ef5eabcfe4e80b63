/**
  The iterator engine shared by the three searches: the stack of saved states
  of a resumable depth-first walk, the snapshot of the trie's revision taken
  at creation, the dirty-iterator slot, and the error codes.

  An iterator is a value.  Its identity, which the C code takes from its
  address, is a ticket number drawn from the trie when a dirty iterator is
  created; only a dirty iterator can ever be named by the trie's slot.
 */
module TrieIters {
  import opened Wrappers
  import opened Keys
  import opened Tries

  const E_SUCCESS: int := 0
  const E_OUT_OF_SYNC: int := -1
  const E_REPLACED: int := -2

  /** The next-function an iterator was created with. */
  datatype Policy = SuffixWalk | NeighborWalk | PairWalk

  /**
    One saved state of a walk: the node to visit, the node of the query
    string, the Hamming distance accumulated so far, and the depth.
   */
  datatype Frame = Frame(node: Path, query: Path, hd: int, depth: int)

  /**
    `frames` is the state stack, top last.  `queue` is the list of query
    strings the all-pairs search has still to take up, next last.
   */
  datatype Iter = Iter(
    policy: Policy,
    frames: seq<Frame>,
    stateId: nat,
    errcode: int,
    isDirty: bool,
    ticket: nat,
    maxhd: int,
    targetDepth: int,
    lenQuery: int,
    queue: seq<Path>)

  /** A hit: the query's node, the target's node, and their distance. */
  datatype SearchResult = SearchResult(query: Path, target: Path, hd: int)

  /** What one call of a next-function leaves behind. */
  datatype Step<V> = Step(trie: Trie<V>, iter: Iter, result: Option<SearchResult>)

  /** What a constructor leaves behind; no iterator when it refuses. */
  datatype Opened<V> = Opened(trie: Trie<V>, iter: Option<Iter>)

  // ---------------------------------------------------------------------
  // Explored marks

  /** Only explored marks differ; the structure, items and counters are untouched. */
  ghost predicate MarksOnly<V>(t: Trie<V>, t': Trie<V>) {
    && t' == t.(nodes := t'.nodes)
    && SameShape(t.nodes, t'.nodes)
    && forall p | p in t.nodes :: t'.nodes[p].item == t.nodes[p].item
  }

  lemma MarksOnlyValid<V>(t: Trie<V>, t': Trie<V>)
    requires Valid(t) && MarksOnly(t, t') && (t.dirty.None? ==> NoneExplored(t'.nodes))
    ensures Valid(t') && Items(t') == Items(t)
  {
    SameShapeLinked(t.nodes, t'.nodes);
    ItemsAgree(t, t');
  }

  lemma MarksOnlyTrans<V>(t: Trie<V>, u: Trie<V>, w: Trie<V>)
    requires MarksOnly(t, u) && MarksOnly(u, w)
    ensures MarksOnly(t, w)
  {
  }

  /** Marking `p` explored, as the dirty walk does when it is finished with a node. */
  function Mark<V>(t: Trie<V>, p: Path): (r: Trie<V>)
    requires p in t.nodes
    ensures MarksOnly(t, r) && r.nodes[p].explored
    ensures forall q | q in t.nodes && q != p :: r.nodes[q] == t.nodes[q]
  {
    t.(nodes := t.nodes[p := t.nodes[p].(explored := true)])
  }

  /** `trie_reset`: clear the explored mark of every node. */
  function ResetMarks<V>(t: Trie<V>): (r: Trie<V>)
    ensures MarksOnly(t, r) && NoneExplored(r.nodes)
  {
    t.(nodes := map p | p in t.nodes :: t.nodes[p].(explored := false))
  }

  // ---------------------------------------------------------------------
  // Creation and release

  /**
    `trieiter_new`: a negative distance bound or target depth refuses.  A
    dirty iterator takes the trie's slot under a fresh ticket, first clearing
    every explored mark if another dirty iterator held the slot.
   */
  function NewIter<V>(t: Trie<V>, policy: Policy, maxhd: int, targetDepth: int, lenQuery: int,
                      queue: seq<Path>, isDirty: bool): (r: Opened<V>)
    requires Valid(t)
    ensures Valid(r.trie) && MarksOnly(t, r.trie.(nextTicket := t.nextTicket, dirty := t.dirty))
    ensures maxhd < 0 || targetDepth < 0 <==> r.iter.None?
    ensures r.iter.None? || !isDirty ==> r.trie == t
    ensures r.iter.Some? ==>
              var it := r.iter.value;
              && it.frames == [] && it.stateId == t.stateId && it.errcode == E_SUCCESS
              && it.policy == policy && it.isDirty == isDirty && it.maxhd == maxhd
              && it.targetDepth == targetDepth && it.lenQuery == lenQuery && it.queue == queue
    ensures r.iter.Some? && isDirty ==>
              && r.trie.dirty == Some(r.iter.value.ticket)
              && r.iter.value.ticket == t.nextTicket && r.trie.nextTicket == t.nextTicket + 1
              && NoneExplored(r.trie.nodes)
              && (t.dirty.None? ==> r.trie.nodes == t.nodes)
  {
    if maxhd < 0 || targetDepth < 0 then Opened(t, None)
    else
      var it := Iter(policy, [], t.stateId, E_SUCCESS, isDirty, if isDirty then t.nextTicket else 0,
                     maxhd, targetDepth, lenQuery, queue);
      if !isDirty then Opened(t, Some(it))
      else
        var t1 := if t.dirty.Some? then ResetMarks(t) else t;
        MarksOnlyValid(t, t1);
        var t2 := t1.(dirty := Some(t.nextTicket), nextTicket := t.nextTicket + 1);
        Opened(t2, Some(it))
  }

  /** The iterator holds the trie's dirty slot. */
  predicate HoldsSlot<V>(t: Trie<V>, it: Iter) {
    it.isDirty && t.dirty == Some(it.ticket)
  }

  /**
    `trieiter_free`: the iterator that holds the dirty slot clears every mark
    and empties the slot; freeing any other iterator leaves the trie alone.
   */
  function FreeIter<V>(t: Trie<V>, it: Iter): (r: Trie<V>)
    requires Valid(t)
    ensures Valid(r) && MarksOnly(t, r.(dirty := t.dirty))
    ensures HoldsSlot(t, it) ==> r.dirty.None? && NoneExplored(r.nodes)
    ensures !HoldsSlot(t, it) ==> r == t
  {
    if HoldsSlot(t, it) then
      var t1 := ResetMarks(t);
      MarksOnlyValid(t, t1);
      t1.(dirty := None)
    else t
  }

  // ---------------------------------------------------------------------
  // The state stack

  /** Some saved state lies on the path to `q`. */
  ghost predicate Covers(frames: seq<Frame>, q: Path) {
    exists i | 0 <= i < |frames| :: frames[i].node <= q
  }

  /** The nodes a walk may still reach: those at or below a saved state. */
  ghost function Reach<V>(nodes: map<Path, Node<V>>, frames: seq<Frame>): set<Path> {
    set q | q in nodes && Covers(frames, q)
  }

  /** What a walk can reach depends on the trie's nodes only, not on their marks. */
  lemma ReachSameKeys<V>(nodes: map<Path, Node<V>>, nodes': map<Path, Node<V>>, frames: seq<Frame>)
    requires nodes'.Keys == nodes.Keys
    ensures Reach(nodes', frames) == Reach(nodes, frames)
  {
  }

  /** No saved state lies at or below another, so no node is reached twice. */
  ghost predicate Antichain(frames: seq<Frame>) {
    forall i, j | 0 <= i < |frames| && 0 <= j < |frames| && i != j :: !(frames[i].node <= frames[j].node)
  }

  ghost predicate FramesIn<V>(nodes: map<Path, Node<V>>, frames: seq<Frame>) {
    forall i | 0 <= i < |frames| :: frames[i].node in nodes
  }

  /** The frames pushed for node `p`: distinct children of `p`. */
  ghost predicate ChildFrames<V>(nodes: map<Path, Node<V>>, p: Path, pushed: seq<Frame>) {
    && (forall i | 0 <= i < |pushed| :: pushed[i].node in nodes && pushed[i].node != [] && Parent(pushed[i].node) == p)
    && (forall i, j | 0 <= i < j < |pushed| :: pushed[i].node != pushed[j].node)
  }

  function Top(frames: seq<Frame>): Frame
    requires frames != []
  {
    frames[|frames| - 1]
  }

  function Pop(frames: seq<Frame>): seq<Frame>
    requires frames != []
  {
    frames[..|frames| - 1]
  }

  /** The prefixes of a non-root path are the path itself and the prefixes of its parent. */
  lemma ChildPrefix(a: Path, b: Path)
    requires b != []
    ensures a <= b <==> a == b || a <= Parent(b)
  {
    if a <= b && a != b {
      assert a == Parent(b)[..|a|];
    }
  }

  /**
    Popping the top state and pushing states for some of its children keeps
    the states an antichain inside the trie, and strictly shrinks what the
    walk can still reach: the popped node is visited for good.
   */
  lemma StepFrames<V>(nodes: map<Path, Node<V>>, frames: seq<Frame>, pushed: seq<Frame>)
    requires frames != [] && Antichain(frames) && FramesIn(nodes, frames)
    requires ChildFrames(nodes, Top(frames).node, pushed)
    ensures Antichain(Pop(frames) + pushed) && FramesIn(nodes, Pop(frames) + pushed)
    ensures Reach(nodes, Pop(frames) + pushed) <= Reach(nodes, frames) - {Top(frames).node}
    ensures |Reach(nodes, Pop(frames) + pushed)| < |Reach(nodes, frames)|
  {
    StepAntichain(frames, pushed, nodes);
    StepReach(nodes, frames, pushed);
    var top := Top(frames).node;
    assert top in Reach(nodes, frames) by {
      assert frames[|frames| - 1].node <= top;
    }
    SubsetCard(Reach(nodes, Pop(frames) + pushed), Reach(nodes, frames) - {top});
  }

  lemma StepAntichain<V>(frames: seq<Frame>, pushed: seq<Frame>, nodes: map<Path, Node<V>>)
    requires frames != [] && Antichain(frames) && FramesIn(nodes, frames)
    requires ChildFrames(nodes, Top(frames).node, pushed)
    ensures Antichain(Pop(frames) + pushed) && FramesIn(nodes, Pop(frames) + pushed)
  {
    var n := |frames| - 1;
    var top := frames[n].node;
    var rest := Pop(frames);
    var next := rest + pushed;
    forall i, j | 0 <= i < |next| && 0 <= j < |next| && i != j
      ensures !(next[i].node <= next[j].node)
    {
      if i < |rest| && j < |rest| {
        assert next[i] == frames[i] && next[j] == frames[j];
      } else if i >= |rest| && j >= |rest| {
        assert next[i] == pushed[i - |rest|] && next[j] == pushed[j - |rest|];
        assert |next[i].node| == |Parent(next[i].node)| + 1 == |next[j].node|;
      } else if i < |rest| {
        assert next[i] == frames[i] && next[j] == pushed[j - |rest|];
        ChildPrefix(next[i].node, next[j].node);
        ChildPrefix(top, next[j].node);
        assert !(frames[i].node <= frames[n].node) && !(frames[n].node <= frames[i].node);
      } else {
        assert next[j] == frames[j] && next[i] == pushed[i - |rest|];
        ChildPrefix(top, next[i].node);
        assert !(frames[n].node <= frames[j].node);
      }
    }
    forall i | 0 <= i < |next| ensures next[i].node in nodes {
      if i < |rest| { assert next[i] == frames[i]; } else { assert next[i] == pushed[i - |rest|]; }
    }
  }

  lemma StepReach<V>(nodes: map<Path, Node<V>>, frames: seq<Frame>, pushed: seq<Frame>)
    requires frames != [] && Antichain(frames)
    requires forall i | 0 <= i < |pushed| :: pushed[i].node != [] && Parent(pushed[i].node) == Top(frames).node
    ensures Reach(nodes, Pop(frames) + pushed) <= Reach(nodes, frames) - {Top(frames).node}
  {
    var n := |frames| - 1;
    var top := frames[n].node;
    var rest := Pop(frames);
    var next := rest + pushed;
    forall q | q in Reach(nodes, next) ensures q in Reach(nodes, frames) && q != top {
      var i :| 0 <= i < |next| && next[i].node <= q;
      if i < |rest| {
        assert next[i] == frames[i];
        assert !(frames[i].node <= frames[n].node);
      } else {
        assert next[i] == pushed[i - |rest|];
        ChildPrefix(top, next[i].node);
        assert top <= q && frames[n].node <= q;
        assert |q| >= |next[i].node| > |top|;
      }
    }
  }

  // ---------------------------------------------------------------------
  // Draining a search

  /** `r` lists the set `s`, each element once. */
  ghost predicate Lists(r: seq<SearchResult>, s: set<SearchResult>) {
    && (forall i, j | 0 <= i < j < |r| :: r[i] != r[j])
    && (forall x :: x in r <==> x in s)
  }

  lemma ListsCons(x: SearchResult, rest: seq<SearchResult>, s: set<SearchResult>)
    requires Lists(rest, s - {x}) && x in s
    ensures Lists([x] + rest, s)
  {
    var r := [x] + rest;
    forall i, j | 0 <= i < j < |r| ensures r[i] != r[j] {
      assert r[j] == rest[j - 1];
      if i > 0 {
        assert r[i] == rest[i - 1];
      }
    }
  }
}
