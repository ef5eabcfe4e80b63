/**
  `trieiter_next`, the entry point the three searches share.  It refuses an
  iterator whose trie has gained or lost a key since the iterator was made
  (E_OUT_OF_SYNC), refuses a dirty iterator whose slot a newer dirty
  iterator has taken (E_REPLACED), and otherwise runs the search's own
  next-function.  The lemmas here say what trie updates and other iterators
  do to a live iterator.
 */
module IterEngine {
  import opened Wrappers
  import opened Keys
  import opened Tries
  import opened TrieIters
  import opened TrieUpdates
  import S = SuffixSearch
  import N = NeighborSearch
  import P = PairSearch
  import W = PairNext

  /** In step with the trie and, if dirty, still holding the slot: the guards let it through. */
  predicate Current<V>(t: Trie<V>, it: Iter) {
    it.stateId == t.stateId && (it.isDirty ==> HoldsSlot(t, it))
  }

  /** The invariant of the iterator's own search. */
  ghost predicate WalkInv<V>(t: Trie<V>, it: Iter) {
    match it.policy
    case SuffixWalk => S.Inv(t, it)
    case NeighborWalk => N.Inv(t, it)
    case PairWalk => P.Inv(t, it)
  }

  /** The hits the iterator's search has still to report. */
  ghost function Owed<V>(t: Trie<V>, it: Iter): set<SearchResult> {
    match it.policy
    case SuffixWalk => S.Pending(t, it.frames)
    case NeighborWalk => N.Pending(t, it.maxhd, it.frames)
    case PairWalk => P.Pending(it)
  }

  /**
    What holds of every iterator between calls: it was made from this trie
    at some earlier revision under an issued ticket, and while the guards
    would let it through its search's invariant holds.
   */
  ghost predicate Healthy<V>(t: Trie<V>, it: Iter) {
    && Valid(t)
    && it.stateId <= t.stateId
    && (it.isDirty ==> it.ticket < t.nextTicket)
    && (Current(t, it) ==> WalkInv(t, it))
  }

  /**
    `trieiter_next`: an out-of-sync iterator records E_OUT_OF_SYNC, a
    replaced dirty iterator records E_REPLACED, and both report nothing and
    leave the trie alone; otherwise the search's next-function reports the
    next owed hit, only its explored marks change, and the hit is owed no
    longer.
   */
  function Next<V>(t: Trie<V>, it: Iter): (r: Step<V>)
    requires Healthy(t, it)
    ensures Healthy(r.trie, r.iter) && MarksOnly(t, r.trie)
    ensures r.iter == it.(frames := r.iter.frames, queue := r.iter.queue, errcode := r.iter.errcode)
    ensures it.stateId != t.stateId ==>
              r.result.None? && r.trie == t && r.iter == it.(errcode := E_OUT_OF_SYNC)
    ensures it.stateId == t.stateId && it.isDirty && !HoldsSlot(t, it) ==>
              r.result.None? && r.trie == t && r.iter == it.(errcode := E_REPLACED)
    ensures Current(t, it) ==>
              && r.iter.errcode == it.errcode && Current(r.trie, r.iter)
              && (r.result.None? ==> Owed(t, it) == {})
              && (r.result.Some? ==>
                    && r.result.value in Owed(t, it)
                    && Owed(r.trie, r.iter) == Owed(t, it) - {r.result.value})
  {
    if it.stateId != t.stateId then Step(t, it.(errcode := E_OUT_OF_SYNC), None)
    else if it.isDirty && !HoldsSlot(t, it) then Step(t, it.(errcode := E_REPLACED), None)
    else
      match it.policy
      case SuffixWalk => S.Next(t, it)
      case NeighborWalk => N.Next(t, it)
      case PairWalk =>
        var r := W.Next(t, it);
        MarksOnlyValid(t, r.trie);
        r
  }

  // ---------------------------------------------------------------------
  // Opening a search

  /** A new suffix search meets what `Next` asks, and owes the expected hits. */
  lemma SuffixOpenHealthy<V>(t: Trie<V>, key: Key)
    requires Valid(t) && key in t.nodes
    ensures var o := S.Open(t, Some(key));
            && o.iter.Some? && Healthy(o.trie, o.iter.value) && Current(o.trie, o.iter.value)
            && Owed(o.trie, o.iter.value) == S.Expected(t, key)
  {
  }

  /** A new neighbour search meets what `Next` asks, and owes the expected hits. */
  lemma NeighborOpenHealthy<V>(t: Trie<V>, key: Key, maxhd: int)
    requires Valid(t) && key in Items(t) && maxhd >= 1
    ensures var o := N.Open(t, Some(key), maxhd);
            && o.iter.Some? && Healthy(o.trie, o.iter.value) && Current(o.trie, o.iter.value)
            && Owed(o.trie, o.iter.value) == N.Expected(t, key, maxhd)
  {
  }

  /** A new pair search meets what `Next` asks and holds the dirty slot. */
  lemma PairOpenHealthy<V>(t: Trie<V>, keylen: int, maxhd: int)
    requires Valid(t) && keylen >= 1 && maxhd >= 0
    ensures var o := P.Open(t, keylen, maxhd);
            && o.iter.Some? && Healthy(o.trie, o.iter.value) && Current(o.trie, o.iter.value)
            && HoldsSlot(o.trie, o.iter.value)
  {
  }

  // ---------------------------------------------------------------------
  // Errors stick

  /** A refused iterator is refused again, with the same error, on the next call while the trie is unchanged. */
  lemma RefusedStaysRefused<V>(t: Trie<V>, it: Iter)
    requires Healthy(t, it) && !Current(t, it)
    ensures var r := Next(t, it);
            && !Current(r.trie, r.iter) && r.result.None?
            && Next(r.trie, r.iter) == r
  {
  }

  /**
    `u` is a later state of `t`: the revision and the ticket counter only
    grow, and while the revision stands still the dirty slot either stays,
    empties, or goes to a ticket issued after `t`.
   */
  ghost predicate Later<V>(t: Trie<V>, u: Trie<V>) {
    && t.stateId <= u.stateId && t.nextTicket <= u.nextTicket
    && (u.stateId == t.stateId ==>
          u.dirty == t.dirty || u.dirty.None? || u.dirty.value >= t.nextTicket)
  }

  lemma LaterTrans<V>(t: Trie<V>, u: Trie<V>, w: Trie<V>)
    requires Later(t, u) && Later(u, w)
    ensures Later(t, w)
  {
  }

  /** `trie_set_item`, successful or not, leads to a later state. */
  lemma SetItemLater<V>(t: Trie<V>, key: Option<Key>, v: V, dealloc: bool)
    requires Valid(t)
    ensures Later(t, SetItem(t, key, v, dealloc).trie)
  {
  }

  /** `trie_del_item`, successful or not, leads to a later state. */
  lemma DelItemLater<V>(t: Trie<V>, key: Option<Key>, dealloc: bool)
    requires Valid(t)
    ensures Later(t, DelItem(t, key, dealloc).trie)
  {
  }

  /** Creating any iterator leads to a later state. */
  lemma NewIterLater<V>(t: Trie<V>, policy: Policy, maxhd: int, targetDepth: int, lenQuery: int,
                        queue: seq<Path>, isDirty: bool)
    requires Valid(t)
    ensures Later(t, NewIter(t, policy, maxhd, targetDepth, lenQuery, queue, isDirty).trie)
  {
  }

  /** Freeing any iterator leads to a later state. */
  lemma FreeIterLater<V>(t: Trie<V>, it: Iter)
    requires Valid(t)
    ensures Later(t, FreeIter(t, it))
  {
  }

  /** A call on any iterator leads to a later state. */
  lemma NextLater<V>(t: Trie<V>, b: Iter)
    requires Healthy(t, b)
    ensures Later(t, Next(t, b).trie)
  {
  }

  /**
    A refused iterator stays refused in every later state, whatever the
    other iterators and the updates did in between.  An out-of-sync iterator
    stays out of sync; a replaced one is replaced again or, once the
    revision has moved, out of sync.
   */
  lemma RefusedLater<V>(t: Trie<V>, u: Trie<V>, it: Iter)
    requires Healthy(t, it) && !Current(t, it) && Valid(u) && Later(t, u)
    ensures Healthy(u, it) && !Current(u, it)
    ensures var r := Next(u, it);
            && r.result.None? && r.trie == u
            && (r.iter.errcode == E_OUT_OF_SYNC || r.iter.errcode == E_REPLACED)
            && (Next(t, it).iter.errcode == E_OUT_OF_SYNC ==> r.iter.errcode == E_OUT_OF_SYNC)
            && (r.iter.errcode == E_REPLACED ==> Next(t, it).iter.errcode == E_REPLACED)
  {
  }

  // ---------------------------------------------------------------------
  // Trie updates

  /** Same nodes, same links, the same keys stored: only values and marks may differ. */
  ghost predicate SameKeys<V>(t: Trie<V>, u: Trie<V>) {
    && SameShape(t.nodes, u.nodes)
    && forall p | p in t.nodes :: u.nodes[p].item.Some? == t.nodes[p].item.Some?
  }

  lemma SameKeysItems<V>(t: Trie<V>, u: Trie<V>)
    requires SameKeys(t, u)
    ensures Items(u).Keys == Items(t).Keys
  {
    assert forall k :: k in Items(u) <==> k in Items(t);
  }

  /**
    A clean search depends only on the keys stored: changing values or
    explored marks keeps it healthy and leaves what it owes unchanged.
   */
  lemma CleanKeeps<V>(t: Trie<V>, u: Trie<V>, it: Iter)
    requires Healthy(t, it) && !it.isDirty && Valid(u) && SameKeys(t, u) && u.stateId == t.stateId
    ensures Healthy(u, it) && Current(u, it) == Current(t, it)
    ensures Current(t, it) ==> Owed(u, it) == Owed(t, it)
  {
    if Current(t, it) {
      SameShapeLinked(t.nodes, u.nodes);
      SameKeysItems(t, u);
      match it.policy
      case SuffixWalk => S.PendingSameKeys(t, u, it.frames);
      case NeighborWalk => N.PendingSameKeys(t, u, it.maxhd, it.frames);
      case PairWalk =>
    }
  }

  /** Stored keys of `t` and `u` coincide when the same keys hold items. */
  lemma StoredSame<V>(t: Trie<V>, u: Trie<V>)
    requires SameKeys(t, u)
    ensures forall p :: P.Stored(u.nodes, p) == P.Stored(t.nodes, p)
  {
  }

  /**
    A pair search depends on the keys stored and the marks: changing values
    only keeps it healthy and leaves what it owes unchanged.
   */
  lemma DirtyKeeps<V>(t: Trie<V>, u: Trie<V>, it: Iter)
    requires Healthy(t, it) && it.policy == PairWalk && Valid(u) && SameKeys(t, u)
    requires forall p | p in t.nodes :: u.nodes[p].explored == t.nodes[p].explored
    requires u.stateId == t.stateId && u.dirty == t.dirty && u.nextTicket == t.nextTicket
    ensures Healthy(u, it) && Current(u, it) == Current(t, it)
  {
    if Current(t, it) {
      SameShapeLinked(t.nodes, u.nodes);
      StoredSame(t, u);
      MarksSame(t.nodes, u.nodes, it.queue, it.targetDepth);
      forall i | 0 <= i < |it.frames| ensures P.FrameOk(u.nodes, it, it.frames[i]) {
        assert P.FrameOk(t.nodes, it, it.frames[i]);
      }
    }
  }

  lemma MarksSame<V>(nodes: map<Path, Node<V>>, nodes': map<Path, Node<V>>, queue: seq<Path>, len: int)
    requires P.QueueOk(nodes, queue, len) && P.MarksOk(nodes, queue, len)
    requires nodes'.Keys == nodes.Keys
    requires forall p | p in nodes :: nodes'[p].explored == nodes[p].explored
    requires forall p :: P.Stored(nodes', p) == P.Stored(nodes, p)
    ensures P.QueueOk(nodes', queue, len) && P.MarksOk(nodes', queue, len)
  {
  }

  /**
    `trie_set_item` over a stored key changes no key and no revision: every
    iterator carries on where it was, owing what it owed.
   */
  lemma OverwriteKeeps<V>(t: Trie<V>, it: Iter, key: Key, v: V, dealloc: bool)
    requires Healthy(t, it) && key in Items(t)
    ensures var u := SetItem(t, Some(key), v, dealloc).trie;
            && Healthy(u, it) && Current(u, it) == Current(t, it)
            && (Current(t, it) ==> Owed(u, it) == Owed(t, it))
  {
    var u := SetItem(t, Some(key), v, dealloc).trie;
    assert forall p | p in t.nodes :: u.nodes[p].item.Some? == t.nodes[p].item.Some? by {
      forall p | p in t.nodes ensures u.nodes[p].item.Some? == t.nodes[p].item.Some? {
        assert p in Items(u) <==> p in Items(t);
      }
    }
    if it.isDirty {
      if it.policy == PairWalk {
        DirtyKeeps(t, u, it);
      }
    } else {
      CleanKeeps(t, u, it);
    }
  }

  /**
    `trie_set_item` of a new key moves the revision on: every iterator made
    before is out of sync from then on.
   */
  lemma InsertStales<V>(t: Trie<V>, it: Iter, key: Key, v: V, dealloc: bool)
    requires Healthy(t, it) && key !in Items(t)
    ensures var u := SetItem(t, Some(key), v, dealloc).trie;
            && Healthy(u, it) && it.stateId < u.stateId
            && Next(u, it).iter.errcode == E_OUT_OF_SYNC && Next(u, it).result.None?
  {
  }

  /**
    `trie_del_item` of a stored key moves the revision on: every iterator made
    before is out of sync from then on.
   */
  lemma DeleteStales<V>(t: Trie<V>, it: Iter, key: Key, dealloc: bool)
    requires Healthy(t, it) && key in Items(t)
    ensures var u := DelItem(t, Some(key), dealloc).trie;
            && Healthy(u, it) && it.stateId < u.stateId
            && Next(u, it).iter.errcode == E_OUT_OF_SYNC && Next(u, it).result.None?
  {
  }

  /**
    Storing a new key and deleting it again restores the same stored items,
    yet an iterator made before is out of sync: the revision only grows.
   */
  lemma AddThenDeleteStales<V>(t: Trie<V>, it: Iter, key: Key, v: V, d1: bool, d2: bool)
    requires Healthy(t, it) && key !in Items(t)
    ensures var u := SetItem(t, Some(key), v, d1).trie;
            var w := DelItem(u, Some(key), d2).trie;
            && Items(w) == Items(t) && Healthy(w, it)
            && Next(w, it).iter.errcode == E_OUT_OF_SYNC && Next(w, it).result.None?
  {
    var u := SetItem(t, Some(key), v, d1).trie;
    InsertStales(t, it, key, v, d1);
    assert Items(u) == Items(t)[key := v];
    DeleteStales(u, it, key, d2);
    AddRemove(Items(t), key, v);
  }

  lemma AddRemove<K, X>(m: map<K, X>, k: K, x: X)
    requires k !in m
    ensures m[k := x] - {k} == m
  {
  }

  // ---------------------------------------------------------------------
  // Other iterators

  /** Another iterator's call leaves a clean iterator healthy and owing what it owed. */
  lemma OthersKeepClean<V>(t: Trie<V>, a: Iter, b: Iter)
    requires Healthy(t, a) && Healthy(t, b) && !b.isDirty
    ensures var r := Next(t, a);
            && Healthy(r.trie, b) && Current(r.trie, b) == Current(t, b)
            && (Current(t, b) ==> Owed(r.trie, b) == Owed(t, b))
  {
    var r := Next(t, a);
    CleanKeeps(t, r.trie, b);
  }

  /**
    `trieiter_hammingpairs` takes the dirty slot: an older dirty iterator is
    replaced from then on, while clean iterators carry on undisturbed.
   */
  lemma NewPairsReplaces<V>(t: Trie<V>, a: Iter, keylen: int, maxhd: int)
    requires Healthy(t, a) && P.Open(t, keylen, maxhd).iter.Some?
    ensures var u := P.Open(t, keylen, maxhd).trie;
            && Healthy(u, a)
            && (a.isDirty ==> !Current(u, a))
            && (a.isDirty && a.stateId == t.stateId ==> Next(u, a).iter.errcode == E_REPLACED)
            && (!a.isDirty ==> Current(u, a) == Current(t, a))
            && (!a.isDirty && Current(t, a) ==> Owed(u, a) == Owed(t, a))
  {
    var o := P.Open(t, keylen, maxhd);
    var u := o.trie;
    assert u.dirty == Some(o.iter.value.ticket);
    if !a.isDirty {
      CleanKeeps(t, u, a);
    }
  }

  /**
    `trieiter_free` of the dirty iterator clears the marks and the slot;
    clean iterators carry on undisturbed.
   */
  lemma FreeKeepsClean<V>(t: Trie<V>, a: Iter, b: Iter)
    requires Healthy(t, a) && Healthy(t, b) && !b.isDirty
    ensures var u := FreeIter(t, a);
            && Healthy(u, b) && Current(u, b) == Current(t, b)
            && (Current(t, b) ==> Owed(u, b) == Owed(t, b))
  {
    CleanKeeps(t, FreeIter(t, a), b);
  }
}
