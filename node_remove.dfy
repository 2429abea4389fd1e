/**
 * `TrieNode::remove`: clear the entry at the path `q` when its owning key is
 * the one asked for, then compact the nodes on the way back up: an emptied
 * child is dropped from its slot and a non-root node left without an entry
 * and with a single child is merged into that child.
 */
module NodeRemove {
  import opened Wrappers
  import opened Nibbles
  import opened TrieNodes

  /**
   * Remove the entry owned by `key` at the remaining path `q` below `n`.
   * The removed value comes back only when the entry stored at `q` is owned
   * by `key` itself; otherwise nothing is removed and `n` is returned as it
   * was. A non-root result may be empty, and its parent then vacates its
   * slot; the root is never merged away.
   */
  function Remove<K(==), V>(n: Node<K, V>, key: K, q: seq<Nibble>, isRoot: bool): (r: (Node<K, V>, Option<V>))
    requires WellFormed(n, isRoot)
    requires isRoot ==> n.fragment == []
    requires !isRoot ==> |n.fragment| > 0 && |q| > 0 && q[0] == n.fragment[0]
    ensures r.1.Some? <==> Lookup(n, q).Some? && Lookup(n, q).value.key == key
    ensures r.1.Some? ==> r.1.value == Lookup(n, q).value.value
    ensures r.1.None? ==> r.0 == n
    ensures Structured(r.0)
    ensures WellFormed(r.0, isRoot) || IsEmpty(r.0)
    ensures isRoot ==> r.0.fragment == []
    ensures !isRoot && !IsEmpty(r.0) ==> |r.0.fragment| > 0 && r.0.fragment[0] == n.fragment[0]
    ensures forall p :: Lookup(r.0, p) == if r.1.Some? && p == q then None else Lookup(n, p)
    decreases n
  {
    var m := MatchCount(n.fragment, q);
    MatchCountPrefix(n.fragment, q);
    LookupUnfold(n, q);
    if m < |n.fragment| then
      (n, None)
    else if m == |q| then
      match n.kv
      case None => (n, None)
      case Some(kv) =>
        if kv.key != key then (n, None)
        else
          // The matching node: clear its entry, then compact it.
          var cleared := n.(kv := None);
          LookupReplaceEntry(n, None, q);
          assert Structured(cleared);
          (Compact(cleared, isRoot), Some(kv.value))
    else
      var idx := q[m];
      match n.children[idx]
      case None => (n, None)
      case Some(c) =>
        assert WellFormedChild(c, idx) && q[m..][0] == idx;
        var (c', v) := Remove(c, key, q[m..], false);
        if v.None? then (n, None)
        else
          var n' := Reattach(n, idx, c');
          ReattachCorrect(n, c, c', q);
          (Compact(n', isRoot), v)
  }

  /** Put the rebuilt child back in slot `i`, or vacate the slot if it came back empty. */
  function Reattach<K, V>(n: Node<K, V>, i: Nibble, c': Node<K, V>): (r: Node<K, V>)
    requires Structured(n) && n.children[i].Some?
    ensures r.fragment == n.fragment && r.kv == n.kv && |r.children| == |n.children|
    ensures r.children[i] == if IsEmpty(c') then None else Some(c')
    ensures forall j | 0 <= j < BranchFactor && j != i :: r.children[j] == n.children[j]
  {
    CountSomePositive(n.children, i);
    if IsEmpty(c') then n.(children := n.children[i := None], childCount := n.childCount - 1)
    else n.(children := n.children[i := Some(c')])
  }

  /**
   * Compaction of one node: a non-root node without an entry and with a
   * single child is replaced by that child, its fragment lengthened by the
   * node's own. Every other node is left as it is.
   */
  function Compact<K, V>(n: Node<K, V>, isRoot: bool): (r: Node<K, V>)
    requires Structured(n)
    ensures Structured(r)
    ensures WellFormed(r, isRoot) || IsEmpty(r)
    ensures IsEmpty(r) ==> r == n
    ensures n.fragment <= r.fragment
    ensures isRoot || WellFormed(n, isRoot) ==> r == n
    ensures forall p :: Lookup(r, p) == Lookup(n, p)
  {
    if !isRoot && n.kv.None? && n.childCount == 1 then
      var i := FirstOccupied(n.children);
      var c := n.children[i].value;
      MergeCorrect(n, i);
      c.(fragment := n.fragment + c.fragment)
    else
      n
  }

  /** Merging the only child into a node without an entry loses no entry. */
  lemma MergeCorrect<K, V>(n: Node<K, V>, i: nat)
    requires Structured(n) && n.kv.None? && n.childCount == 1
    requires i < BranchFactor && n.children[i].Some?
    ensures WellFormed(n.children[i].value.(fragment := n.fragment + n.children[i].value.fragment), false)
    ensures forall p :: Lookup(n.children[i].value.(fragment := n.fragment + n.children[i].value.fragment), p) ==
                        Lookup(n, p)
  {
    var f, c := n.fragment, n.children[i].value;
    assert WellFormedChild(c, i);
    var merged := c.(fragment := f + c.fragment);
    assert Structured(merged);
    forall p
      ensures Lookup(merged, p) == Lookup(n, p)
    {
      PrependedLookup(c, f, p);
      LookupUnfold(n, p);
      if f <= p {
        LookupUnfold(c, p[|f|..]);
        if |p| > |f| {
          var j := p[|f|];
          if n.children[j].Some? {
            CountSomeOne(n.children, i, j);
          }
        }
      }
    }
  }

  lemma ReattachCorrect<K, V>(n: Node<K, V>, c: Node<K, V>, c': Node<K, V>, q: seq<Nibble>)
    requires Structured(n)
    requires n.fragment <= q && |q| > |n.fragment|
    requires n.children[q[|n.fragment|]] == Some(c)
    requires Structured(c') && (WellFormed(c', false) || IsEmpty(c'))
    requires !IsEmpty(c') ==> |c'.fragment| > 0 && c'.fragment[0] == q[|n.fragment|]
    requires forall p :: Lookup(c', p) == if p == q[|n.fragment|..] then None else Lookup(c, p)
    ensures Structured(Reattach(n, q[|n.fragment|], c'))
    ensures Reattach(n, q[|n.fragment|], c').fragment == n.fragment
    ensures forall p :: Lookup(Reattach(n, q[|n.fragment|], c'), p) == if p == q then None else Lookup(n, p)
  {
    var idx := q[|n.fragment|];
    ReattachStructured(n, idx, c');
    var n' := Reattach(n, idx, c');
    forall t
      ensures LookupSlot(n'.children[idx], t) == if t == q[|n.fragment|..] then None else Lookup(c, t)
    {
      if IsEmpty(c') {
        EmptyLookup(c', t);
      }
    }
    forall p
      ensures Lookup(n', p) == if p == q then None else Lookup(n, p)
    {
      RemovedBelowSlot(n, n', c, q, p);
    }
  }

  /**
   * When the slot that `q` leaves `n` through now stores what it stored
   * before except for `q`'s own entry, `n` loses exactly that entry.
   */
  lemma RemovedBelowSlot<K, V>(n: Node<K, V>, n': Node<K, V>, c: Node<K, V>, q: seq<Nibble>, p: seq<Nibble>)
    requires Shaped(n) && Shaped(n')
    requires n'.fragment == n.fragment && n'.kv == n.kv
    requires n.fragment <= q && |q| > |n.fragment|
    requires n.children[q[|n.fragment|]] == Some(c)
    requires forall j | 0 <= j < BranchFactor && j != q[|n.fragment|] :: n'.children[j] == n.children[j]
    requires forall t :: LookupSlot(n'.children[q[|n.fragment|]], t) ==
                         if t == q[|n.fragment|..] then None else Lookup(c, t)
    ensures Lookup(n', p) == if p == q then None else Lookup(n, p)
  {
    var f := n.fragment;
    LookupUnfold(n, p);
    LookupUnfold(n', p);
    if f <= p && |p| > |f| && p[|f|] == q[|f|] {
      SameTail(f, p, q);
    } else {
      assert p != q;
    }
  }

  lemma ReattachStructured<K, V>(n: Node<K, V>, i: Nibble, c': Node<K, V>)
    requires Structured(n) && n.children[i].Some?
    requires Structured(c') && (WellFormed(c', false) || IsEmpty(c'))
    requires !IsEmpty(c') ==> |c'.fragment| > 0 && c'.fragment[0] == i
    ensures Structured(Reattach(n, i, c'))
  {
    var n' := Reattach(n, i, c');
    if IsEmpty(c') {
      CountSomeUpdate(n.children, i, None);
      assert n'.children == n.children[i := None];
    } else {
      assert WellFormedChild(c', i);
      CountSomeUpdate(n.children, i, Some(c'));
      assert n'.children == n.children[i := Some(c')];
    }
    assert Shaped(n');
  }
}
