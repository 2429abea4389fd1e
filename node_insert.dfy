/**
 * `TrieNode::insert`: store an owning pair at the path `q`, splitting a
 * fragment where `q` leaves it. Four disjoint cases: an exact hit, a
 * descent into an occupied slot, a fresh leaf in an empty slot, and a split.
 */
module NodeInsert {
  import opened Wrappers
  import opened Nibbles
  import opened TrieNodes

  /**
   * Insert `(key, value)` along the remaining path `q` at `n`; yields the
   * new node and the value previously stored at `q`, whatever its key.
   * `isRoot` says whether `n` is the trie's root (it is never split, since
   * its fragment is empty); a non-root node is reached through the slot of
   * `q`'s first nibble.
   */
  function Insert<K, V>(n: Node<K, V>, key: K, value: V, q: seq<Nibble>, ghost isRoot: bool): (r: (Node<K, V>, Option<V>))
    requires WellFormed(n, isRoot)
    requires isRoot ==> n.fragment == []
    requires !isRoot ==> |n.fragment| > 0 && |q| > 0 && q[0] == n.fragment[0]
    ensures WellFormed(r.0, isRoot)
    ensures isRoot ==> r.0.fragment == []
    ensures !isRoot ==> |r.0.fragment| > 0 && r.0.fragment[0] == n.fragment[0]
    ensures r.1 == ValueOf(Lookup(n, q))
    ensures forall p :: Lookup(r.0, p) == if p == q then Some(KeyValue(key, value)) else Lookup(n, p)
    decreases n
  {
    var m := MatchCount(n.fragment, q);
    var kv := KeyValue(key, value);
    if m == |n.fragment| then
      MatchCountPrefix(n.fragment, q);
      if m == |q| then
        // Exact hit: install the pair here.
        HitCorrect(n, kv, q, isRoot);
        (n.(kv := Some(kv)), ValueOf(n.kv))
      else
        var idx := q[m];
        match n.children[idx]
        case Some(c) =>
          // Descend into the occupied slot.
          assert WellFormedChild(c, idx) && q[m..][0] == idx;
          var (c', prev) := Insert(c, key, value, q[m..], false);
          DescendCorrect(n, c, c', kv, q, isRoot);
          (n.(children := n.children[idx := Some(c')]), prev)
        case None =>
          // A fresh leaf in the empty slot.
          NewLeafCorrect(n, kv, q, isRoot);
          (n.(children := n.children[idx := Some(Leaf(q[m..], kv))], childCount := n.childCount + 1), None)
    else
      // `q` leaves the fragment part-way: split it.
      SplitCorrect(n, kv, q);
      (Split(n, kv, q), None)
  }

  /**
   * Cases 3 and 4: replace `n` by an intermediate node keyed by the common
   * part of its fragment and `q`, holding the shortened `n` and either a
   * fresh leaf for the rest of `q` or, when `q` ends there, the pair itself.
   */
  function Split<K, V>(n: Node<K, V>, kv: KeyValue<K, V>, q: seq<Nibble>): (r: Node<K, V>)
    requires MatchCount(n.fragment, q) < |n.fragment|
    ensures |r.fragment| == MatchCount(n.fragment, q) && r.fragment <= n.fragment && r.fragment <= q
    ensures r.kv.Some? ==> r.kv == Some(kv) && |q| == |r.fragment|
  {
    var m := MatchCount(n.fragment, q);
    var shortened := n.(fragment := n.fragment[m..]);
    if m < |q| then
      Node(n.fragment[..m], None,
           EmptySlots()[n.fragment[m] := Some(shortened)][q[m] := Some(Leaf(q[m..], kv))], 2)
    else
      Node(n.fragment[..m], Some(kv), EmptySlots()[n.fragment[m] := Some(shortened)], 1)
  }

  lemma HitCorrect<K, V>(n: Node<K, V>, kv: KeyValue<K, V>, q: seq<Nibble>, isRoot: bool)
    requires WellFormed(n, isRoot)
    requires n.fragment <= q && |q| == |n.fragment|
    ensures WellFormed(n.(kv := Some(kv)), isRoot)
    ensures Lookup(n, q) == n.kv
    ensures forall p :: Lookup(n.(kv := Some(kv)), p) == if p == q then Some(kv) else Lookup(n, p)
  {
    LookupReplaceEntry(n, Some(kv), q);
    assert Structured(n.(kv := Some(kv)));
  }

  lemma DescendCorrect<K, V>(n: Node<K, V>, c: Node<K, V>, c': Node<K, V>, kv: KeyValue<K, V>, q: seq<Nibble>, isRoot: bool)
    requires WellFormed(n, isRoot)
    requires n.fragment <= q && |q| > |n.fragment|
    requires n.children[q[|n.fragment|]] == Some(c)
    requires WellFormed(c', false) && |c'.fragment| > 0 && c'.fragment[0] == q[|n.fragment|]
    requires forall p :: Lookup(c', p) == if p == q[|n.fragment|..] then Some(kv) else Lookup(c, p)
    ensures WellFormed(n.(children := n.children[q[|n.fragment|] := Some(c')]), isRoot)
    ensures Lookup(n, q) == Lookup(c, q[|n.fragment|..])
    ensures forall p :: Lookup(n.(children := n.children[q[|n.fragment|] := Some(c')]), p) ==
                        if p == q then Some(kv) else Lookup(n, p)
  {
    var f, idx := n.fragment, q[|n.fragment|];
    var n' := n.(children := n.children[idx := Some(c')]);
    assert WellFormedChild(c, idx);
    CountSomeUpdate(n.children, idx, Some(c'));
    assert Structured(n');
    LookupUnfold(n, q);
    LookupReplaceChild(n, n', idx);
    forall p
      ensures Lookup(n', p) == if p == q then Some(kv) else Lookup(n, p)
    {
      LookupUnfold(n, p);
      if f <= p && |p| > |f| && p[|f|] == idx {
        SameTail(f, p, q);
      } else {
        assert p != q;
      }
    }
  }

  lemma NewLeafCorrect<K, V>(n: Node<K, V>, kv: KeyValue<K, V>, q: seq<Nibble>, isRoot: bool)
    requires WellFormed(n, isRoot)
    requires n.fragment <= q && |q| > |n.fragment|
    requires n.children[q[|n.fragment|]].None?
    ensures WellFormed(n.(children := n.children[q[|n.fragment|] := Some(Leaf(q[|n.fragment|..], kv))],
                          childCount := n.childCount + 1), isRoot)
    ensures Lookup(n, q).None?
    ensures forall p :: Lookup(n.(children := n.children[q[|n.fragment|] := Some(Leaf(q[|n.fragment|..], kv))],
                                  childCount := n.childCount + 1), p) ==
                        if p == q then Some(kv) else Lookup(n, p)
  {
    var f, idx := n.fragment, q[|n.fragment|];
    var leaf := Leaf(q[|f|..], kv);
    var n' := n.(children := n.children[idx := Some(leaf)], childCount := n.childCount + 1);
    LeafWellFormed(q[|f|..], kv, idx);
    CountSomeUpdate(n.children, idx, Some(leaf));
    assert Structured(n');
    LookupUnfold(n, q);
    LookupReplaceChild(n, n', idx);
    forall p
      ensures Lookup(n', p) == if p == q then Some(kv) else Lookup(n, p)
    {
      LookupUnfold(n, p);
      if f <= p && |p| > |f| && p[|f|] == idx {
        SameTail(f, p, q);
        LeafLookup(q[|f|..], kv, p[|f|..]);
      } else {
        assert p != q;
      }
    }
  }

  /** The shortened node, reached `m` nibbles further on, stores the same. */
  lemma ShortenedLookup<K, V>(n: Node<K, V>, m: nat, p: seq<Nibble>)
    requires Shaped(n)
    requires m < |n.fragment| && m <= |p| && p[..m] == n.fragment[..m]
    ensures Lookup(n.(fragment := n.fragment[m..]), p[m..]) == Lookup(n, p)
  {
    var f := n.fragment;
    var s := n.(fragment := f[m..]);
    assert s.(fragment := f[..m] + s.fragment) == n by {
      assert f[..m] + f[m..] == f;
    }
    PrependedLookup(s, f[..m], p);
  }

  lemma SplitCorrect<K, V>(n: Node<K, V>, kv: KeyValue<K, V>, q: seq<Nibble>)
    requires WellFormed(n, false) && |n.fragment| > 0 && |q| > 0 && q[0] == n.fragment[0]
    requires MatchCount(n.fragment, q) < |n.fragment|
    ensures WellFormed(Split(n, kv, q), false)
    ensures |Split(n, kv, q).fragment| > 0 && Split(n, kv, q).fragment[0] == n.fragment[0]
    ensures Lookup(n, q).None?
    ensures forall p :: Lookup(Split(n, kv, q), p) == if p == q then Some(kv) else Lookup(n, p)
  {
    MatchCountPrefix(n.fragment, q);
    LookupUnfold(n, q);
    SplitWellFormed(n, kv, q);
    forall p
      ensures Lookup(Split(n, kv, q), p) == if p == q then Some(kv) else Lookup(n, p)
    {
      SplitLookupAt(n, kv, q, p);
    }
  }

  /** The intermediate node of a split is a well-formed non-root node. */
  lemma SplitWellFormed<K, V>(n: Node<K, V>, kv: KeyValue<K, V>, q: seq<Nibble>)
    requires WellFormed(n, false) && |n.fragment| > 0 && |q| > 0 && q[0] == n.fragment[0]
    requires MatchCount(n.fragment, q) < |n.fragment|
    ensures WellFormed(Split(n, kv, q), false)
    ensures |Split(n, kv, q).fragment| > 0 && Split(n, kv, q).fragment[0] == n.fragment[0]
  {
    var f, m := n.fragment, MatchCount(n.fragment, q);
    assert m > 0 by {
      assert f[..1] == q[..1];
    }
    var shortened := n.(fragment := f[m..]);
    assert WellFormedChild(shortened, f[m]);
    if m < |q| {
      LeafWellFormed(q[m..], kv, q[m]);
      TwoChildren(f[..m], shortened, f[m], Leaf(q[m..], kv), q[m]);
    } else {
      OneChild(f[..m], Some(kv), shortened, f[m]);
    }
  }

  /** A node without an entry and with two well-formed children. */
  lemma TwoChildren<K, V>(fragment: seq<Nibble>, a: Node<K, V>, i: Nibble, b: Node<K, V>, j: Nibble)
    requires i != j && WellFormedChild(a, i) && WellFormedChild(b, j)
    ensures WellFormed(Node(fragment, None, EmptySlots()[i := Some(a)][j := Some(b)], 2), false)
  {
    var empty := EmptySlots<K, V>();
    CountSomeNone(empty);
    CountSomeUpdate(empty, i, Some(a));
    CountSomeUpdate(empty[i := Some(a)], j, Some(b));
    var s := empty[i := Some(a)][j := Some(b)];
    assert forall k | 0 <= k < BranchFactor :: s[k] == if k == j then Some(b) else if k == i then Some(a) else None;
    Assemble(fragment, None, s, 2);
  }

  /** A node with a single well-formed child; with an entry, it needs no compaction. */
  lemma OneChild<K, V>(fragment: seq<Nibble>, kv: Option<KeyValue<K, V>>, a: Node<K, V>, i: Nibble)
    requires WellFormedChild(a, i)
    ensures Structured(Node(fragment, kv, EmptySlots()[i := Some(a)], 1))
    ensures kv.Some? ==> WellFormed(Node(fragment, kv, EmptySlots()[i := Some(a)], 1), false)
  {
    var empty := EmptySlots<K, V>();
    CountSomeNone(empty);
    CountSomeUpdate(empty, i, Some(a));
    var s := empty[i := Some(a)];
    assert forall j | 0 <= j < BranchFactor :: s[j] == if j == i then Some(a) else None;
    Assemble(fragment, kv, s, 1);
  }

  /** Sixteen slots, counted right, each holding a child that belongs there, make a structured node. */
  lemma Assemble<K, V>(fragment: seq<Nibble>, kv: Option<KeyValue<K, V>>, s: seq<Option<Node<K, V>>>, count: nat)
    requires |s| == BranchFactor && count == CountSome(s)
    requires forall k | 0 <= k < BranchFactor :: s[k].Some? ==> WellFormedChild(s[k].value, k)
    ensures Structured(Node(fragment, kv, s, count))
  {
    var r := Node(fragment, kv, s, count);
    assert Shaped(r);
  }

  lemma SplitLookupAt<K, V>(n: Node<K, V>, kv: KeyValue<K, V>, q: seq<Nibble>, p: seq<Nibble>)
    requires Shaped(n) && |n.fragment| > 0 && |q| > 0 && q[0] == n.fragment[0]
    requires MatchCount(n.fragment, q) < |n.fragment|
    ensures Shaped(Split(n, kv, q))
    ensures Lookup(Split(n, kv, q), p) == if p == q then Some(kv) else Lookup(n, p)
  {
    var f, m := n.fragment, MatchCount(n.fragment, q);
    if m < |q| {
      BranchLookupAt(n, Split(n, kv, q), kv, q, m, p);
    } else {
      assert q == f[..m];
      PromoteLookupAt(n, Split(n, kv, q), kv, q, m, p);
    }
  }

  /** After a split that adds a leaf, the leaf stores the pair and the shortened node the rest. */
  lemma BranchLookupAt<K, V>(n: Node<K, V>, r: Node<K, V>, kv: KeyValue<K, V>, q: seq<Nibble>, m: nat, p: seq<Nibble>)
    requires Shaped(n) && m < |n.fragment| && m < |q|
    requires n.fragment[..m] == q[..m] && n.fragment[m] != q[m]
    requires r == Node(n.fragment[..m], None,
                       EmptySlots()[n.fragment[m] := Some(n.(fragment := n.fragment[m..]))][q[m] := Some(Leaf(q[m..], kv))], 2)
    ensures Shaped(r)
    ensures Lookup(r, p) == if p == q then Some(kv) else Lookup(n, p)
  {
    var f := n.fragment;
    var common := f[..m];
    var leaf := Leaf(q[m..], kv);
    assert forall k | 0 <= k < BranchFactor ::
        r.children[k] == if k == q[m] then Some(leaf) else if k == f[m] then Some(n.(fragment := f[m..])) else None;
    LeafLookup(q[m..], kv, []);
    assert Shaped(r);
    LookupUnfold(r, p);
    LookupUnfold(n, p);
    assert f == common + f[m..];
    if common <= p && |p| > m {
      if p[m] == f[m] {
        ShortenedLookup(n, m, p);
        assert p != q;
      } else if p[m] == q[m] {
        LeafLookup(q[m..], kv, p[m..]);
        SameTail(common, p, q);
      } else {
        assert p != q;
      }
    } else {
      assert p != q;
    }
  }

  /** After a split that promotes the pair, the new node stores it and the shortened node the rest. */
  lemma PromoteLookupAt<K, V>(n: Node<K, V>, r: Node<K, V>, kv: KeyValue<K, V>, q: seq<Nibble>, m: nat, p: seq<Nibble>)
    requires Shaped(n) && m < |n.fragment| && m == |q| && n.fragment[..m] == q
    requires r == Node(n.fragment[..m], Some(kv), EmptySlots()[n.fragment[m] := Some(n.(fragment := n.fragment[m..]))], 1)
    ensures Shaped(r)
    ensures Lookup(r, p) == if p == q then Some(kv) else Lookup(n, p)
  {
    var f := n.fragment;
    assert forall k | 0 <= k < BranchFactor ::
        r.children[k] == if k == f[m] then Some(n.(fragment := f[m..])) else None;
    assert Shaped(r);
    LookupUnfold(r, p);
    LookupUnfold(n, p);
    assert f == q + f[m..];
    if q <= p && |p| > m {
      if p[m] == f[m] {
        ShortenedLookup(n, m, p);
      }
    } else if q <= p {
      assert p == q;
    }
  }
}
