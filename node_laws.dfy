/**
 * Insertion and removal are inverse: removing a key just inserted at a path
 * that held nothing gives back the tree exactly as it was, node for node.
 * Each of the four insertion cases is undone by removal's compaction.
 */
module NodeLaws {
  import opened Wrappers
  import opened Nibbles
  import opened TrieNodes
  import opened NodeInsert
  import opened NodeRemove

  /** Inserting at a path that holds nothing and then removing the same key restores `n` exactly. */
  lemma InsertRemove<K, V>(n: Node<K, V>, key: K, value: V, q: seq<Nibble>, isRoot: bool)
    requires WellFormed(n, isRoot)
    requires isRoot ==> n.fragment == []
    requires !isRoot ==> |n.fragment| > 0 && |q| > 0 && q[0] == n.fragment[0]
    requires Lookup(n, q).None?
    ensures Remove(Insert(n, key, value, q, isRoot).0, key, q, isRoot) == (n, Some(value))
    decreases n
  {
    var f := n.fragment;
    var kv := KeyValue(key, value);
    var m := MatchCount(f, q);
    MatchCountPrefix(f, q);
    LookupUnfold(n, q);
    if m == |f| {
      if m == |q| {
        HitRemove(n, kv, q, isRoot);
      } else {
        var idx := q[m];
        match n.children[idx]
        case Some(c) =>
          assert WellFormedChild(c, idx) && q[m..][0] == idx;
          InsertRemove(c, key, value, q[m..], false);
          var c' := Insert(c, key, value, q[m..], false).0;
          DescendRemove(n, c, c', kv, q, isRoot);
        case None =>
          LeafRemove(n, kv, q, isRoot);
      }
    } else {
      assert !isRoot;
      SplitRemove(n, kv, q);
    }
  }

  /** The new pair was installed in `n` itself: clearing it leaves `n`, which needs no compaction. */
  lemma HitRemove<K, V>(n: Node<K, V>, kv: KeyValue<K, V>, q: seq<Nibble>, isRoot: bool)
    requires WellFormed(n, isRoot) && n.kv.None?
    requires isRoot ==> n.fragment == []
    requires !isRoot ==> |n.fragment| > 0 && |q| > 0 && q[0] == n.fragment[0]
    requires n.fragment <= q && |q| == |n.fragment|
    ensures WellFormed(n.(kv := Some(kv)), isRoot)
    ensures Remove(n.(kv := Some(kv)), kv.key, q, isRoot) == (n, Some(kv.value))
  {
    HitCorrect(n, kv, q, isRoot);
    var n' := n.(kv := Some(kv));
    MatchCountPrefix(n'.fragment, q);
    assert n'.(kv := None) == n;
  }

  /** The pair went into the child in `q`'s slot, and removal there gives that child back. */
  lemma DescendRemove<K, V>(n: Node<K, V>, c: Node<K, V>, c': Node<K, V>, kv: KeyValue<K, V>, q: seq<Nibble>, isRoot: bool)
    requires WellFormed(n, isRoot)
    requires isRoot ==> n.fragment == []
    requires !isRoot ==> |n.fragment| > 0 && |q| > 0 && q[0] == n.fragment[0]
    requires n.fragment <= q && |q| > |n.fragment|
    requires n.children[q[|n.fragment|]] == Some(c)
    requires WellFormed(c', false) && |c'.fragment| > 0 && c'.fragment[0] == q[|n.fragment|]
    requires forall p :: Lookup(c', p) == if p == q[|n.fragment|..] then Some(kv) else Lookup(c, p)
    requires Remove(c', kv.key, q[|n.fragment|..], false) == (c, Some(kv.value))
    ensures WellFormed(n.(children := n.children[q[|n.fragment|] := Some(c')]), isRoot)
    ensures Remove(n.(children := n.children[q[|n.fragment|] := Some(c')]), kv.key, q, isRoot) == (n, Some(kv.value))
  {
    var idx := q[|n.fragment|];
    DescendCorrect(n, c, c', kv, q, isRoot);
    var n' := n.(children := n.children[idx := Some(c')]);
    MatchCountPrefix(n'.fragment, q);
    assert WellFormedChild(c, idx);
    assert n'.children[idx := Some(c)] == n.children;
    assert Reattach(n', idx, c) == n;
  }

  /** Removing the only entry of a fresh leaf leaves an empty node. */
  lemma LeafRemoveEntry<K, V>(p: seq<Nibble>, kv: KeyValue<K, V>)
    requires |p| > 0
    ensures WellFormed(Leaf(p, kv), false)
    ensures Remove(Leaf(p, kv), kv.key, p, false) == (Leaf(p, kv).(kv := None), Some(kv.value))
    ensures IsEmpty(Leaf(p, kv).(kv := None))
  {
    LeafWellFormed(p, kv, p[0]);
    MatchCountPrefix(p, p);
    CountSomeNone(Leaf(p, kv).children);
    assert Structured(Leaf(p, kv).(kv := None));
  }

  /** The pair went into a fresh leaf in an empty slot: the leaf is emptied and its slot vacated. */
  lemma LeafRemove<K, V>(n: Node<K, V>, kv: KeyValue<K, V>, q: seq<Nibble>, isRoot: bool)
    requires WellFormed(n, isRoot)
    requires isRoot ==> n.fragment == []
    requires !isRoot ==> |n.fragment| > 0 && |q| > 0 && q[0] == n.fragment[0]
    requires n.fragment <= q && |q| > |n.fragment|
    requires n.children[q[|n.fragment|]].None?
    ensures WellFormed(n.(children := n.children[q[|n.fragment|] := Some(Leaf(q[|n.fragment|..], kv))],
                          childCount := n.childCount + 1), isRoot)
    ensures Remove(n.(children := n.children[q[|n.fragment|] := Some(Leaf(q[|n.fragment|..], kv))],
                      childCount := n.childCount + 1), kv.key, q, isRoot) == (n, Some(kv.value))
  {
    var idx := q[|n.fragment|];
    var rest := q[|n.fragment|..];
    NewLeafCorrect(n, kv, q, isRoot);
    var n' := n.(children := n.children[idx := Some(Leaf(rest, kv))], childCount := n.childCount + 1);
    MatchCountPrefix(n'.fragment, q);
    LeafRemoveEntry(rest, kv);
    assert n'.children[idx := None] == n.children;
    assert Reattach(n', idx, Leaf(rest, kv).(kv := None)) == n;
  }

  /** The only occupied slot is the first occupied one. */
  lemma OnlyOccupied<T>(s: seq<Option<T>>, i: nat)
    requires i < |s| && s[i].Some?
    requires forall j | 0 <= j < |s| && j != i :: s[j].None?
    ensures CountSome(s) > 0 && FirstOccupied(s) == i
  {
    CountSomePositive(s, i);
  }

  /** The length of the common prefix of `f[..m]` and `q`, when they agree on `m` nibbles. */
  lemma CommonPrefix(f: seq<Nibble>, q: seq<Nibble>, m: nat)
    requires m <= |f| && m <= |q| && f[..m] == q[..m]
    ensures MatchCount(f[..m], q) == m
  {
    MatchCountPrefix(f[..m], q);
    assert f[..m] <= q by {
      assert q[..m] == f[..m];
    }
  }

  /**
   * The pair split `n`'s fragment: removal empties the new leaf or clears
   * the intermediate node, which is then left with `n`'s shortened copy as
   * its only child and merges back into `n`.
   */
  lemma SplitRemove<K, V>(n: Node<K, V>, kv: KeyValue<K, V>, q: seq<Nibble>)
    requires WellFormed(n, false)
    requires |n.fragment| > 0 && |q| > 0 && q[0] == n.fragment[0]
    requires MatchCount(n.fragment, q) < |n.fragment|
    ensures WellFormed(Split(n, kv, q), false)
    ensures Remove(Split(n, kv, q), kv.key, q, false) == (n, Some(kv.value))
  {
    var f := n.fragment;
    var m := MatchCount(f, q);
    SplitCorrect(n, kv, q);
    var s := Split(n, kv, q);
    var shortened := n.(fragment := f[m..]);
    assert m > 0 by {
      assert f[..1] == q[..1];
    }
    CommonPrefix(f, q, m);
    assert f[..m] + f[m..] == f;
    if m < |q| {
      SplitBranchRemove(n, kv, q, m, shortened);
    } else {
      SplitPromoteRemove(n, kv, q, m, shortened);
    }
  }

  lemma SplitBranchRemove<K, V>(n: Node<K, V>, kv: KeyValue<K, V>, q: seq<Nibble>, m: nat, shortened: Node<K, V>)
    requires |n.fragment| > 0 && |q| > 0
    requires m == MatchCount(n.fragment, q) && 0 < m < |n.fragment| && m < |q|
    requires shortened == n.(fragment := n.fragment[m..])
    requires MatchCount(n.fragment[..m], q) == m && n.fragment[..m] + n.fragment[m..] == n.fragment
    requires WellFormed(Split(n, kv, q), false)
    ensures Remove(Split(n, kv, q), kv.key, q, false) == (n, Some(kv.value))
  {
    var f := n.fragment;
    var s := Split(n, kv, q);
    var leaf := Leaf(q[m..], kv);
    assert s == Node(f[..m], None, EmptySlots()[f[m] := Some(shortened)][q[m] := Some(leaf)], 2);
    LeafRemoveEntry(q[m..], kv);
    BranchVacated(s, f[..m], shortened, f[m], leaf, q[m]);
  }

  /** Vacating the new leaf's slot leaves a node whose only child merges back into one node. */
  lemma BranchVacated<K, V>(s: Node<K, V>, f: seq<Nibble>, a: Node<K, V>, i: Nibble, leaf: Node<K, V>, j: Nibble)
    requires i != j && Structured(s) && IsEmpty(leaf.(kv := None))
    requires s == Node(f, None, EmptySlots()[i := Some(a)][j := Some(leaf)], 2)
    ensures Structured(Reattach(s, j, leaf.(kv := None)))
    ensures Compact(Reattach(s, j, leaf.(kv := None)), false) == a.(fragment := f + a.fragment)
  {
    var vacated := Reattach(s, j, leaf.(kv := None));
    assert vacated.children == s.children[j := None];
    CountSomeUpdate(s.children, j, None);
    assert Structured(vacated);
    OnlyOccupied(vacated.children, i);
  }

  lemma SplitPromoteRemove<K, V>(n: Node<K, V>, kv: KeyValue<K, V>, q: seq<Nibble>, m: nat, shortened: Node<K, V>)
    requires |n.fragment| > 0 && |q| > 0
    requires m == MatchCount(n.fragment, q) && 0 < m < |n.fragment| && m == |q|
    requires shortened == n.(fragment := n.fragment[m..])
    requires MatchCount(n.fragment[..m], q) == m && n.fragment[..m] + n.fragment[m..] == n.fragment
    requires WellFormed(Split(n, kv, q), false)
    ensures Remove(Split(n, kv, q), kv.key, q, false) == (n, Some(kv.value))
  {
    var f := n.fragment;
    var s := Split(n, kv, q);
    assert s == Node(f[..m], Some(kv), EmptySlots()[f[m] := Some(shortened)], 1);
    var cleared := s.(kv := None);
    OnlyOccupied(cleared.children, f[m]);
  }
}
