/**
 * Searches below a node: the deepest entry on a path (`TrieNode::get_ancestor`),
 * the node reached by a path seen as a subtree, and
 * writing a new value through the node a path reaches (what a mutable
 * borrow obtained from `TrieNode::get_mut` allows).
 */
module NodeSearch {
  import opened Wrappers
  import opened Nibbles
  import opened TrieNodes
  import NodeInsert

  /**
   * The deepest node on path `q` that holds an entry, with the length of
   * the prefix of `q` it is reached by. Descent stops where a fragment
   * does not fully match or a slot is empty.
   */
  function GetAncestor<K, V>(n: Node<K, V>, q: seq<Nibble>): (r: Option<(Node<K, V>, nat)>)
    requires Structured(n)
    ensures Deepest(n, q, r)
    decreases n
  {
    var f := n.fragment;
    var m := MatchCount(f, q);
    MatchCountPrefix(f, q);
    if m < |f| then
      PrefixesMiss(n, q);
      None
    else if m == |q| then
      HereIsDeepest(n, q);
      if n.kv.Some? then Some((n, m)) else None
    else
      match n.children[q[m]]
      case None =>
        HereIsDeepest(n, q);
        if n.kv.Some? then Some((n, m)) else None
      case Some(c) =>
        assert WellFormedChild(c, q[m]);
        match GetAncestor(c, q[m..])
        case Some((a, d)) =>
          DeeperAncestor(n, c, q, a, d);
          Some((a, m + d))
        case None =>
          HereIsDeepest(n, q);
          if n.kv.Some? then Some((n, m)) else None
  }

  /**
   * What `GetAncestor` promises of a result `r`: a found node holds an entry
   * and is reached by the prefix of `q` whose length comes with it; no longer
   * prefix of `q` reaches an entry; and no result means no prefix does.
   */
  ghost predicate Deepest<K, V>(n: Node<K, V>, q: seq<Nibble>, r: Option<(Node<K, V>, nat)>)
    requires Shaped(n)
  {
    && (r.Some? ==> r.value.1 <= |q| && r.value.0.kv.Some?)
    && (r.Some? ==> Get(n, q[..r.value.1]) == Some(r.value.0))
    && (r.Some? ==> forall j | r.value.1 < j <= |q| :: Lookup(n, q[..j]).None?)
    && (r.None? ==> forall j | 0 <= j <= |q| :: Lookup(n, q[..j]).None?)
  }

  /**
   * When nothing past `n`'s fragment on `q` holds an entry, `n` itself is the
   * deepest ancestor if it has an entry, and there is none otherwise.
   */
  lemma HereIsDeepest<K, V>(n: Node<K, V>, q: seq<Nibble>)
    requires Shaped(n) && n.fragment <= q
    requires |q| > |n.fragment| ==>
               forall j | 0 < j <= |q| - |n.fragment| :: LookupSlot(n.children[q[|n.fragment|]], q[|n.fragment|..][..j]).None?
    ensures Deepest(n, q, if n.kv.Some? then Some((n, |n.fragment|)) else None)
  {
    HereIsAncestor(n, q);
    if |q| > |n.fragment| {
      NothingBeyond(n, q, 0);
    }
  }

  /** When `q` leaves `n`'s fragment part-way, no prefix of `q` reaches an entry. */
  lemma PrefixesMiss<K, V>(n: Node<K, V>, q: seq<Nibble>)
    requires Shaped(n) && !(n.fragment <= q)
    ensures forall j | 0 <= j <= |q| :: Lookup(n, q[..j]).None?
  {
    forall j | 0 <= j <= |q|
      ensures Lookup(n, q[..j]).None?
    {
      LookupUnfold(n, q[..j]);
    }
  }

  /** Along `q`, the prefixes that stop inside `n`'s fragment reach no entry, and the one that ends it reaches `n`. */
  lemma HereIsAncestor<K, V>(n: Node<K, V>, q: seq<Nibble>)
    requires Shaped(n) && n.fragment <= q
    ensures Get(n, q[..|n.fragment|]) == Some(n)
    ensures forall j | 0 <= j < |n.fragment| :: Lookup(n, q[..j]).None?
    ensures Lookup(n, q[..|n.fragment|]) == n.kv
  {
    GetUnfold(n, q[..|n.fragment|]);
    LookupUnfold(n, q[..|n.fragment|]);
    forall j | 0 <= j < |n.fragment|
      ensures Lookup(n, q[..j]).None?
    {
      LookupUnfold(n, q[..j]);
    }
  }

  /**
   * If no prefix of `q` longer than `d` nibbles past `n`'s fragment reaches
   * an entry through `q`'s slot, no such prefix reaches one from `n`.
   */
  lemma NothingBeyond<K, V>(n: Node<K, V>, q: seq<Nibble>, d: nat)
    requires Shaped(n) && n.fragment <= q && |q| > |n.fragment|
    requires forall j | d < j <= |q| - |n.fragment| :: LookupSlot(n.children[q[|n.fragment|]], q[|n.fragment|..][..j]).None?
    ensures forall j | |n.fragment| + d < j <= |q| :: Lookup(n, q[..j]).None?
  {
    var f := n.fragment;
    forall j | |f| + d < j <= |q|
      ensures Lookup(n, q[..j]).None?
    {
      SlicePrefix(q, |f|, j - |f|);
      LookupUnfold(n, q[..j]);
    }
  }

  /** The deepest entry found in the child on `q`'s slot is the deepest one from `n`. */
  lemma DeeperAncestor<K, V>(n: Node<K, V>, c: Node<K, V>, q: seq<Nibble>, a: Node<K, V>, d: nat)
    requires Structured(n) && n.fragment <= q && |q| > |n.fragment|
    requires n.children[q[|n.fragment|]] == Some(c)
    requires d <= |q| - |n.fragment| && Get(c, q[|n.fragment|..][..d]) == Some(a)
    requires forall j | d < j <= |q| - |n.fragment| :: Lookup(c, q[|n.fragment|..][..j]).None?
    requires a.kv.Some?
    ensures Deepest(n, q, Some((a, |n.fragment| + d)))
  {
    assert WellFormedChild(c, q[|n.fragment|]);
    AncestorBelow(n, c, q, a, d);
    NothingBeyond(n, q, d);
  }

  /** An ancestor found `d` nibbles into the child on `q`'s slot is one of `n`, `|n.fragment| + d` nibbles into `q`. */
  lemma AncestorBelow<K, V>(n: Node<K, V>, c: Node<K, V>, q: seq<Nibble>, a: Node<K, V>, d: nat)
    requires Shaped(n) && n.fragment <= q && |q| > |n.fragment|
    requires n.children[q[|n.fragment|]] == Some(c) && |c.fragment| > 0
    requires d <= |q| - |n.fragment| && Get(c, q[|n.fragment|..][..d]) == Some(a)
    ensures Get(n, q[..|n.fragment| + d]) == Some(a)
  {
    var f := n.fragment;
    GetReachesPast(c, q[|f|..][..d]);
    SlicePrefix(q, |f|, d);
    GetStep(n, q[..|f| + d], c);
  }

  /**
   * The node reached by `q` sees, below its own fragment, exactly what the
   * whole tree stores behind `q`.
   */
  lemma {:induction false} GetConcat<K, V>(n: Node<K, V>, q: seq<Nibble>, p: seq<Nibble>)
    requires Shaped(n) && Get(n, q).Some?
    ensures Get(n, q + p) == Get(Get(n, q).value, Get(n, q).value.fragment + p)
    ensures Lookup(n, q + p) == Lookup(Get(n, q).value, Get(n, q).value.fragment + p)
    decreases n
  {
    var f := n.fragment;
    GetUnfold(n, q);
    assert f <= q + p by {
      assert (q + p)[..|f|] == q[..|f|];
    }
    if |q| > |f| {
      GetThroughSlot(n, q, p);
      GetConcat(n.children[q[|f|]].value, q[|f|..], p);
    } else {
      assert q == f;
    }
  }

  lemma GetThroughSlot<K, V>(n: Node<K, V>, q: seq<Nibble>, p: seq<Nibble>)
    requires Shaped(n) && n.fragment <= q && |q| > |n.fragment| && Get(n, q).Some?
    ensures n.children[q[|n.fragment|]].Some?
    ensures Get(n, q) == Get(n.children[q[|n.fragment|]].value, q[|n.fragment|..])
    ensures Get(n, q + p) == Get(n.children[q[|n.fragment|]].value, q[|n.fragment|..] + p)
  {
    var f := n.fragment;
    GetUnfold(n, q);
    assert (q + p)[..|f|] == q[..|f|];
    assert (q + p)[|f|] == q[|f|];
    assert (q + p)[|f|..] == q[|f|..] + p;
    GetUnfold(n, q + p);
  }

  /**
   * Store `v` as the value of the entry at `q`, keeping its owning key:
   * the effect of writing through the borrow that a lookup hands out.
   */
  function SetValue<K, V>(n: Node<K, V>, q: seq<Nibble>, v: V, ghost isRoot: bool): (r: Node<K, V>)
    requires WellFormed(n, isRoot) && Lookup(n, q).Some?
    requires !isRoot ==> |n.fragment| > 0 && |q| > 0 && q[0] == n.fragment[0]
    ensures WellFormed(r, isRoot)
    ensures r.fragment == n.fragment
    ensures forall p :: Lookup(r, p) == if p == q then Some(KeyValue(Lookup(n, q).value.key, v)) else Lookup(n, p)
    decreases n
  {
    var f := n.fragment;
    LookupUnfold(n, q);
    var kv := KeyValue(Lookup(n, q).value.key, v);
    if |q| == |f| then
      NodeInsert.HitCorrect(n, kv, q, isRoot);
      n.(kv := Some(kv))
    else
      var idx := q[|f|];
      var c := n.children[idx].value;
      assert WellFormedChild(c, idx) && q[|f|..][0] == idx;
      var c' := SetValue(c, q[|f|..], v, false);
      NodeInsert.DescendCorrect(n, c, c', kv, q, isRoot);
      n.(children := n.children[idx := Some(c')])
  }
}
