/**
 * The radix-trie node: a fragment of nibbles, an optional owning key/value
 * pair and 16 child slots, each empty or owning a child whose fragment
 * starts with the slot's nibble. A node denotes the entries reachable from
 * it: `Lookup(n, p)` is the pair stored at path `p`, where a path is the
 * concatenation of the fragments from `n` (inclusive) down to the node.
 *
 * The invariants of a tree, by number:
 *   I1  a child in slot `i` has a fragment whose first nibble is `i`;
 *   I2  siblings differ in their first nibble (the slot array enforces it);
 *   I3  a non-root node without an entry has at least two children;
 *   I4  the cached child count is the number of occupied slots;
 *   I5  the trie's cached length is the number of entries;
 *   I6  a stored key encodes to the path of the node that holds it.
 */
module TrieNodes {
  import opened Wrappers
  import opened Nibbles

  /** The owning key and its value, kept at the node that terminates the key. */
  datatype KeyValue<K, V> = KeyValue(key: K, value: V)

  /**
   * `TrieNode`: `children` plays the fixed 16-slot array and `childCount` the
   * cached number of occupied slots.
   */
  datatype Node<K, V> = Node(
    fragment: seq<Nibble>,
    kv: Option<KeyValue<K, V>>,
    children: seq<Option<Node<K, V>>>,
    childCount: nat)

  /** Sixteen empty slots. */
  function EmptySlots<K, V>(): (s: seq<Option<Node<K, V>>>)
    ensures |s| == BranchFactor
    ensures forall i | 0 <= i < |s| :: s[i].None?
  {
    seq(BranchFactor, _ => None)
  }

  /** `TrieNode::new`: the empty root, with an empty fragment and no entry. */
  function NewNode<K, V>(): (r: Node<K, V>)
    ensures IsEmpty(r) && r.fragment == [] && WellFormed(r, true)
  {
    CountSomeNone(EmptySlots<K, V>());
    Node([], None, EmptySlots(), 0)
  }

  /** A fresh leaf holding `kv` under `fragment`, as insertion creates it. */
  function Leaf<K, V>(fragment: seq<Nibble>, kv: KeyValue<K, V>): Node<K, V>
  {
    Node(fragment, Some(kv), EmptySlots(), 0)
  }

  /** The number of occupied slots. */
  function CountSome<T>(s: seq<Option<T>>): nat
  {
    if s == [] then 0 else (if s[0].Some? then 1 else 0) + CountSome(s[1..])
  }

  /** A node has no entry and no children: its parent may vacate its slot. */
  predicate IsEmpty<K, V>(n: Node<K, V>)
  {
    n.kv.None? && n.childCount == 0
  }

  /** The value part of a looked-up entry. */
  function ValueOf<K, V>(o: Option<KeyValue<K, V>>): (r: Option<V>)
    ensures r.Some? <==> o.Some?
    ensures r.Some? ==> r.value == o.value.value
  {
    match o
    case None => None
    case Some(kv) => Some(kv.value)
  }

  /** `value_checked`: the stored value, only when the stored key is `key`. */
  function ValueChecked<K(==), V>(n: Node<K, V>, key: K): (r: Option<V>)
    ensures r.Some? <==> n.kv.Some? && n.kv.value.key == key
    ensures r.Some? ==> r.value == n.kv.value.value
  {
    match n.kv
    case Some(kv) => if kv.key == key then Some(kv.value) else None
    case None => None
  }

  // ---------------------------------------------------------------------
  // Structural invariants (I1 to I4)
  // ---------------------------------------------------------------------

  /** Every node, down the whole tree, has exactly 16 slots. */
  ghost predicate Shaped<K, V>(n: Node<K, V>)
    decreases n
  {
    && |n.children| == BranchFactor
    && forall i | 0 <= i < BranchFactor :: n.children[i].Some? ==> Shaped(n.children[i].value)
  }

  /**
   * Every invariant except the compaction rule at `n` itself: the cached
   * child count is right (I4), and every child sits in the slot of its
   * first nibble (I1, I2) and is a well-formed non-root node.
   */
  ghost predicate Structured<K, V>(n: Node<K, V>)
    ensures Structured(n) ==> Shaped(n)
    decreases n, 1
  {
    && Shaped(n)
    && n.childCount == CountSome(n.children)
    && forall i | 0 <= i < BranchFactor :: n.children[i].Some? ==> WellFormedChild(n.children[i].value, i)
  }

  /**
   * The structural invariants, including I3: a non-root node without an
   * entry has at least two children.
   */
  ghost predicate WellFormed<K, V>(n: Node<K, V>, isRoot: bool)
    ensures WellFormed(n, isRoot) ==> Structured(n) && Shaped(n)
    decreases n, 2
  {
    && Structured(n)
    && (isRoot || n.kv.Some? || n.childCount >= 2)
  }

  /** A child placed in slot `i`: non-empty fragment starting with `i`. */
  ghost predicate WellFormedChild<K, V>(c: Node<K, V>, i: int)
    ensures WellFormedChild(c, i) ==> WellFormed(c, false) && Structured(c) && Shaped(c)
    decreases c, 3
  {
    && |c.fragment| > 0
    && c.fragment[0] == i
    && WellFormed(c, false)
  }

  // ---------------------------------------------------------------------
  // Lookup (`TrieNode::get`)
  // ---------------------------------------------------------------------

  /**
   * `TrieNode::get`: the node reached by following `q`, or nothing when a
   * fragment fails to match completely or a slot is empty. "The match count
   * of the fragment and `q` is the fragment's length" is written as the
   * prefix test it amounts to (`MatchCountPrefix`).
   */
  function Get<K, V>(n: Node<K, V>, q: seq<Nibble>): (r: Option<Node<K, V>>)
    requires Shaped(n)
    ensures r.Some? ==> Shaped(r.value)
    decreases n
  {
    var f := n.fragment;
    if !(f <= q) then None
    else if |f| == |q| then Some(n)
    else
      match n.children[q[|f|]]
      case None => None
      case Some(c) => Get(c, q[|f|..])
  }

  /** The entry stored at path `q`: the denotation of a node. */
  function Lookup<K, V>(n: Node<K, V>, q: seq<Nibble>): Option<KeyValue<K, V>>
    requires Shaped(n)
  {
    match Get(n, q)
    case None => None
    case Some(t) => t.kv
  }

  /** `Lookup` through an optional child slot. */
  function LookupSlot<K, V>(o: Option<Node<K, V>>, q: seq<Nibble>): Option<KeyValue<K, V>>
    requires o.Some? ==> Shaped(o.value)
  {
    match o
    case None => None
    case Some(c) => Lookup(c, q)
  }

  /** `Get` in terms of prefixes rather than match counts. */
  lemma GetUnfold<K, V>(n: Node<K, V>, p: seq<Nibble>)
    requires Shaped(n)
    ensures !(n.fragment <= p) ==> Get(n, p).None?
    ensures n.fragment <= p && |p| == |n.fragment| ==> Get(n, p) == Some(n)
    ensures n.fragment <= p && |p| > |n.fragment| ==>
      Get(n, p) == match n.children[p[|n.fragment|]]
                   case None => None
                   case Some(c) => Get(c, p[|n.fragment|..])
  {
  }

  /** The node a path reaches ends that path with its own fragment. */
  lemma {:induction false} GetEndsPath<K, V>(n: Node<K, V>, q: seq<Nibble>)
    requires Shaped(n) && Get(n, q).Some?
    ensures n.fragment <= q
    ensures |Get(n, q).value.fragment| <= |q| && q[|q| - |Get(n, q).value.fragment|..] == Get(n, q).value.fragment
    decreases n
  {
    var f := n.fragment;
    GetUnfold(n, q);
    if |q| > |f| {
      var c := n.children[q[|f|]].value;
      GetEndsPath(c, q[|f|..]);
      var g := Get(n, q).value.fragment;
      assert q[|f|..][|q[|f|..]| - |g|..] == q[|q| - |g|..];
    }
  }

  /** A node is only reached by paths that run through its fragment. */
  lemma GetReachesPast<K, V>(n: Node<K, V>, p: seq<Nibble>)
    requires Shaped(n) && Get(n, p).Some?
    ensures n.fragment <= p
  {
    GetUnfold(n, p);
  }

  /** One step of descent: a path past `n`'s fragment continues in its slot's child. */
  lemma GetStep<K, V>(n: Node<K, V>, p: seq<Nibble>, c: Node<K, V>)
    requires Shaped(n) && n.fragment <= p && |p| > |n.fragment|
    requires n.children[p[|n.fragment|]] == Some(c)
    ensures Get(n, p) == Get(c, p[|n.fragment|..])
  {
    GetUnfold(n, p);
  }

  /** `Lookup` in terms of prefixes: the shape of every proof about it. */
  lemma LookupUnfold<K, V>(n: Node<K, V>, p: seq<Nibble>)
    requires Shaped(n)
    ensures Lookup(n, p) ==
      if !(n.fragment <= p) then None
      else if |p| == |n.fragment| then n.kv
      else LookupSlot(n.children[p[|n.fragment|]], p[|n.fragment|..])
  {
    GetUnfold(n, p);
  }

  /** An empty, structured node stores nothing anywhere. */
  lemma EmptyLookup<K, V>(n: Node<K, V>, p: seq<Nibble>)
    requires Structured(n) && IsEmpty(n)
    ensures Lookup(n, p).None?
  {
    CountSomeZero(n.children);
    LookupUnfold(n, p);
  }

  /** A leaf stores its entry at its own fragment and nothing else. */
  lemma LeafLookup<K, V>(fragment: seq<Nibble>, kv: KeyValue<K, V>, p: seq<Nibble>)
    ensures Shaped(Leaf(fragment, kv))
    ensures Lookup(Leaf(fragment, kv), p) == if p == fragment then Some(kv) else None
  {
    LookupUnfold(Leaf(fragment, kv), p);
  }

  /** A leaf placed in slot `i` is a well-formed child. */
  lemma LeafWellFormed<K, V>(fragment: seq<Nibble>, kv: KeyValue<K, V>, i: int)
    requires |fragment| > 0 && fragment[0] == i
    ensures WellFormedChild(Leaf(fragment, kv), i)
  {
    var leaf := Leaf(fragment, kv);
    CountSomeNone(leaf.children);
    assert Shaped(leaf);
    assert Structured(leaf);
    assert WellFormed(leaf, false);
  }

  /**
   * Lengthening a node's fragment by a prefix `f` moves every entry below it
   * `|f|` nibbles further down, behind `f`.
   */
  lemma PrependedLookup<K, V>(c: Node<K, V>, f: seq<Nibble>, p: seq<Nibble>)
    requires Shaped(c)
    ensures Shaped(c.(fragment := f + c.fragment))
    ensures Lookup(c.(fragment := f + c.fragment), p) == if f <= p then Lookup(c, p[|f|..]) else None
  {
    var g := f + c.fragment;
    var merged := c.(fragment := g);
    PrefixOfConcat(f, c.fragment, p);
    LookupUnfold(merged, p);
    if f <= p {
      var t := p[|f|..];
      LookupUnfold(c, t);
      if g <= p && |p| > |g| {
        assert t[|c.fragment|] == p[|g|];
        assert t[|c.fragment|..] == p[|g|..];
      }
    }
  }

  /** Replacing the entry of `n` changes only the lookup of `n`'s own path `q`. */
  lemma LookupReplaceEntry<K, V>(n: Node<K, V>, e: Option<KeyValue<K, V>>, q: seq<Nibble>)
    requires Shaped(n)
    requires n.fragment <= q && |q| == |n.fragment|
    ensures Shaped(n.(kv := e))
    ensures Lookup(n, q) == n.kv
    ensures forall p :: Lookup(n.(kv := e), p) == if p == q then e else Lookup(n, p)
  {
    LookupUnfold(n, q);
    forall p
      ensures Lookup(n.(kv := e), p) == if p == q then e else Lookup(n, p)
    {
      LookupUnfold(n, p);
      LookupUnfold(n.(kv := e), p);
      if n.fragment <= p && |p| == |n.fragment| {
        assert p == q;
      }
    }
  }

  /** The lookup of `p` after slot `i` of `n` was given new content. */
  function ReplacedLookup<K, V>(n: Node<K, V>, n': Node<K, V>, i: Nibble, p: seq<Nibble>): Option<KeyValue<K, V>>
    requires Shaped(n) && Shaped(n')
  {
    if n.fragment <= p && |p| > |n.fragment| && p[|n.fragment|] == i
    then LookupSlot(n'.children[i], p[|n.fragment|..])
    else Lookup(n, p)
  }

  /**
   * Replacing the content of slot `i` changes exactly the lookups whose path
   * leaves `n`'s fragment through slot `i`.
   */
  lemma LookupReplaceChild<K, V>(n: Node<K, V>, n': Node<K, V>, i: Nibble)
    requires Shaped(n) && Shaped(n')
    requires n'.fragment == n.fragment && n'.kv == n.kv
    requires forall j | 0 <= j < BranchFactor && j != i :: n'.children[j] == n.children[j]
    ensures forall p :: Lookup(n', p) == ReplacedLookup(n, n', i, p)
  {
    forall p
      ensures Lookup(n', p) == ReplacedLookup(n, n', i, p)
    {
      LookupUnfold(n, p);
      LookupUnfold(n', p);
    }
  }

  // ---------------------------------------------------------------------
  // Counting occupied slots
  // ---------------------------------------------------------------------

  lemma {:induction false} CountSomeUpdate<T>(s: seq<Option<T>>, i: nat, x: Option<T>)
    requires i < |s|
    ensures CountSome(s[i := x]) ==
      CountSome(s) - (if s[i].Some? then 1 else 0) + (if x.Some? then 1 else 0)
  {
    if i == 0 {
      assert s[i := x][1..] == s[1..];
    } else {
      assert s[i := x][1..] == s[1..][i - 1 := x];
      CountSomeUpdate(s[1..], i - 1, x);
    }
  }

  lemma {:induction false} CountSomeZero<T>(s: seq<Option<T>>)
    requires CountSome(s) == 0
    ensures forall i | 0 <= i < |s| :: s[i].None?
  {
    if s != [] {
      CountSomeZero(s[1..]);
      assert forall i | 1 <= i < |s| :: s[i] == s[1..][i - 1];
    }
  }

  lemma {:induction false} CountSomeNone<T>(s: seq<Option<T>>)
    requires forall i | 0 <= i < |s| :: s[i].None?
    ensures CountSome(s) == 0
  {
    if s != [] {
      CountSomeNone(s[1..]);
    }
  }

  /** With a single occupied slot, any two occupied slots are the same. */
  lemma {:induction false} CountSomeOne<T>(s: seq<Option<T>>, i: nat, j: nat)
    requires CountSome(s) == 1
    requires i < |s| && j < |s| && s[i].Some? && s[j].Some?
    ensures i == j
  {
    if i != j {
      if i == 0 || j == 0 {
        var k := if i == 0 then j else i;
        assert s[k] == s[1..][k - 1];
        CountSomeZero(s[1..]);
        assert false;
      } else {
        assert s[i] == s[1..][i - 1] && s[j] == s[1..][j - 1];
        if s[0].Some? {
          CountSomeZero(s[1..]);
        } else {
          CountSomeOne(s[1..], i - 1, j - 1);
        }
      }
    }
  }

  /** An occupied slot means a positive count. */
  lemma CountSomePositive<T>(s: seq<Option<T>>, i: nat)
    requires i < |s| && s[i].Some?
    ensures CountSome(s) > 0
  {
    CountSomeUpdate(s, i, None);
  }

  /** The index of the first occupied slot. */
  function FirstOccupied<T>(s: seq<Option<T>>): (i: nat)
    requires CountSome(s) > 0
    ensures i < |s| && s[i].Some?
    ensures forall j | 0 <= j < i :: s[j].None?
  {
    if s[0].Some? then 0
    else
      var i := 1 + FirstOccupied(s[1..]);
      assert forall j | 1 <= j < i :: s[j] == s[1..][j - 1];
      i
  }
}
