/**
 * The entry iterator: a stack machine over child cursors that yields each
 * node's key/value when the node is reached, before its children, with
 * children in slot order (a pre-order walk). `Keys` and `Values` project
 * its items, and `FromIter` builds a trie by inserting pairs in order.
 */
module Iters {
  import opened Wrappers
  import opened Nibbles
  import opened TrieNodes
  import opened NodeEntries
  import opened Tries

  // ---------------------------------------------------------------------
  // Child cursors (`child_iter`)
  // ---------------------------------------------------------------------

  /** A cursor over the slots of `node` from `slot` on: one frame of the stack. */
  datatype ChildCursor<K, V> = ChildCursor(node: Node<K, V>, slot: nat)

  /** `child_iter`: a cursor over all of `n`'s slots. */
  function ChildIter<K, V>(n: Node<K, V>): (r: ChildCursor<K, V>)
    ensures Shaped(n) ==> CursorOk(r)
  {
    ChildCursor(n, 0)
  }

  /** A cursor whose node has 16 slots and whose position is within them. */
  ghost predicate CursorOk<K, V>(it: ChildCursor<K, V>)
  {
    Shaped(it.node) && it.slot <= BranchFactor
  }

  /**
   * Advance a cursor: the next occupied slot at or after its position, and
   * the cursor just past that slot; nothing when the remaining slots are all
   * empty.
   */
  function NextChild<K, V>(it: ChildCursor<K, V>): (r: Option<(Node<K, V>, ChildCursor<K, V>)>)
    requires CursorOk(it)
    ensures r.Some? ==> r.value.1.node == it.node && it.slot < r.value.1.slot <= BranchFactor
    ensures r.Some? ==> it.node.children[r.value.1.slot - 1] == Some(r.value.0)
    ensures r.Some? ==> forall j | it.slot <= j < r.value.1.slot - 1 :: it.node.children[j].None?
    ensures r.None? ==> forall j | it.slot <= j < BranchFactor :: it.node.children[j].None?
    decreases BranchFactor - it.slot
  {
    if it.slot == BranchFactor then None
    else
      match it.node.children[it.slot]
      case Some(c) => Some((c, ChildCursor(it.node, it.slot + 1)))
      case None => NextChild(ChildCursor(it.node, it.slot + 1))
  }

  /** The occupied slots of `n` from slot `i` on, in slot order. */
  function Children<K, V>(n: Node<K, V>, i: nat): seq<Node<K, V>>
    requires |n.children| == BranchFactor && i <= BranchFactor
    decreases BranchFactor - i
  {
    if i == BranchFactor then []
    else (match n.children[i] case None => [] case Some(c) => [c]) + Children(n, i + 1)
  }

  /** A cursor over all of `n`'s slots yields exactly the nodes held in them. */
  lemma ChildIterYields<K, V>(n: Node<K, V>)
    requires Shaped(n)
    ensures forall c :: c in Children(ChildIter(n).node, ChildIter(n).slot) <==>
                        exists j | 0 <= j < BranchFactor :: n.children[j] == Some(c)
  {
    ChildrenAreOccupied(n, 0);
  }

  /** The children listed from slot `i` on are the nodes in slots `i` to 15. */
  lemma {:induction false} ChildrenAreOccupied<K, V>(n: Node<K, V>, i: nat)
    requires |n.children| == BranchFactor && i <= BranchFactor
    ensures forall c :: c in Children(n, i) <==> exists j | i <= j < BranchFactor :: n.children[j] == Some(c)
    decreases BranchFactor - i
  {
    if i < BranchFactor {
      ChildrenAreOccupied(n, i + 1);
      forall c
        ensures c in Children(n, i) <==> exists j | i <= j < BranchFactor :: n.children[j] == Some(c)
      {
        if exists j | i <= j < BranchFactor :: n.children[j] == Some(c) {
          var j :| i <= j < BranchFactor && n.children[j] == Some(c);
          if j > i {
            assert exists j' | i + 1 <= j' < BranchFactor :: n.children[j'] == Some(c);
          }
        }
      }
    }
  }

  /** A cursor yields exactly the occupied slots, in ascending slot order. */
  lemma {:induction false} NextChildYieldsChildren<K, V>(it: ChildCursor<K, V>)
    requires CursorOk(it)
    ensures NextChild(it).None? <==> Children(it.node, it.slot) == []
    ensures NextChild(it).Some? ==>
              Children(it.node, it.slot) == [NextChild(it).value.0] + Children(it.node, NextChild(it).value.1.slot)
    decreases BranchFactor - it.slot
  {
    if it.slot < BranchFactor && it.node.children[it.slot].None? {
      NextChildYieldsChildren(ChildCursor(it.node, it.slot + 1));
    }
  }

  /** A structured node has as many children as its cached count. */
  lemma {:induction false} ChildrenCount<K, V>(n: Node<K, V>, i: nat)
    requires |n.children| == BranchFactor && i <= BranchFactor
    ensures |Children(n, i)| == CountSome(n.children[i..])
    decreases BranchFactor - i
  {
    if i < BranchFactor {
      ChildrenCount(n, i + 1);
      assert n.children[i..][1..] == n.children[i + 1..];
    }
  }

  // ---------------------------------------------------------------------
  // The pre-order items
  // ---------------------------------------------------------------------

  /** `kv_as_pair`: a node's entry as a (key, value) pair. */
  function KvAsPair<K, V>(n: Node<K, V>): (r: Option<(K, V)>)
    ensures r.Some? <==> n.kv.Some?
    ensures r.Some? ==> r.value.0 == n.kv.value.key && r.value.1 == n.kv.value.value
  {
    match n.kv
    case None => None
    case Some(kv) => Some((kv.key, kv.value))
  }

  /** The item a node yields when it is reached, if any. */
  function OwnItem<K, V>(n: Node<K, V>): seq<(K, V)>
  {
    match KvAsPair(n)
    case None => []
    case Some(p) => [p]
  }

  /** The pairs of the subtree at `n` in pre-order: its own first, then each slot's. */
  function Items<K, V>(n: Node<K, V>): seq<(K, V)>
    requires Shaped(n)
    decreases n, 1
  {
    OwnItem(n) + SlotItems(n, 0)
  }

  /** The pairs below slots `i` to 15 of `n`, slot by slot. */
  function SlotItems<K, V>(n: Node<K, V>, i: nat): seq<(K, V)>
    requires Shaped(n) && i <= BranchFactor
    decreases n, 0, BranchFactor - i
  {
    if i == BranchFactor then []
    else (match n.children[i] case None => [] case Some(c) => Items(c)) + SlotItems(n, i + 1)
  }

  /** The number of nodes of the subtree at `n`: what bounds the traversal. */
  function Size<K, V>(n: Node<K, V>): nat
    requires Shaped(n)
    decreases n, 1
  {
    1 + SlotSize(n, 0)
  }

  function SlotSize<K, V>(n: Node<K, V>, i: nat): nat
    requires Shaped(n) && i <= BranchFactor
    decreases n, 0, BranchFactor - i
  {
    if i == BranchFactor then 0
    else (match n.children[i] case None => 0 case Some(c) => Size(c)) + SlotSize(n, i + 1)
  }

  /** Advancing a cursor past a child moves that child's items (and nodes) out of the frame. */
  lemma SlotStep<K, V>(it: ChildCursor<K, V>)
    requires CursorOk(it)
    ensures NextChild(it).None? ==> SlotItems(it.node, it.slot) == [] && SlotSize(it.node, it.slot) == 0
    ensures NextChild(it).Some? ==>
              && SlotItems(it.node, it.slot) == Items(NextChild(it).value.0) + SlotItems(it.node, NextChild(it).value.1.slot)
              && SlotSize(it.node, it.slot) == Size(NextChild(it).value.0) + SlotSize(it.node, NextChild(it).value.1.slot)
  {
    SlotItemsStep(it);
    SlotSizeStep(it);
  }

  lemma {:induction false} SlotItemsStep<K, V>(it: ChildCursor<K, V>)
    requires CursorOk(it)
    ensures NextChild(it).None? ==> SlotItems(it.node, it.slot) == []
    ensures NextChild(it).Some? ==>
              SlotItems(it.node, it.slot) == Items(NextChild(it).value.0) + SlotItems(it.node, NextChild(it).value.1.slot)
    decreases BranchFactor - it.slot
  {
    if it.slot < BranchFactor {
      var next := ChildCursor(it.node, it.slot + 1);
      match it.node.children[it.slot]
      case Some(c) =>
        assert NextChild(it) == Some((c, next));
      case None =>
        SlotItemsStep(next);
        assert NextChild(it) == NextChild(next);
        assert SlotItems(it.node, it.slot) == SlotItems(it.node, it.slot + 1);
    }
  }

  lemma {:induction false} SlotSizeStep<K, V>(it: ChildCursor<K, V>)
    requires CursorOk(it)
    ensures NextChild(it).None? ==> SlotSize(it.node, it.slot) == 0
    ensures NextChild(it).Some? ==>
              SlotSize(it.node, it.slot) == Size(NextChild(it).value.0) + SlotSize(it.node, NextChild(it).value.1.slot)
    decreases BranchFactor - it.slot
  {
    if it.slot < BranchFactor {
      var next := ChildCursor(it.node, it.slot + 1);
      match it.node.children[it.slot]
      case Some(c) =>
        assert NextChild(it) == Some((c, next));
      case None =>
        SlotSizeStep(next);
        assert NextChild(it) == NextChild(next);
        assert SlotSize(it.node, it.slot) == SlotSize(it.node, it.slot + 1);
    }
  }

  /** Every frame of a stack is a valid cursor. */
  ghost predicate StackOk<K, V>(stack: seq<ChildCursor<K, V>>)
  {
    forall i | 0 <= i < |stack| :: CursorOk(stack[i])
  }

  /** The pairs a stack has still to yield: the top frame's first. */
  ghost function FramesItems<K, V>(stack: seq<ChildCursor<K, V>>): seq<(K, V)>
    requires StackOk(stack)
  {
    if stack == [] then []
    else
      var top := stack[|stack| - 1];
      SlotItems(top.node, top.slot) + FramesItems(stack[..|stack| - 1])
  }

  /** The nodes a stack has still to reach. */
  ghost function FramesSize<K, V>(stack: seq<ChildCursor<K, V>>): nat
    requires StackOk(stack)
  {
    if stack == [] then 0
    else
      var top := stack[|stack| - 1];
      SlotSize(top.node, top.slot) + FramesSize(stack[..|stack| - 1])
  }

  // ---------------------------------------------------------------------
  // The iterator
  // ---------------------------------------------------------------------

  /** `Iter`: the root, whether it has been visited, and a stack of child cursors. */
  class Iter<K, V> {
    const root: Node<K, V>
    var rootVisited: bool
    var stack: seq<ChildCursor<K, V>>

    ghost predicate Valid()
      reads this
    {
      Shaped(root) && StackOk(stack) && (!rootVisited ==> stack == [])
    }

    /** What the iterator has still to yield, in order. */
    ghost function Remaining(): seq<(K, V)>
      reads this
      requires Valid()
    {
      if rootVisited then FramesItems(stack) else Items(root)
    }

    /** `Iter::new`: nothing visited yet; the whole tree is still to come. */
    constructor(root: Node<K, V>)
      requires Shaped(root)
      ensures Valid() && this.root == root && !rootVisited && stack == []
      ensures Remaining() == Items(root)
    {
      this.root := root;
      rootVisited := false;
      stack := [];
    }

    /**
     * `next`: the first call visits the root and pushes a cursor over its
     * slots; then the top cursor either yields a child, which is pushed in
     * turn and yields its own pair if it has one, or is exhausted and popped.
     * The result is the next pair of the pre-order walk, and nothing, for
     * good, once the walk is over.
     */
    method Next() returns (r: Option<(K, V)>)
      modifies this
      requires Valid()
      ensures Valid() && rootVisited
      ensures old(Remaining()) == [] ==> r.None? && Remaining() == []
      ensures old(Remaining()) != [] ==> r == Some(old(Remaining())[0]) && Remaining() == old(Remaining())[1..]
    {
      if !rootVisited {
        RootFrame(root);
        rootVisited := true;
        stack := [ChildIter(root)];
        var kv := KvAsPair(root);
        if kv.Some? {
          r := kv;
          return;
        }
      }
      while true
        invariant Valid() && rootVisited
        invariant Remaining() == old(Remaining())
        decreases FramesSize(stack), |stack|
      {
        if stack == [] {
          r := None;
          return;
        }
        var rest, top := stack[..|stack| - 1], stack[|stack| - 1];
        assert stack == rest + [top];
        match NextChild(top)
        case None =>
          PopFrame(rest, top);
          stack := rest;
        case Some((c, advanced)) =>
          PushFrame(rest, top, c, advanced);
          stack := rest + [advanced, ChildIter(c)];
          var kv := KvAsPair(c);
          if kv.Some? {
            r := kv;
            return;
          }
      }
    }
  }

  /** A frame pushed on a stack contributes its slots' items and nodes ahead of the rest. */
  lemma FramesTop<K, V>(rest: seq<ChildCursor<K, V>>, top: ChildCursor<K, V>)
    requires StackOk(rest) && CursorOk(top)
    ensures StackOk(rest + [top])
    ensures FramesItems(rest + [top]) == SlotItems(top.node, top.slot) + FramesItems(rest)
    ensures FramesSize(rest + [top]) == SlotSize(top.node, top.slot) + FramesSize(rest)
  {
    assert (rest + [top])[..|rest|] == rest;
  }

  /** Visiting the root leaves its slots as the only frame. */
  lemma RootFrame<K, V>(root: Node<K, V>)
    requires Shaped(root)
    ensures StackOk([ChildIter(root)])
    ensures Items(root) == OwnItem(root) + FramesItems([ChildIter(root)])
  {
    var top := ChildIter(root);
    assert top == ChildCursor(root, 0);
    FramesTop([], top);
    assert [] + [top] == [top];
  }

  /** An exhausted top frame is popped without losing an item; the walk has as many nodes left. */
  lemma PopFrame<K, V>(rest: seq<ChildCursor<K, V>>, top: ChildCursor<K, V>)
    requires StackOk(rest) && CursorOk(top) && NextChild(top).None?
    ensures StackOk(rest + [top])
    ensures FramesItems(rest + [top]) == FramesItems(rest)
    ensures FramesSize(rest + [top]) == FramesSize(rest)
  {
    SlotStep(top);
    FramesTop(rest, top);
  }

  /**
   * The child a top frame yields is pushed above the advanced frame: the
   * child's own pair comes first, then its slots, then the rest as before,
   * and one node fewer is left to reach.
   */
  lemma PushFrame<K, V>(rest: seq<ChildCursor<K, V>>, top: ChildCursor<K, V>, c: Node<K, V>, advanced: ChildCursor<K, V>)
    requires StackOk(rest) && CursorOk(top) && NextChild(top) == Some((c, advanced))
    ensures StackOk(rest + [top]) && StackOk(rest + [advanced, ChildIter(c)])
    ensures FramesItems(rest + [top]) == OwnItem(c) + FramesItems(rest + [advanced, ChildIter(c)])
    ensures FramesSize(rest + [advanced, ChildIter(c)]) < FramesSize(rest + [top])
  {
    assert Shaped(c) by {
      assert top.node.children[advanced.slot - 1] == Some(c);
    }
    var below := rest + [advanced];
    assert below + [ChildIter(c)] == rest + [advanced, ChildIter(c)];
    FramesTop(rest, top);
    FramesTop(rest, advanced);
    FramesTop(below, ChildIter(c));
    PushItems(top, c, advanced, FramesItems(rest));
    SlotSizeStep(top);
  }

  /** The items of a frame that yields `c`: `c`'s own pair, `c`'s slots, then the advanced frame's. */
  lemma PushItems<K, V>(top: ChildCursor<K, V>, c: Node<K, V>, advanced: ChildCursor<K, V>, tail: seq<(K, V)>)
    requires CursorOk(top) && NextChild(top) == Some((c, advanced)) && Shaped(c)
    ensures SlotItems(top.node, top.slot) + tail ==
            OwnItem(c) + (SlotItems(c, 0) + (SlotItems(advanced.node, advanced.slot) + tail))
  {
    SlotItemsStep(top);
  }

  /** `f` applied to each element, in order. */
  function Project<A, B>(s: seq<A>, f: A -> B): seq<B>
  {
    seq(|s|, i requires 0 <= i < |s| => f(s[i]))
  }

  /** The first components of a sequence of pairs. */
  function Firsts<K, V>(s: seq<(K, V)>): seq<K>
  {
    Project(s, (p: (K, V)) => p.0)
  }

  /** The second components of a sequence of pairs. */
  function Seconds<K, V>(s: seq<(K, V)>): seq<V>
  {
    Project(s, (p: (K, V)) => p.1)
  }

  /** `Keys`: the keys of an `Iter`'s items, in the same order. */
  class Keys<K, V> {
    const inner: Iter<K, V>

    ghost predicate Valid()
      reads this, inner
    {
      inner.Valid()
    }

    ghost function Remaining(): seq<K>
      reads this, inner
      requires Valid()
    {
      Firsts(inner.Remaining())
    }

    constructor(iter: Iter<K, V>)
      requires iter.Valid()
      ensures Valid() && inner == iter
      ensures Remaining() == Firsts(iter.Remaining())
    {
      inner := iter;
    }

    method Next() returns (r: Option<K>)
      modifies inner
      requires Valid()
      ensures Valid()
      ensures old(Remaining()) == [] ==> r.None? && Remaining() == []
      ensures old(Remaining()) != [] ==> r == Some(old(Remaining())[0]) && Remaining() == old(Remaining())[1..]
    {
      var item := inner.Next();
      match item
      case None =>
        r := None;
      case Some((k, _)) =>
        r := Some(k);
    }
  }

  /** `Values`: the values of an `Iter`'s items, in the same order. */
  class Values<K, V> {
    const inner: Iter<K, V>

    ghost predicate Valid()
      reads this, inner
    {
      inner.Valid()
    }

    ghost function Remaining(): seq<V>
      reads this, inner
      requires Valid()
    {
      Seconds(inner.Remaining())
    }

    constructor(iter: Iter<K, V>)
      requires iter.Valid()
      ensures Valid() && inner == iter
      ensures Remaining() == Seconds(iter.Remaining())
    {
      inner := iter;
    }

    method Next() returns (r: Option<V>)
      modifies inner
      requires Valid()
      ensures Valid()
      ensures old(Remaining()) == [] ==> r.None? && Remaining() == []
      ensures old(Remaining()) != [] ==> r == Some(old(Remaining())[0]) && Remaining() == old(Remaining())[1..]
    {
      var item := inner.Next();
      match item
      case None =>
        r := None;
      case Some((_, v)) =>
        r := Some(v);
    }
  }

  // ---------------------------------------------------------------------
  // What the walk yields
  // ---------------------------------------------------------------------

  /** The (key, value) pairs of a list of entries. */
  function Pairs<K, V>(es: seq<Entry<K, V>>): seq<(K, V)>
  {
    seq(|es|, i requires 0 <= i < |es| => (es[i].kv.key, es[i].kv.value))
  }

  lemma PairsConcat<K, V>(a: seq<Entry<K, V>>, b: seq<Entry<K, V>>)
    ensures Pairs(a + b) == Pairs(a) + Pairs(b)
  {
  }

  /** The walk yields the pairs of the entries below `n`, in the order they are listed. */
  lemma {:induction false} ItemsAreEntries<K, V>(n: Node<K, V>, prefix: seq<Nibble>)
    requires Shaped(n)
    ensures Items(n) == Pairs(Entries(n, prefix))
    decreases n, 1
  {
    var path := prefix + n.fragment;
    SlotItemsAreEntries(n, path, 0);
    PairsConcat(if n.kv.Some? then [Entry(path, n.kv.value)] else [], SlotEntries(n, path, 0));
  }

  lemma {:induction false} SlotItemsAreEntries<K, V>(n: Node<K, V>, path: seq<Nibble>, i: nat)
    requires Shaped(n) && i <= BranchFactor
    ensures SlotItems(n, i) == Pairs(SlotEntries(n, path, i))
    decreases n, 0, BranchFactor - i
  {
    if i < BranchFactor {
      SlotItemsAreEntries(n, path, i + 1);
      match n.children[i]
      case None =>
      case Some(c) =>
        ItemsAreEntries(c, path);
        PairsConcat(Entries(c, path), SlotEntries(n, path, i + 1));
    }
  }

  /**
   * The walk over a valid trie yields every stored (key, value) pair and
   * nothing else, each key once, `length` pairs in all.
   */
  lemma ItemsCover<K, V>(t: Trie<K, V>)
    requires t.Valid()
    ensures forall x :: x in Items(t.node) <==> t.Get(x.0) == Some(x.1)
    ensures |Items(t.node)| == t.length
    ensures forall i, j | 0 <= i < j < |Items(t.node)| :: Items(t.node)[i].0 != Items(t.node)[j].0
  {
    ItemsAreEntries(t.node, []);
    t.ValidIntegrity();
    EntriesStored(t);
    forall x
      ensures x in Items(t.node) <==> t.Get(x.0) == Some(x.1)
    {
      if t.Get(x.0) == Some(x.1) {
        ItemsComplete(t, x);
      }
    }
    EntriesDistinct(t.node, []);
  }

  /**
   * The walk is a pre-order: a pair whose key's encoding is a proper prefix
   * of another's (an ancestor in the tree) is yielded first.
   */
  lemma ItemsPreOrder<K, V>(t: Trie<K, V>)
    requires t.Valid()
    ensures forall i, j | 0 <= i < |Items(t.node)| && 0 <= j < |Items(t.node)| &&
                          t.encode(Items(t.node)[i].0) < t.encode(Items(t.node)[j].0) :: i < j
  {
    var es := Entries(t.node, []);
    ItemsAreEntries(t.node, []);
    EntriesStored(t);
    EntriesAncestorsFirst(t.node, []);
    forall i, j | 0 <= i < |Items(t.node)| && 0 <= j < |Items(t.node)| &&
                  t.encode(Items(t.node)[i].0) < t.encode(Items(t.node)[j].0)
      ensures i < j
    {
      assert es[i] in es && es[j] in es;
      assert es[i].path < es[j].path;
    }
  }

  /** Each entry the walk lists is stored in the trie's map, under its owning key's encoding. */
  lemma EntriesStored<K, V>(t: Trie<K, V>)
    requires t.Valid()
    ensures forall e | e in Entries(t.node, []) :: e.path in t.Contents && t.Contents[e.path] == e.kv
    ensures AllEncoded(Entries(t.node, []), t.encode)
  {
    t.ValidIntegrity();
    EntriesSound(t.node, []);
    forall e | e in Entries(t.node, [])
      ensures e.path in t.Contents && t.Contents[e.path] == e.kv
    {
      assert e.path[0..] == e.path;
      assert Lookup(t.node, e.path) == Find(t.Contents, e.path);
    }
  }

  /** Every pair the trie returns for its key is listed by the walk. */
  lemma ItemsComplete<K, V>(t: Trie<K, V>, x: (K, V))
    requires t.Valid() && t.Get(x.0) == Some(x.1)
    ensures x in Items(t.node)
  {
    var q := t.encode(x.0);
    var es := Entries(t.node, []);
    ItemsAreEntries(t.node, []);
    assert Lookup(t.node, q) == Some(KeyValue(x.0, x.1));
    EntriesComplete(t.node, [], q);
    assert [] + q == q;
    var k :| 0 <= k < |es| && es[k] == Entry(q, KeyValue(x.0, x.1));
    assert Items(t.node)[k] == x;
  }

  // ---------------------------------------------------------------------
  // Building a trie from pairs (`from_iter`)
  // ---------------------------------------------------------------------

  /** The entries that inserting `pairs` in order leaves: a fold of map updates. */
  function Built<K, V>(encode: K -> seq<Nibble>, pairs: seq<(K, V)>): map<seq<Nibble>, KeyValue<K, V>>
  {
    if pairs == [] then map[]
    else
      var last := pairs[|pairs| - 1];
      Built(encode, pairs[..|pairs| - 1])[encode(last.0) := KeyValue(last.0, last.1)]
  }

  /**
   * A path holds an entry when some pair encodes to it, and the entry is the
   * last such pair: the last write wins.
   */
  lemma {:induction false} BuiltLastWriteWins<K, V>(encode: K -> seq<Nibble>, pairs: seq<(K, V)>, q: seq<Nibble>)
    ensures q in Built(encode, pairs) <==> exists i | 0 <= i < |pairs| :: encode(pairs[i].0) == q
    ensures forall i | 0 <= i < |pairs| && encode(pairs[i].0) == q && (forall j | i < j < |pairs| :: encode(pairs[j].0) != q)
              :: q in Built(encode, pairs) && Built(encode, pairs)[q] == KeyValue(pairs[i].0, pairs[i].1)
    decreases |pairs|
  {
    if pairs != [] {
      var init, last := pairs[..|pairs| - 1], pairs[|pairs| - 1];
      BuiltLastWriteWins(encode, init, q);
      forall i | 0 <= i < |init|
        ensures init[i] == pairs[i]
      {
      }
      if encode(last.0) != q {
        if q in Built(encode, pairs) {
          var i :| 0 <= i < |init| && encode(init[i].0) == q;
          assert encode(pairs[i].0) == q;
        }
      } else {
        assert encode(pairs[|pairs| - 1].0) == q;
      }
    }
  }

  /** `FromIterator::from_iter`: a new trie with every pair inserted in order. */
  method FromIter<K(==), V>(encode: K -> seq<Nibble>, pairs: seq<(K, V)>) returns (t: Trie<K, V>)
    ensures fresh(t) && t.Valid() && t.encode == encode
    ensures t.Contents == Built(encode, pairs)
  {
    t := new Trie(encode);
    for i := 0 to |pairs|
      invariant fresh(t) && t.Valid() && t.encode == encode
      invariant t.Contents == Built(encode, pairs[..i])
    {
      var _ := t.Insert(pairs[i].0, pairs[i].1);
      assert pairs[..i + 1][..i] == pairs[..i];
    }
    assert pairs[..|pairs|] == pairs;
  }

  /** No element occurs twice. */
  ghost predicate NoDuplicates<A>(s: seq<A>)
  {
    forall i, j | 0 <= i < j < |s| :: s[i] != s[j]
  }

  lemma {:induction false} NoDuplicatesCount<A>(s: seq<A>, x: A)
    requires NoDuplicates(s)
    ensures multiset(s)[x] == if x in s then 1 else 0
  {
    if s != [] {
      assert s == [s[0]] + s[1..];
      assert NoDuplicates(s[1..]) by {
        forall i, j | 0 <= i < j < |s[1..]|
          ensures s[1..][i] != s[1..][j]
        {
          assert s[1..][i] == s[i + 1] && s[1..][j] == s[j + 1];
        }
      }
      NoDuplicatesCount(s[1..], x);
      if x == s[0] {
        assert x !in s[1..] by {
          forall k | 0 <= k < |s[1..]|
            ensures s[1..][k] != x
          {
            assert s[1..][k] == s[k + 1];
          }
        }
      }
    }
  }

  /** Two duplicate-free sequences with the same elements are permutations of each other. */
  lemma SameElements<A>(a: seq<A>, b: seq<A>)
    requires NoDuplicates(a) && NoDuplicates(b)
    requires forall x :: x in a <==> x in b
    ensures multiset(a) == multiset(b)
  {
    forall x
      ensures multiset(a)[x] == multiset(b)[x]
    {
      NoDuplicatesCount(a, x);
      NoDuplicatesCount(b, x);
    }
  }

  lemma ProjectConcat<A, B>(a: seq<A>, b: seq<A>, f: A -> B)
    ensures Project(a + b, f) == Project(a, f) + Project(b, f)
  {
  }

  /** Taking the same element out of two permutations of each other leaves permutations. */
  lemma RemoveOccurrence<A>(a: seq<A>, b: seq<A>, k: nat)
    requires multiset(a) == multiset(b) && a != [] && k < |b| && b[k] == a[0]
    ensures multiset(a[1..]) == multiset(b[..k] + b[k + 1..])
    ensures b == b[..k] + [a[0]] + b[k + 1..] && a == [a[0]] + a[1..]
  {
    var x, rest := a[0], b[..k] + b[k + 1..];
    assert b == b[..k] + [x] + b[k + 1..];
    assert a == [x] + a[1..];
    assert multiset(b) == multiset(b[..k]) + multiset{x} + multiset(b[k + 1..]);
    assert multiset(rest) == multiset(b[..k]) + multiset(b[k + 1..]);
    assert multiset(a) == multiset{x} + multiset(a[1..]);
    forall y
      ensures multiset(a[1..])[y] == multiset(rest)[y]
    {
      assert multiset(a)[y] == multiset(b)[y];
    }
  }

  /** Projecting a permutation gives a permutation. */
  lemma {:induction false} ProjectPermutation<A, B>(a: seq<A>, b: seq<A>, f: A -> B)
    requires multiset(a) == multiset(b)
    ensures multiset(Project(a, f)) == multiset(Project(b, f))
    decreases |a|
  {
    if a == [] {
      assert |b| == |multiset(b)| == 0;
    } else {
      var x := a[0];
      assert x in multiset(b);
      var k :| 0 <= k < |b| && b[k] == x;
      var rest := b[..k] + b[k + 1..];
      RemoveOccurrence(a, b, k);
      ProjectPermutation(a[1..], rest, f);
      ProjectConcat([x], a[1..], f);
      ProjectConcat(b[..k], b[k + 1..], f);
      ProjectConcat(b[..k] + [x], b[k + 1..], f);
      ProjectConcat(b[..k], [x], f);
    }
  }

  /**
   * A trie built from pairs with distinct encodings walks through exactly
   * those pairs, in some order; so do its keys and its values.
   */
  lemma FromIterItems<K, V>(t: Trie<K, V>, pairs: seq<(K, V)>)
    requires t.Valid() && t.Contents == Built(t.encode, pairs)
    requires forall i, j | 0 <= i < j < |pairs| :: t.encode(pairs[i].0) != t.encode(pairs[j].0)
    ensures multiset(Items(t.node)) == multiset(pairs)
    ensures multiset(Firsts(Items(t.node))) == multiset(Firsts(pairs))
    ensures multiset(Seconds(Items(t.node))) == multiset(Seconds(pairs))
  {
    var items := Items(t.node);
    ItemsCover(t);
    forall x
      ensures x in items <==> x in pairs
    {
      var q := t.encode(x.0);
      BuiltLastWriteWins(t.encode, pairs, q);
      if x in pairs {
        var i :| 0 <= i < |pairs| && pairs[i] == x;
        assert t.Contents[q] == KeyValue(x.0, x.1);
      }
      if x in items {
        var i :| 0 <= i < |pairs| && t.encode(pairs[i].0) == q;
        assert t.Contents[q] == KeyValue(pairs[i].0, pairs[i].1);
        assert pairs[i] == x;
      }
    }
    assert NoDuplicates(pairs) by {
      forall i, j | 0 <= i < j < |pairs|
        ensures pairs[i] != pairs[j]
      {
        assert t.encode(pairs[i].0) != t.encode(pairs[j].0);
      }
    }
    assert NoDuplicates(items) by {
      forall i, j | 0 <= i < j < |items|
        ensures items[i] != items[j]
      {
        assert items[i].0 != items[j].0;
      }
    }
    SameElements(items, pairs);
    ProjectPermutation(items, pairs, (p: (K, V)) => p.0);
    ProjectPermutation(items, pairs, (p: (K, V)) => p.1);
  }
}
