/**
 * The `Trie` container: a root node that owns the whole tree, and the
 * cached number of entries. Its abstract state is the map from paths
 * (key encodings) to the owning key/value pairs stored there.
 */
module Tries {
  import opened Wrappers
  import opened Nibbles
  import opened TrieNodes
  import opened NodeEntries
  import NodeInsert
  import NodeRemove
  import NodeSearch

  /** The entry a map of paths holds at `p`. */
  function Find<K, V>(m: map<seq<Nibble>, KeyValue<K, V>>, p: seq<Nibble>): Option<KeyValue<K, V>>
  {
    if p in m then Some(m[p]) else None
  }

  /** A borrowed, read-only view: a node and the path along which it was reached. */
  datatype SubTrie<K, V> = SubTrie(prefix: seq<Nibble>, node: Node<K, V>)

  /**
   * A view with write access. The borrowed length counter of the source is
   * the owning trie itself, through which edits keep the count right.
   */
  datatype SubTrieMut<K(==), V> = SubTrieMut(prefix: seq<Nibble>, trie: Trie<K, V>)

  /** A view is one of `root` when its prefix leads from `root` to its node. */
  ghost predicate ViewOf<K, V>(root: Node<K, V>, view: SubTrie<K, V>)
    requires Shaped(root)
  {
    Get(root, view.prefix) == Some(view.node)
  }

  class Trie<K(==), V> {
    /** The key encoding: deterministic and total, not necessarily injective. */
    const encode: K -> seq<Nibble>
    var length: nat
    var node: Node<K, V>
    /** The stored entries, by path. */
    ghost var Contents: map<seq<Nibble>, KeyValue<K, V>>

    /**
     * The root has an empty fragment and the tree its invariants; the tree
     * stores exactly `Contents`, every key at its own encoding (I6), and
     * `length` counts the entries (I5).
     */
    ghost predicate Valid()
      reads this
    {
      && node.fragment == []
      && WellFormed(node, true)
      && (forall p :: Lookup(node, p) == Find(Contents, p))
      && (forall p | p in Contents :: encode(Contents[p].key) == p)
      && length == |Contents|
    }

    /** `Trie::new`: the empty trie. */
    constructor(encode: K -> seq<Nibble>)
      ensures Valid() && fresh(this)
      ensures this.encode == encode && Contents == map[] && length == 0
      ensures CheckIntegrity()
    {
      this.encode := encode;
      length := 0;
      node := NewNode();
      Contents := map[];
      new;
      CountSomeNone(node.children);
      forall p
        ensures Lookup(node, p) == Find(Contents, p)
      {
        EmptyLookup(node, p);
      }
      ValidIntegrity();
    }

    /**
     * `get`: the value stored for `key`. An entry at `key`'s encoding that
     * is owned by a different key with the same encoding is not returned.
     */
    function Get(key: K): (r: Option<V>)
      reads this
      requires Valid()
      ensures r.Some? <==> encode(key) in Contents && Contents[encode(key)].key == key
      ensures r.Some? ==> r.value == Contents[encode(key)].value
    {
      var q := encode(key);
      assert Lookup(node, q) == Find(Contents, q);
      match TrieNodes.Get(node, q)
      case None => None
      case Some(t) => ValueChecked(t, key)
    }

    /**
     * `get_mut`: when `key` has a value, the borrow it returns is used to
     * apply `edit` to it in place. Reports whether there was a value.
     */
    method GetMut(key: K, edit: V -> V) returns (found: bool)
      modifies this
      requires Valid()
      ensures Valid()
      ensures found <==> old(Get(key)).Some?
      ensures found ==> Contents == old(Contents)[encode(key) := KeyValue(key, edit(old(Get(key)).value))]
      ensures !found ==> Contents == old(Contents) && node == old(node)
      ensures length == old(length)
    {
      var q := encode(key);
      match TrieNodes.Get(node, q)
      case None =>
        found := false;
      case Some(t) =>
        match ValueChecked(t, key)
        case None =>
          found := false;
        case Some(v) =>
          var kv := KeyValue(key, edit(v));
          node := NodeSearch.SetValue(node, q, edit(v), true);
          Contents := Contents[q := kv];
          found := true;
    }

    /**
     * `insert`: store `value` for `key` and return the value the slot held
     * before. That value may belong to a different key with the same
     * encoding, which the new pair replaces. The count grows only when
     * nothing was there.
     */
    method Insert(key: K, value: V) returns (prev: Option<V>)
      modifies this
      requires Valid()
      ensures Valid()
      ensures prev.Some? <==> encode(key) in old(Contents)
      ensures prev.Some? ==> prev.value == old(Contents)[encode(key)].value
      ensures Contents == old(Contents)[encode(key) := KeyValue(key, value)]
      ensures length == if prev.None? then old(length) + 1 else old(length)
      ensures Get(key) == Some(value)
      ensures CheckIntegrity()
    {
      var q := encode(key);
      var (n', p) := NodeInsert.Insert(node, key, value, q, true);
      node := n';
      Contents := Contents[q := KeyValue(key, value)];
      if p.None? {
        length := length + 1;
      }
      prev := p;
      ValidIntegrity();
    }

    /**
     * `remove`: take out the entry owned by `key`. Nothing happens when the
     * key is absent or its encoding's slot belongs to another key.
     */
    method Remove(key: K) returns (removed: Option<V>)
      modifies this
      requires Valid()
      ensures Valid()
      ensures removed == old(Get(key))
      ensures removed.Some? ==> Contents == old(Contents) - {encode(key)} && length == old(length) - 1
      ensures removed.None? ==> Contents == old(Contents) && node == old(node) && length == old(length)
      ensures Get(key).None?
      ensures CheckIntegrity()
    {
      var q := encode(key);
      var (n', r) := NodeRemove.Remove(node, key, q, true);
      node := n';
      if r.Some? {
        Contents := Contents - {q};
        length := length - 1;
      }
      removed := r;
      ValidIntegrity();
    }

    /** `value_mut`: apply `edit` to the value stored at the root, whatever its key. */
    method ValueMut(edit: V -> V) returns (found: bool)
      modifies this
      requires Valid()
      ensures Valid()
      ensures found <==> [] in old(Contents)
      ensures found ==> Contents == old(Contents)[[] := KeyValue(old(Contents)[[]].key, edit(old(Contents)[[]].value))]
      ensures !found ==> Contents == old(Contents) && node == old(node)
      ensures length == old(length)
    {
      LookupUnfold(node, []);
      match node.kv
      case None =>
        found := false;
      case Some(kv) =>
        node := NodeSearch.SetValue(node, [], edit(kv.value), true);
        Contents := Contents[[] := KeyValue(kv.key, edit(kv.value))];
        found := true;
    }

    /**
     * `subtrie`: the view of the node that `key`'s encoding reaches. It sees,
     * below its own fragment, exactly what the trie stores behind the key.
     */
    function Subtrie(key: K): (r: Option<SubTrie<K, V>>)
      reads this
      requires Valid()
      ensures r.Some? ==> r.value.prefix == encode(key) && ViewOf(node, r.value)
      ensures r.Some? ==> forall p :: Lookup(r.value.node, r.value.node.fragment + p) == Find(Contents, encode(key) + p)
      ensures r.Some? <==> TrieNodes.Get(node, encode(key)).Some?
      ensures r.None? ==> encode(key) !in Contents
    {
      var q := encode(key);
      match TrieNodes.Get(node, q)
      case None =>
        assert Lookup(node, q).None?;
        None
      case Some(t) =>
        SubtrieSees(q);
        Some(SubTrie(q, t))
    }

    lemma SubtrieSees(q: seq<Nibble>)
      requires Valid() && TrieNodes.Get(node, q).Some?
      ensures forall p :: Lookup(TrieNodes.Get(node, q).value, TrieNodes.Get(node, q).value.fragment + p) == Find(Contents, q + p)
    {
      forall p
        ensures Lookup(TrieNodes.Get(node, q).value, TrieNodes.Get(node, q).value.fragment + p) == Find(Contents, q + p)
      {
        NodeSearch.GetConcat(node, q, p);
      }
    }

    /**
     * `subtrie_mut`: a writable view of the same node `subtrie` reaches,
     * holding on to this trie.
     */
    function SubtrieMut(key: K): (r: Option<SubTrieMut<K, V>>)
      reads this
      requires Valid()
      ensures r.Some? <==> Subtrie(key).Some?
      ensures r.Some? ==> r.value.prefix == Subtrie(key).value.prefix && r.value.trie == this
    {
      var q := encode(key);
      match TrieNodes.Get(node, q)
      case None => None
      case Some(_) => Some(SubTrieMut(q, this))
    }

    /**
     * `get_ancestor`: the view of the deepest node holding an entry whose
     * path is a prefix of `key`'s encoding. The view's prefix is that
     * node's own path.
     */
    function GetAncestor(key: K): (r: Option<SubTrie<K, V>>)
      reads this
      requires Valid()
      ensures r.Some? ==> ViewOf(node, r.value) && r.value.prefix <= encode(key)
      ensures r.Some? ==> r.value.node.kv.Some? && Find(Contents, r.value.prefix) == r.value.node.kv
      ensures r.Some? ==> forall j | |r.value.prefix| < j <= |encode(key)| :: encode(key)[..j] !in Contents
      ensures r.None? ==> forall j | 0 <= j <= |encode(key)| :: encode(key)[..j] !in Contents
    {
      var q := encode(key);
      match NodeSearch.GetAncestor(node, q)
      case None =>
        assert forall j | 0 <= j <= |q| :: Lookup(node, q[..j]) == Find(Contents, q[..j]);
        None
      case Some((a, d)) =>
        assert |q[..d]| == d;
        assert forall j | d < j <= |q| :: Lookup(node, q[..j]) == Find(Contents, q[..j]);
        assert Lookup(node, q[..d]) == a.kv;
        Some(SubTrie(q[..d], a))
    }

    /** `get_ancestor_value`: the value that `GetAncestor` finds. */
    function GetAncestorValue(key: K): (r: Option<V>)
      reads this
      requires Valid()
      ensures r.Some? <==> GetAncestor(key).Some?
      ensures r.Some? ==> r.value == Contents[GetAncestor(key).value.prefix].value
    {
      match GetAncestor(key)
      case None => None
      case Some(t) => ValueOf(t.node.kv)
    }

    /**
     * `map_with_default`: apply `f` in place to `key`'s value when it has
     * one; otherwise insert `default` for it, without calling `f`.
     */
    method MapWithDefault(key: K, f: V -> V, default: V)
      modifies this
      requires Valid()
      ensures Valid()
      ensures old(Get(key)).Some? ==>
                Contents == old(Contents)[encode(key) := KeyValue(key, f(old(Get(key)).value))] && length == old(length)
      ensures old(Get(key)).None? ==>
                && Contents == old(Contents)[encode(key) := KeyValue(key, default)]
                && length == if encode(key) in old(Contents) then old(length) else old(length) + 1
      ensures Get(key) == Some(if old(Get(key)).Some? then f(old(Get(key)).value) else default)
      ensures CheckIntegrity()
    {
      var found := GetMut(key, f);
      if found {
        ValidIntegrity();
        return;
      }
      var _ := Insert(key, default);
    }

    /**
     * `check_integrity`: the recursive check from the root succeeds and the
     * entries it counts are `length`.
     */
    function CheckIntegrity(): (ok: bool)
      reads this
      requires Shaped(node)
      ensures ok <==> WellFormed(node, true) && AllEncoded(Entries(node, []), encode) && |Entries(node, [])| == length
    {
      var (fine, count) := CheckIntegrityRecursive(node, [], true, encode);
      fine && count == length
    }

    /** A valid trie passes its integrity check. */
    lemma ValidIntegrity()
      requires Valid()
      ensures CheckIntegrity()
    {
      var es := Entries(node, []);
      EntriesSound(node, []);
      EntriesDistinct(node, []);
      PathsCard(es);
      forall p | p in Contents
        ensures p in Paths(es)
      {
        EntriesComplete(node, [], p);
      }
      assert Paths(es) == Contents.Keys;
    }

    /**
     * Conversely, a tree that stores `Contents` and passes the check meets
     * every invariant of a valid trie.
     */
    lemma IntegrityValid()
      requires Shaped(node) && node.fragment == []
      requires forall p :: Lookup(node, p) == Find(Contents, p)
      requires CheckIntegrity()
      ensures Valid()
    {
      var es := Entries(node, []);
      EntriesSound(node, []);
      EntriesDistinct(node, []);
      PathsCard(es);
      forall p | p in Contents
        ensures p in Paths(es) && encode(Contents[p].key) == p
      {
        EntriesComplete(node, [], p);
      }
      assert Paths(es) == Contents.Keys;
    }
  }

  /**
   * `get_ancestor` as the source writes it: the view's prefix is the whole
   * encoding of the queried key, not the path of the ancestor it found.
   */
  function AncestorViewAsWritten<K, V>(root: Node<K, V>, q: seq<Nibble>): (r: Option<SubTrie<K, V>>)
    requires Structured(root)
    ensures r.Some? <==> NodeSearch.GetAncestor(root, q).Some?
    ensures r.Some? ==> r.value.node == NodeSearch.GetAncestor(root, q).value.0
    ensures r.Some? ==> r.value.prefix == q && r.value.node.kv.Some?
  {
    match NodeSearch.GetAncestor(root, q)
    case None => None
    case Some((a, _)) => Some(SubTrie(q, a))
  }

  /** A leaf holding key 0 at path `[1]`. */
  function SampleLeaf(): Node<int, int>
  {
    Leaf([1], KeyValue(0, 0))
  }

  /** A root whose only child is `SampleLeaf()`, in slot 1. */
  function SampleRoot(): Node<int, int>
  {
    Node([], None, EmptySlots()[1 := Some(SampleLeaf())], 1)
  }

  /**
   * A root with one entry at path `[1]`, queried with `[1, 2]`: the view
   * as written claims the prefix `[1, 2]`, which leads nowhere in the tree,
   * while the ancestor's own path is `[1]`.
   */
  lemma AncestorPrefixAsWritten()
    ensures WellFormed(SampleRoot(), true)
    ensures AncestorViewAsWritten(SampleRoot(), [1, 2]) == Some(SubTrie([1, 2], SampleLeaf()))
    ensures !ViewOf(SampleRoot(), AncestorViewAsWritten(SampleRoot(), [1, 2]).value)
    ensures ViewOf(SampleRoot(), SubTrie([1], SampleLeaf()))
  {
    SampleShape();
    SampleAncestor();
  }

  /** The sample tree is well formed, reaches its leaf by `[1]` and nothing by `[1, 2]`. */
  lemma SampleShape()
    ensures WellFormed(SampleRoot(), true)
    ensures Get(SampleRoot(), [1, 2]).None?
    ensures Get(SampleRoot(), [1]) == Some(SampleLeaf())
  {
    SampleWellFormed();
    var leaf, root := SampleLeaf(), SampleRoot();
    assert root.children[1] == Some(leaf);
    assert [1, 2][0..] == [1, 2] && [1][0..] == [1];
    GetStep(root, [1, 2], leaf);
    GetUnfold(leaf, [1, 2]);
    GetStep(root, [1], leaf);
    GetUnfold(leaf, [1]);
  }

  lemma SampleWellFormed()
    ensures WellFormed(SampleRoot(), true)
  {
    LeafWellFormed([1], KeyValue(0, 0), 1);
    NodeInsert.OneChild([], None, SampleLeaf(), 1);
  }

  /** In the sample tree, the deepest entry on `[1, 2]` is the leaf, one nibble in. */
  lemma SampleAncestor()
    ensures Structured(SampleRoot())
    ensures NodeSearch.GetAncestor(SampleRoot(), [1, 2]) == Some((SampleLeaf(), 1))
  {
    var leaf, root := SampleLeaf(), SampleRoot();
    SampleWellFormed();
    MatchCountPrefix(root.fragment, [1, 2]);
    assert [1, 2][0..] == [1, 2];
    MatchCountPrefix(leaf.fragment, [1, 2]);
    assert MatchCount(leaf.fragment, [1, 2]) == 1 by {
      assert [1, 2][..1] == [1];
    }
    assert leaf.children[2].None?;
    assert NodeSearch.GetAncestor(leaf, [1, 2]) == Some((leaf, 1));
    assert root.children[1] == Some(leaf);
  }
}
