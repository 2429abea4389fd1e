/**
 * The entries below a node, listed in the order a pre-order walk meets them
 * (a node's own entry, then its slots in ascending order), each with its
 * absolute path; and the recursive integrity check
 * (`TrieNode::check_integrity_recursive`).
 */
module NodeEntries {
  import opened Wrappers
  import opened Nibbles
  import opened TrieNodes

  /** An entry together with the path that leads to it from the root. */
  datatype Entry<K, V> = Entry(path: seq<Nibble>, kv: KeyValue<K, V>)

  /**
   * The entries of the subtree at `n`, reached from the root along `prefix`
   * (the fragments above `n`).
   */
  function Entries<K, V>(n: Node<K, V>, prefix: seq<Nibble>): seq<Entry<K, V>>
    requires Shaped(n)
    decreases n, 1
  {
    var path := prefix + n.fragment;
    (if n.kv.Some? then [Entry(path, n.kv.value)] else []) + SlotEntries(n, path, 0)
  }

  /** The entries below slots `i` to 15 of `n`, whose own path is `path`. */
  function SlotEntries<K, V>(n: Node<K, V>, path: seq<Nibble>, i: nat): seq<Entry<K, V>>
    requires Shaped(n) && i <= BranchFactor
    decreases n, 0, BranchFactor - i
  {
    if i == BranchFactor then []
    else
      (match n.children[i]
       case None => []
       case Some(c) => Entries(c, path)) + SlotEntries(n, path, i + 1)
  }

  /** No two entries share a path. */
  ghost predicate DistinctPaths<K, V>(s: seq<Entry<K, V>>)
  {
    forall i, j | 0 <= i < j < |s| :: s[i].path != s[j].path
  }

  /** The set of paths of a list of entries. */
  ghost function Paths<K, V>(s: seq<Entry<K, V>>): set<seq<Nibble>>
  {
    set e | e in s :: e.path
  }

  /** Invariant I6: every stored key encodes to the path of its node. */
  ghost predicate AllEncoded<K, V>(s: seq<Entry<K, V>>, encode: K -> seq<Nibble>)
  {
    forall e | e in s :: encode(e.kv.key) == e.path
  }

  // ---------------------------------------------------------------------
  // Where entries sit
  // ---------------------------------------------------------------------

  /** Every entry below `n` lies behind `n`'s own path. */
  lemma {:induction false} EntriesBehind<K, V>(n: Node<K, V>, prefix: seq<Nibble>)
    requires Structured(n)
    ensures forall e | e in Entries(n, prefix) :: prefix + n.fragment <= e.path
    decreases n, 1
  {
    SlotEntriesBehind(n, prefix + n.fragment, 0);
  }

  /** The entries below slots `i` to 15 leave `path` through one of those slots. */
  lemma {:induction false} SlotEntriesBehind<K, V>(n: Node<K, V>, path: seq<Nibble>, i: nat)
    requires Structured(n) && i <= BranchFactor
    ensures forall e | e in SlotEntries(n, path, i) :: path <= e.path && |e.path| > |path| && e.path[|path|] >= i
    decreases n, 0, BranchFactor - i
  {
    if i < BranchFactor {
      SlotEntriesBehind(n, path, i + 1);
      if n.children[i].Some? {
        var c := n.children[i].value;
        assert WellFormedChild(c, i);
        EntriesBehind(c, path);
        forall e | e in Entries(c, path)
          ensures path <= e.path && |e.path| > |path| && e.path[|path|] == i
        {
          assert e.path[..|path| + 1] == (path + c.fragment)[..|path| + 1];
        }
      }
    }
  }

  // ---------------------------------------------------------------------
  // Entries against Lookup
  // ---------------------------------------------------------------------

  /** Every listed entry is what `Lookup` finds at its path. */
  lemma {:induction false} EntriesSound<K, V>(n: Node<K, V>, prefix: seq<Nibble>)
    requires Structured(n)
    ensures forall e | e in Entries(n, prefix) :: prefix <= e.path && Lookup(n, e.path[|prefix|..]) == Some(e.kv)
    decreases n, 1
  {
    LookupUnfold(n, n.fragment);
    assert (prefix + n.fragment)[|prefix|..] == n.fragment;
    SlotEntriesSound(n, prefix, 0);
  }

  lemma {:induction false} SlotEntriesSound<K, V>(n: Node<K, V>, prefix: seq<Nibble>, i: nat)
    requires Structured(n) && i <= BranchFactor
    ensures forall e | e in SlotEntries(n, prefix + n.fragment, i) ::
              prefix <= e.path && Lookup(n, e.path[|prefix|..]) == Some(e.kv)
    decreases n, 0, BranchFactor - i
  {
    var f, path := n.fragment, prefix + n.fragment;
    if i < BranchFactor {
      SlotEntriesSound(n, prefix, i + 1);
      if n.children[i].Some? {
        var c := n.children[i].value;
        assert WellFormedChild(c, i);
        EntriesSound(c, path);
        SlotEntriesBehind(n, path, i);
        forall e | e in Entries(c, path)
          ensures prefix <= e.path && Lookup(n, e.path[|prefix|..]) == Some(e.kv)
        {
          var rel := e.path[|prefix|..];
          assert e.path[..|prefix|] == path[..|prefix|];
          assert rel[..|f|] == f;
          assert rel[|f|] == e.path[|path|];
          assert rel[|f|..] == e.path[|path|..];
          LookupUnfold(n, rel);
        }
      }
    }
  }

  /** Every entry `Lookup` finds is listed, with its absolute path. */
  lemma {:induction false} EntriesComplete<K, V>(n: Node<K, V>, prefix: seq<Nibble>, p: seq<Nibble>)
    requires Shaped(n) && Lookup(n, p).Some?
    ensures Entry(prefix + p, Lookup(n, p).value) in Entries(n, prefix)
    decreases n
  {
    var f := n.fragment;
    LookupUnfold(n, p);
    if |p| == |f| {
      assert p == f;
    } else {
      var c := n.children[p[|f|]].value;
      EntriesComplete(c, prefix + f, p[|f|..]);
      assert prefix + f + p[|f|..] == prefix + p by {
        assert p == f + p[|f|..];
      }
      SlotEntriesContain(n, prefix + f, 0, p[|f|]);
    }
  }

  /** The entries below slot `j` are among those below slots `i` to 15, for `i <= j`. */
  lemma {:induction false} SlotEntriesContain<K, V>(n: Node<K, V>, path: seq<Nibble>, i: nat, j: nat)
    requires Shaped(n) && i <= j < BranchFactor && n.children[j].Some?
    ensures forall e | e in Entries(n.children[j].value, path) :: e in SlotEntries(n, path, i)
    decreases j - i
  {
    if i < j {
      SlotEntriesContain(n, path, i + 1, j);
    }
  }

  // ---------------------------------------------------------------------
  // Pre-order
  // ---------------------------------------------------------------------

  /** Entries whose paths lie on one line from the root come ancestor first. */
  ghost predicate AncestorsFirst<K, V>(s: seq<Entry<K, V>>)
  {
    forall i, j | 0 <= i < |s| && 0 <= j < |s| && s[i].path < s[j].path :: i < j
  }

  lemma AncestorsFirstConcat<K, V>(a: seq<Entry<K, V>>, b: seq<Entry<K, V>>)
    requires AncestorsFirst(a) && AncestorsFirst(b)
    requires forall x, y | x in a && y in b :: !(y.path < x.path)
    ensures AncestorsFirst(a + b)
  {
    forall i, j | 0 <= i < |a + b| && 0 <= j < |a + b| && (a + b)[i].path < (a + b)[j].path
      ensures i < j
    {
      if i >= |a| && j >= |a| {
        assert (a + b)[i] == b[i - |a|] && (a + b)[j] == b[j - |a|];
      } else if i >= |a| {
        ConcatSides(a, b, j, i);
        assert false;
      }
    }
  }

  /** Positions left of `|a|` in `a + b` hold elements of `a`, the others elements of `b`. */
  lemma ConcatSides<T>(a: seq<T>, b: seq<T>, k: nat, l: nat)
    requires k < |a| <= l < |a| + |b|
    ensures (a + b)[k] in a && (a + b)[l] in b
  {
    assert (a + b)[k] == a[k];
    assert (a + b)[l] == b[l - |a|];
  }

  /** The entries below a node run in pre-order: a node's entry comes before its descendants'. */
  lemma {:induction false} EntriesAncestorsFirst<K, V>(n: Node<K, V>, prefix: seq<Nibble>)
    requires Structured(n)
    ensures AncestorsFirst(Entries(n, prefix))
    decreases n, 1
  {
    var path := prefix + n.fragment;
    SlotEntriesAncestorsFirst(n, path, 0);
    SlotEntriesBehind(n, path, 0);
    AncestorsFirstConcat(if n.kv.Some? then [Entry(path, n.kv.value)] else [], SlotEntries(n, path, 0));
  }

  lemma {:induction false} SlotEntriesAncestorsFirst<K, V>(n: Node<K, V>, path: seq<Nibble>, i: nat)
    requires Structured(n) && i <= BranchFactor
    ensures AncestorsFirst(SlotEntries(n, path, i))
    decreases n, 0, BranchFactor - i
  {
    if i < BranchFactor {
      SlotEntriesAncestorsFirst(n, path, i + 1);
      if n.children[i].Some? {
        var c := n.children[i].value;
        assert WellFormedChild(c, i);
        EntriesAncestorsFirst(c, path);
        EntriesBehind(c, path);
        SlotEntriesBehind(n, path, i + 1);
        forall x, y | x in Entries(c, path) && y in SlotEntries(n, path, i + 1)
          ensures !(y.path < x.path)
        {
          assert x.path[..|path| + 1] == (path + c.fragment)[..|path| + 1];
        }
        AncestorsFirstConcat(Entries(c, path), SlotEntries(n, path, i + 1));
      }
    }
  }

  // ---------------------------------------------------------------------
  // Paths are distinct
  // ---------------------------------------------------------------------

  lemma DistinctConcat<K, V>(a: seq<Entry<K, V>>, b: seq<Entry<K, V>>)
    requires DistinctPaths(a) && DistinctPaths(b)
    requires forall x, y | x in a && y in b :: x.path != y.path
    ensures DistinctPaths(a + b)
  {
    forall i, j | 0 <= i < j < |a + b|
      ensures (a + b)[i].path != (a + b)[j].path
    {
      if j < |a| {
      } else if i >= |a| {
        assert (a + b)[i] == b[i - |a|] && (a + b)[j] == b[j - |a|];
      } else {
        assert (a + b)[i] in a && (a + b)[j] in b;
      }
    }
  }

  /** No two entries below a structured node share a path. */
  lemma {:induction false} EntriesDistinct<K, V>(n: Node<K, V>, prefix: seq<Nibble>)
    requires Structured(n)
    ensures DistinctPaths(Entries(n, prefix))
    decreases n, 1
  {
    var path := prefix + n.fragment;
    SlotEntriesDistinct(n, path, 0);
    SlotEntriesBehind(n, path, 0);
    DistinctConcat(if n.kv.Some? then [Entry(path, n.kv.value)] else [], SlotEntries(n, path, 0));
  }

  lemma {:induction false} SlotEntriesDistinct<K, V>(n: Node<K, V>, path: seq<Nibble>, i: nat)
    requires Structured(n) && i <= BranchFactor
    ensures DistinctPaths(SlotEntries(n, path, i))
    decreases n, 0, BranchFactor - i
  {
    if i < BranchFactor {
      SlotEntriesDistinct(n, path, i + 1);
      if n.children[i].Some? {
        var c := n.children[i].value;
        assert WellFormedChild(c, i);
        EntriesDistinct(c, path);
        EntriesBehind(c, path);
        SlotEntriesBehind(n, path, i + 1);
        forall x | x in Entries(c, path)
          ensures |x.path| > |path| && x.path[|path|] == i
        {
          assert x.path[..|path| + 1] == (path + c.fragment)[..|path| + 1];
        }
        DistinctConcat(Entries(c, path), SlotEntries(n, path, i + 1));
      }
    }
  }

  /** With distinct paths, there are as many paths as entries. */
  lemma {:induction false} PathsCard<K, V>(s: seq<Entry<K, V>>)
    requires DistinctPaths(s)
    ensures |Paths(s)| == |s|
  {
    if s != [] {
      var t := s[1..];
      DistinctTail(s);
      PathsCard(t);
      assert Paths(s) == {s[0].path} + Paths(t) by {
        assert s == [s[0]] + t;
      }
    }
  }

  /** Dropping the first entry keeps paths distinct, and its path is not among the others. */
  lemma DistinctTail<K, V>(s: seq<Entry<K, V>>)
    requires DistinctPaths(s) && s != []
    ensures DistinctPaths(s[1..])
    ensures s[0].path !in Paths(s[1..])
  {
    var t := s[1..];
    forall i, j | 0 <= i < j < |t|
      ensures t[i].path != t[j].path
    {
      assert t[i] == s[i + 1] && t[j] == s[j + 1];
    }
    forall e | e in t
      ensures e.path != s[0].path
    {
      var k :| 0 <= k < |t| && t[k] == e;
      assert s[k + 1] == e;
    }
  }

  // ---------------------------------------------------------------------
  // The integrity check
  // ---------------------------------------------------------------------

  /**
   * `check_integrity_recursive`: whether the subtree at `n`, reached along
   * `prefix`, meets I1, I3, I4 and I6, and how many entries it holds.
   */
  function CheckIntegrityRecursive<K, V>(n: Node<K, V>, prefix: seq<Nibble>, isRoot: bool, encode: K -> seq<Nibble>)
    : (r: (bool, nat))
    requires Shaped(n)
    ensures r.0 <==> WellFormed(n, isRoot) && AllEncoded(Entries(n, prefix), encode)
    ensures r.1 == |Entries(n, prefix)|
    decreases n, 1
  {
    var path := prefix + n.fragment;
    var countOk := CountSome(n.children) == n.childCount;
    var compact := isRoot || n.kv.Some? || n.childCount >= 2;
    var keyOk := n.kv.None? || encode(n.kv.value.key) == path;
    var (slotsOk, below) := CheckSlots(n, path, 0, encode);
    (countOk && compact && keyOk && slotsOk, (if n.kv.Some? then 1 else 0) + below)
  }

  /** The check of the children in slots `i` to 15 and the entries they hold. */
  function CheckSlots<K, V>(n: Node<K, V>, path: seq<Nibble>, i: nat, encode: K -> seq<Nibble>): (r: (bool, nat))
    requires Shaped(n) && i <= BranchFactor
    ensures r.0 <==> (forall j | i <= j < BranchFactor :: n.children[j].Some? ==> WellFormedChild(n.children[j].value, j))
                     && AllEncoded(SlotEntries(n, path, i), encode)
    ensures r.1 == |SlotEntries(n, path, i)|
    decreases n, 0, BranchFactor - i
  {
    if i == BranchFactor then (true, 0)
    else
      var (restOk, restCount) := CheckSlots(n, path, i + 1, encode);
      match n.children[i]
      case None => (restOk, restCount)
      case Some(c) =>
        var (childOk, childCount) := CheckIntegrityRecursive(c, path, false, encode);
        var placed := |c.fragment| > 0 && c.fragment[0] == i;
        (placed && childOk && restOk, childCount + restCount)
  }
}
