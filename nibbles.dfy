/**
 * Nibble sequences: the key space of the trie. A key is encoded into a
 * sequence of 4-bit symbols, and every descent compares such sequences.
 * The packed representation of the Rust `NibbleVec` is not modelled: a
 * `seq<Nibble>` stands for it, so `split`, `join` and indexing are Dafny's
 * slicing, concatenation and indexing.
 */
module Nibbles {

  /** A 4-bit symbol, the index of one of a node's 16 child slots. */
  type Nibble = x: int | 0 <= x < 16

  /** The number of child slots of every node, one per nibble value. */
  const BranchFactor: nat := 16

  /**
   * `match_count`: the length of the longest common prefix of `a` and `b`.
   */
  function MatchCount(a: seq<Nibble>, b: seq<Nibble>): (r: nat)
    ensures r <= |a| && r <= |b|
    ensures a[..r] == b[..r]
    ensures r < |a| && r < |b| ==> a[r] != b[r]
  {
    if |a| == 0 || |b| == 0 || a[0] != b[0] then 0
    else
      var r' := MatchCount(a[1..], b[1..]);
      assert a[..r' + 1] == [a[0]] + a[1..][..r'];
      assert b[..r' + 1] == [b[0]] + b[1..][..r'];
      1 + r'
  }

  /** The whole of `a` is matched exactly when `a` is a prefix of `b`. */
  lemma MatchCountPrefix(a: seq<Nibble>, b: seq<Nibble>)
    ensures MatchCount(a, b) == |a| <==> a <= b
  {
  }

  /** A common prefix of two sequences stops where they first differ. */
  lemma PrefixOfConcat(a: seq<Nibble>, b: seq<Nibble>, p: seq<Nibble>)
    ensures a + b <= p <==> a <= p && b <= p[|a|..]
  {
    if a + b <= p {
      assert p[..|a|] == (a + b)[..|a|];
      assert p[|a|..][..|b|] == (a + b)[|a|..];
    }
    if a <= p && b <= p[|a|..] {
      assert p[..|a| + |b|] == p[..|a|] + p[|a|..][..|b|];
    }
  }

  /** Both paths run through `f`: they agree exactly when their tails agree. */
  lemma SameTail(f: seq<Nibble>, p: seq<Nibble>, q: seq<Nibble>)
    requires f <= p && f <= q
    ensures p == q <==> p[|f|..] == q[|f|..]
  {
    assert p == f + p[|f|..];
    assert q == f + q[|f|..];
  }

  /** The first `m + d` nibbles of `q`: its first `m`, then `d` more. */
  lemma SlicePrefix(q: seq<Nibble>, m: nat, d: nat)
    requires m + d <= |q|
    ensures q[..m + d][..m] == q[..m]
    ensures q[..m + d][m..] == q[m..][..d]
    ensures q[..m] <= q[..m + d]
    ensures d > 0 ==> q[..m + d][m] == q[m]
  {
  }
}
