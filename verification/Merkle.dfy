/**
 * Merkle roots and branches over any two-argument hash: folding the branch of a leaf gives
 * the root, with the last hash of an odd level paired with itself.
 */
module Merkle {

  type Combine<!T> = (T, T) -> T

  /** An odd level gets its last hash once more. */
  function Padded<T>(hs: seq<T>): (r: seq<T>)
    ensures |r| % 2 == 0 && |hs| <= |r| <= |hs| + 1 && hs <= r
  {
    if |hs| % 2 != 0 then hs + [hs[|hs| - 1]] else hs
  }

  /** The level above: neighbours combined. */
  function NextLevel<T>(f: Combine<T>, hs: seq<T>): (r: seq<T>)
    ensures |r| == (|hs| + 1) / 2
  {
    var p := Padded(hs);
    seq(|p| / 2, i requires 0 <= i < |p| / 2 => f(p[2 * i], p[2 * i + 1]))
  }

  /** The root of a non-empty list. */
  function Root<T>(f: Combine<T>, hs: seq<T>): T
    requires hs != []
    decreases |hs|
  {
    if |hs| == 1 then hs[0] else Root(f, NextLevel(f, hs))
  }

  function Sibling(i: nat): nat {
    if i % 2 == 0 then i + 1 else i - 1
  }

  /** The siblings on the way up from position i. */
  function Branch<T>(f: Combine<T>, hs: seq<T>, i: nat): seq<T>
    requires i < |hs|
    decreases |hs|
  {
    if |hs| == 1 then [] else [Padded(hs)[Sibling(i)]] + Branch(f, NextLevel(f, hs), i / 2)
  }

  function Fold<T>(f: Combine<T>, leaf: T, branch: seq<T>, i: nat): T {
    if branch == [] then leaf
    else Fold(f, if i % 2 == 0 then f(leaf, branch[0]) else f(branch[0], leaf), branch[1..], i / 2)
  }

  /** Neighbours are combined in order, and the last hash of an odd level with itself. */
  lemma LevelMeaning<T>(f: Combine<T>, hs: seq<T>, i: nat)
    requires i < |NextLevel(f, hs)|
    ensures 2 * i + 1 < |hs| ==> NextLevel(f, hs)[i] == f(hs[2 * i], hs[2 * i + 1])
    ensures 2 * i + 1 == |hs| ==> NextLevel(f, hs)[i] == f(hs[2 * i], hs[2 * i])
    ensures 2 * i < |hs|
  {
  }

  lemma RootOfThree<T>(f: Combine<T>, a: T, b: T, c: T)
    ensures Root(f, [a, b, c]) == f(f(a, b), f(c, c))
  {
    var up := NextLevel(f, [a, b, c]);
    assert up == [f(a, b), f(c, c)];
    assert NextLevel(f, up) == [f(f(a, b), f(c, c))];
    assert Root(f, [a, b, c]) == Root(f, up) == Root(f, NextLevel(f, up));
  }

  /** The pair a position belongs to, with its sibling on the proper side. */
  lemma PairAt<T>(f: Combine<T>, hs: seq<T>, i: nat)
    requires i < |hs| && |hs| > 1
    ensures Sibling(i) < |Padded(hs)| && i / 2 < |NextLevel(f, hs)|
    ensures NextLevel(f, hs)[i / 2] ==
      if i % 2 == 0 then f(hs[i], Padded(hs)[Sibling(i)]) else f(Padded(hs)[Sibling(i)], hs[i])
  {
    var p := Padded(hs);
    assert p[i] == hs[i] && i == 2 * (i / 2) + i % 2;
  }

  /** Folding the branch of any leaf over the leaf gives the root. */
  lemma {:induction false} BranchLeadsToRoot<T>(f: Combine<T>, hs: seq<T>, i: nat)
    requires i < |hs|
    ensures Fold(f, hs[i], Branch(f, hs, i), i) == Root(f, hs)
    decreases |hs|
  {
    if |hs| > 1 {
      var k, b, up := i / 2, Branch(f, hs, i), NextLevel(f, hs);
      BranchLeadsToRoot(f, up, k);
      PairAt(f, hs, i);
      assert b[0] == Padded(hs)[Sibling(i)] && b[1..] == Branch(f, up, k);
      assert Fold(f, hs[i], b, i) == Fold(f, up[k], b[1..], k);
    }
  }

  /** The branch of the first leaf does not depend on the leaf. */
  lemma {:induction false} FirstBranchIgnoresLeaf<T>(f: Combine<T>, a: seq<T>, b: seq<T>)
    requires |a| == |b| > 0 && a[1..] == b[1..]
    ensures Branch(f, a, 0) == Branch(f, b, 0)
    decreases |a|
  {
    if |a| > 1 {
      var up, up' := NextLevel(f, a), NextLevel(f, b);
      assert forall j :: 1 <= j < |a| ==> a[j] == a[1..][j - 1] && b[j] == b[1..][j - 1];
      assert forall k :: 1 <= k < |up| ==> up[k] == up'[k];
      assert up[1..] == up'[1..];
      FirstBranchIgnoresLeaf(f, up, up');
    }
  }

  /** A link computed with a placeholder for the coinbase gives the true root for the real one. */
  lemma PlaceholderLinkIsRight<T>(f: Combine<T>, placeholder: T, coinbase: T, rest: seq<T>)
    ensures Fold(f, coinbase, Branch(f, [placeholder] + rest, 0), 0) == Root(f, [coinbase] + rest)
  {
    FirstBranchIgnoresLeaf(f, [placeholder] + rest, [coinbase] + rest);
    BranchLeadsToRoot(f, [coinbase] + rest, 0);
  }

  /** The inner loop of the level-building functions, over an even level. */
  method BuildLevel<T>(f: Combine<T>, p: seq<T>) returns (next: seq<T>)
    requires |p| % 2 == 0
    ensures next == NextLevel(f, p)
  {
    next := [];
    var i := 0;
    while i < |p|
      invariant 0 <= i <= |p| && i % 2 == 0 && next == NextLevel(f, p)[..i / 2]
    {
      next := next + [f(p[i], p[i + 1])];
      i := i + 2;
    }
  }

  lemma PaddedLevel<T>(f: Combine<T>, hs: seq<T>)
    ensures NextLevel(f, Padded(hs)) == NextLevel(f, hs)
  {
  }

  /** calculateMerkleRootFromHashes; `zero` is the root of the empty list. */
  method MerkleRoot<T>(f: Combine<T>, hashes: seq<T>, zero: T) returns (root: T)
    ensures root == if hashes == [] then zero else Root(f, hashes)
  {
    if |hashes| == 0 {
      return zero;
    }
    var hs := hashes;
    while |hs| > 1
      invariant hs != [] && Root(f, hs) == Root(f, hashes)
      decreases |hs|
    {
      PaddedLevel(f, hs);
      if |hs| % 2 != 0 {
        hs := hs + [hs[|hs| - 1]];
      }
      hs := BuildLevel(f, hs);
    }
    root := hs[0];
  }

  /** One level of the branch, after what was collected below it. */
  lemma BranchStep<T>(f: Combine<T>, below: seq<T>, hs: seq<T>, i: nat)
    requires i < |hs| && |hs| > 1
    ensures Sibling(i) < |Padded(hs)| && i / 2 < |NextLevel(f, hs)| < |hs|
    ensures below + Branch(f, hs, i) == below + [Padded(hs)[Sibling(i)]] + Branch(f, NextLevel(f, hs), i / 2)
  {
    PairAt(f, hs, i);
  }

  /** CalculateMerkleLink and CalculateMerkleLinkFromHashes; an index outside a non-empty list panics. */
  method MerkleLink<T>(f: Combine<T>, hashes: seq<T>, index: nat) returns (branch: seq<T>)
    requires hashes == [] || index < |hashes|
    ensures branch == if hashes == [] then [] else Branch(f, hashes, index)
  {
    branch := [];
    var hs := hashes;
    var i: nat := index;
    while |hs| > 1
      invariant hs == [] <==> hashes == []
      invariant hashes != [] ==> i < |hs| && branch + Branch(f, hs, i) == Branch(f, hashes, index)
      invariant hashes == [] ==> branch == []
      decreases |hs|
    {
      PaddedLevel(f, hs);
      BranchStep(f, branch, hs, i);
      if |hs| % 2 != 0 {
        hs := hs + [hs[|hs| - 1]];
      }
      branch := branch + [hs[Sibling(i)]];
      hs := BuildLevel(f, hs);
      i := i / 2;
    }
  }

  /** ComputeMerkleRootFromLink */
  method RootFromLink<T>(f: Combine<T>, leaf: T, branch: seq<T>, index: nat) returns (root: T)
    ensures root == Fold(f, leaf, branch, index)
  {
    root := leaf;
    var i := index;
    for k := 0 to |branch|
      invariant Fold(f, root, branch[k..], i) == Fold(f, leaf, branch, index)
    {
      assert branch[k..][1..] == branch[k + 1..];
      root := if i % 2 == 0 then f(root, branch[k]) else f(branch[k], root);
      i := i / 2;
    }
  }
}
