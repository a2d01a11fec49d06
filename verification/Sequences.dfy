/** Small facts about duplicate-free sequences, finite sets and maps. */
module Sequences {

  ghost predicate NoDup<T>(s: seq<T>) {
    forall i, j :: 0 <= i < j < |s| ==> s[i] != s[j]
  }

  function Elems<T>(s: seq<T>): set<T> {
    set x | x in s
  }

  lemma {:induction false} NoDupCard<T>(s: seq<T>)
    requires NoDup(s)
    ensures |Elems(s)| == |s|
  {
    if s != [] {
      var rest, x := s[..|s| - 1], s[|s| - 1];
      NoDupCard(rest);
      assert s == rest + [x];
      assert Elems(s) == Elems(rest) + {x};
    }
  }

  lemma NoDupConcat<T>(a: seq<T>, b: seq<T>)
    requires NoDup(a) && NoDup(b) && forall x :: x in b ==> x !in a
    ensures NoDup(a + b)
  {
    forall i, j | 0 <= i < j < |a + b| ensures (a + b)[i] != (a + b)[j] {
      if j >= |a| {
        assert (a + b)[j] == b[j - |a|] && b[j - |a|] in b;
        assert (a + b)[i] == if i < |a| then a[i] else b[i - |a|];
      }
    }
  }

  lemma SubsetCard<T>(a: set<T>, b: set<T>)
    requires a <= b
    ensures |a| <= |b|
  {
    if a != {} {
      var x :| x in a;
      SubsetCard(a - {x}, b - {x});
    }
  }

  /** A duplicate-free sequence over a set is no longer than the set. */
  lemma NoDupBound<T>(s: seq<T>, within: set<T>)
    requires NoDup(s) && Elems(s) <= within
    ensures |s| <= |within|
  {
    NoDupCard(s);
    SubsetCard(Elems(s), within);
  }

  function RemoveAt<T>(s: seq<T>, k: nat): seq<T>
    requires k < |s|
  {
    s[..k] + s[k + 1..]
  }

  lemma RemoveAtMultiset<T>(s: seq<T>, k: nat)
    requires k < |s|
    ensures multiset(RemoveAt(s, k)) == multiset(s) - multiset{s[k]}
  {
    assert s == s[..k] + [s[k]] + s[k + 1..];
  }

  lemma MinusMinus<K, V>(m: map<K, V>, a: set<K>, b: set<K>)
    ensures m - a - b == m - (a + b)
  {
  }

  lemma MinusAbsent<K, V>(m: map<K, V>, a: set<K>)
    requires a !! m.Keys
    ensures m - a == m
  {
  }

  /** Removing one more element, after `gone`, from sets kept over the keys `all`. */
  lemma OneMoreGone<T>(s: set<T>, marked: set<T>, all: set<T>, gone: set<T>, x: T)
    ensures s - gone - {x} == s - (gone + {x})
    ensures marked + (gone * all) + ({x} * (all - gone)) == marked + ((gone + {x}) * all)
  {
  }

  lemma ElemsPrefix<T>(s: seq<T>, i: nat)
    requires i < |s|
    ensures Elems(s[..i + 1]) == Elems(s[..i]) + {s[i]}
  {
    assert s[..i + 1] == s[..i] + [s[i]];
  }

  lemma NextOf<T>(s: seq<T>, i: nat)
    requires NoDup(s) && i < |s|
    ensures s[i] !in s[..i] && s[i] in Elems(s) && s[..i + 1] == s[..i] + [s[i]]
  {
  }

  lemma SingletonFacts<T>(without: set<T>, within: set<T>, x: T)
    requires x !in without && x in within
    ensures without - {x} == without && {x} * within == {x}
  {
  }

  lemma SplitElems<T>(s: seq<T>, n: nat)
    requires NoDup(s) && n <= |s|
    ensures Elems(s) - Elems(s[..n]) == Elems(s[n..])
  {
    forall x | x in s[n..] ensures x in s && x !in s[..n] {
      var k :| 0 <= k < |s| - n && s[n..][k] == x;
      assert s[n + k] == x;
    }
    forall x | x in s && x !in s[..n] ensures x in s[n..] {
      var k :| 0 <= k < |s| && s[k] == x;
      assert k >= n;
      assert s[n..][k - n] == x;
    }
  }

  /** A set as a list, in any order. */
  method ListOf<T(==)>(s: set<T>) returns (l: seq<T>)
    ensures NoDup(l) && Elems(l) == s
  {
    l := [];
    var todo := s;
    while todo != {}
      invariant todo <= s && NoDup(l) && forall x :: x in l <==> x in s && x !in todo
      decreases todo
    {
      var x :| x in todo;
      l, todo := l + [x], todo - {x};
    }
  }
}
