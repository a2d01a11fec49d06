/**
 * Tip choice: the tolerant comparison the chain uses, the exact order it is meant to
 * follow, and the grid condition under which the two are the same.
 */
module Tip {
  import opened Shares

  const TOLERANCE := 0.000000001

  /** The comparison of the code, with its 1e-9 tolerance on work. */
  predicate BetterTip(w: real, h: Hash, bestW: real, bestH: Hash) {
    w > bestW + TOLERANCE || (w >= bestW - TOLERANCE && h > bestH)
  }

  /** More work first, then the greater hash. */
  predicate Beats(w: real, h: Hash, w': real, h': Hash) {
    w > w' || (w == w' && h > h')
  }

  predicate Candidate(m: ShareMap, verified: set<Hash>, h: Hash) {
    h in m && h in verified && !m[h].stale
  }

  /** If some share can be the tip, `tip` is the one that beats all the others. */
  ghost predicate TipBest(m: ShareMap, verified: set<Hash>, work: map<Hash, real>, tip: Hash)
    requires work.Keys == m.Keys
  {
    forall c :: Candidate(m, verified, c) ==>
      && Candidate(m, verified, tip)
      && (c == tip || Beats(work[tip], tip, work[c], c))
  }

  /** The best tip: verified, not stale, and ahead of every verified share that is not stale. */
  lemma TipBestMeaning(m: ShareMap, verified: set<Hash>, work: map<Hash, real>, tip: Hash)
    requires work.Keys == m.Keys
    ensures TipBest(m, verified, work, tip) <==>
      forall c :: c in m && c in verified && !m[c].stale ==>
        && tip in m && tip in verified && !m[tip].stale
        && (c == tip || work[tip] > work[c] || (work[tip] == work[c] && tip > c))
  {
  }

  /** Works within the tolerance of each other are in the order of their hashes. */
  ghost predicate Comparable(work: map<Hash, real>) {
    forall a, b :: a in work && b in work && work[a] < work[b] <= work[a] + TOLERANCE ==> a < b
  }

  function Times(k: int, unit: real): real {
    k as real * unit
  }

  ghost predicate Multiple(x: real, unit: real) {
    exists k: int :: x == Times(k, unit)
  }

  /** Every held share's own work is a multiple of a unit coarser than the tolerance. */
  ghost predicate OnGrid(m: ShareMap, unit: real) {
    unit > TOLERANCE && forall h :: h in m ==> ShareOnGrid(m[h], unit)
  }

  ghost predicate ShareOnGrid(s: Share, unit: real) {
    Multiple(OwnWork(s), unit)
  }

  /** On comparable works the code's comparison is the exact order. */
  lemma BetterTipIsBeats(work: map<Hash, real>, a: Hash, b: Hash)
    requires Comparable(work) && a in work && b in work
    ensures BetterTip(work[a], a, work[b], b) <==> Beats(work[a], a, work[b], b)
  {
  }

  /** And on no others: comparable works are exactly those on which the comparison is the order. */
  lemma ComparableExactly(work: map<Hash, real>)
    ensures Comparable(work) <==>
      forall a, b :: a in work && b in work ==> (BetterTip(work[a], a, work[b], b) <==> Beats(work[a], a, work[b], b))
  {
    if Comparable(work) {
      forall a, b | a in work && b in work
        ensures BetterTip(work[a], a, work[b], b) <==> Beats(work[a], a, work[b], b)
      {
        BetterTipIsBeats(work, a, b);
      }
    }
  }

  /** A share that starts a chain, with the given difficulty. */
  function FirstShare(h: Hash, diff: Difficulty): Share {
    Share(h, None, 0, 0, false, 24, diff, None, 0.0, false, true, 0, 20, 1, 0, [], None)
  }

  /** Three chains of one share each, 7e-10 apart in work. */
  function CloseChains(): ShareMap {
    map[1 := FirstShare(1, 100.0000000014), 2 := FirstShare(2, 100.0000000007), 3 := FirstShare(3, 100.0)]
  }

  /**
   * Held shares, all candidates, on which the comparison goes round in a circle: no choice of tip
   * is independent of the scan order.
   */
  lemma BetterTipCycles(rank: Rank)
    ensures var m := CloseChains();
      && Keyed(m) && Acyclic(m, rank) && (forall h :: h in m ==> Candidate(m, m.Keys, h))
      && var work := map h | h in m :: TotalsOf(m, rank, h).work;
      && BetterTip(work[3], 3, work[2], 2) && BetterTip(work[2], 2, work[1], 1) && BetterTip(work[1], 1, work[3], 3)
  {
    var m := CloseChains();
    assert forall h :: h in m ==> ShareRanked(h, m[h], rank);
    assert TotalsOf(m, rank, 1).work == 100.0000000014 && TotalsOf(m, rank, 2).work == 100.0000000007;
    assert TotalsOf(m, rank, 3).work == 100.0;
  }

  /** At most one share can be the best tip. */
  lemma TipBestUnique(m: ShareMap, verified: set<Hash>, work: map<Hash, real>, a: Hash, b: Hash)
    requires work.Keys == m.Keys
    requires TipBest(m, verified, work, a) && TipBest(m, verified, work, b)
    requires exists c :: Candidate(m, verified, c)
    ensures a == b
  {
    var c :| Candidate(m, verified, c);
    assert Candidate(m, verified, a) && Candidate(m, verified, b);
  }

  lemma MultipleAdd(x: real, y: real, unit: real)
    requires Multiple(x, unit) && Multiple(y, unit)
    ensures Multiple(x + y, unit) && Multiple(x - y, unit)
  {
    var i: int :| x == Times(i, unit);
    var j: int :| y == Times(j, unit);
    assert x + y == Times(i + j, unit);
    assert x - y == Times(i - j, unit);
  }

  lemma MultipleApart(x: real, y: real, unit: real)
    requires unit > TOLERANCE && Multiple(x, unit) && Multiple(y, unit) && x > y
    ensures x > y + TOLERANCE
  {
    MultipleAdd(x, y, unit);
    var k: int :| x - y == Times(k, unit);
    assert k >= 1;
    assert Times(k, unit) == Times(k - 1, unit) + unit;
  }

  /** The held shares are on the grid, and so are the works kept for them. */
  ghost predicate Graded(m: ShareMap, unit: real, work: map<Hash, real>) {
    OnGrid(m, unit) && forall h {:trigger Multiple(work[h], unit)} :: h in work ==> Multiple(work[h], unit)
  }

  /** Works on the grid are equal or further apart than the tolerance. */
  lemma GradedComparable(m: ShareMap, unit: real, work: map<Hash, real>)
    requires Graded(m, unit, work)
    ensures Comparable(work)
    ensures forall a, b :: a in work && b in work ==>
      work[a] == work[b] || work[a] > work[b] + TOLERANCE || work[b] > work[a] + TOLERANCE
  {
    forall a, b | a in work && b in work
      ensures work[a] == work[b] || work[a] > work[b] + TOLERANCE || work[b] > work[a] + TOLERANCE
    {
      assert Multiple(work[a], unit) && Multiple(work[b], unit);
      if work[a] > work[b] {
        MultipleApart(work[a], work[b], unit);
      } else if work[b] > work[a] {
        MultipleApart(work[b], work[a], unit);
      }
    }
  }

  lemma {:induction false} TotalsOnGrid(m: ShareMap, rank: Rank, unit: real, h: Hash)
    requires Acyclic(m, rank) && OnGrid(m, unit)
    ensures Multiple(TotalsOf(m, rank, h).work, unit)
    decreases rank(h)
  {
    assert 0.0 == Times(0, unit);
    if h in m {
      assert ShareRanked(h, m[h], rank) && ShareOnGrid(m[h], unit);
      match PrevKey(m[h])
      case None => MultipleAdd(0.0, OwnWork(m[h]), unit);
      case Some(p) =>
        TotalsOnGrid(m, rank, unit, p);
        MultipleAdd(TotalsOf(m, rank, p).work, OwnWork(m[h]), unit);
    }
  }

  /** Works that equal the totals of a store on the grid are on the grid. */
  lemma ExactGraded(m: ShareMap, rank: Rank, unit: real, work: map<Hash, real>)
    requires Acyclic(m, rank) && OnGrid(m, unit)
    requires forall h :: h in work ==> work[h] == TotalsOf(m, rank, h).work
    ensures Graded(m, unit, work)
  {
    forall h | h in work
      ensures Multiple(work[h], unit)
    {
      TotalsOnGrid(m, rank, unit, h);
    }
  }
}
