/**
 * The incremental index over the held shares: the children of every hash, and the
 * cumulative work and chain length of every share, recounted by a worklist after a change.
 */
module WorkIndex {
  import opened Shares
  import opened Sequences
  import opened Tip
  import Window

  type ChildIndex = map<Hash, seq<Hash>>

  function ChildrenOf(children: ChildIndex, p: Hash): seq<Hash> {
    if p in children then children[p] else []
  }

  /** `children` is the inverse of the parent relation on the shares in `dom`, without empty lists. */
  ghost predicate ChildrenExact(m: ShareMap, dom: set<Hash>, children: ChildIndex)
    requires dom <= m.Keys
  {
    && (forall p :: p in children ==> children[p] != [] && NoDup(children[p]))
    && (forall p, h :: p in children && h in children[p] ==> h in dom && PrevKey(m[h]) == Some(p))
    && (forall h :: h in dom && PrevKey(m[h]).Some? ==> h in ChildrenOf(children, PrevKey(m[h]).value))
  }

  ghost predicate EntryExact(m: ShareMap, rank: Rank, work: map<Hash, real>, len: map<Hash, nat>, h: Hash)
    requires Acyclic(m, rank)
  {
    && h in work && h in len
    && work[h] == TotalsOf(m, rank, h).work && len[h] == TotalsOf(m, rank, h).len
  }

  /** An exact entry: the number of non-stale shares on the path down, and the sum of their difficulties. */
  lemma EntryMeaning(m: ShareMap, rank: Rank, work: map<Hash, real>, len: map<Hash, nat>, h: Hash, path: seq<Hash>)
    requires Acyclic(m, rank) && EntryExact(m, rank, work, len, h) && Window.IsPath(m, h, path)
    ensures len[h] == |Window.NonStale(m, path)| && work[h] == Window.WorkOf(Window.NonStale(m, path))
  {
    Window.TotalsAlongPath(m, rank, h, path);
  }

  /** Work and length are kept for exactly the held shares and equal the recursive sums. */
  ghost predicate TotalsExact(m: ShareMap, rank: Rank, work: map<Hash, real>, len: map<Hash, nat>)
    requires Acyclic(m, rank)
  {
    && work.Keys == m.Keys && len.Keys == m.Keys
    && forall h {:trigger EntryExact(m, rank, work, len, h)} :: h in m ==> EntryExact(m, rank, work, len, h)
  }

  // ---- entries that lag behind ----

  /** h builds, through held shares, on a share in r; r need not be held. */
  ghost predicate Below(m: ShareMap, rank: Rank, r: set<Hash>, h: Hash)
    requires Acyclic(m, rank)
    decreases rank(h)
  {
    && h in m && PrevKey(m[h]).Some?
    && (PrevKey(m[h]).value in r || (assert ShareRanked(h, m[h], rank); Below(m, rank, r, PrevKey(m[h]).value)))
  }

  /** Work and length are kept for exactly the held shares, and are exact for all that do not build on r. */
  ghost predicate ExactOutside(m: ShareMap, rank: Rank, r: set<Hash>, work: map<Hash, real>, len: map<Hash, nat>)
    requires Acyclic(m, rank)
  {
    && work.Keys == m.Keys && len.Keys == m.Keys
    && forall h {:trigger EntryExact(m, rank, work, len, h)} ::
         h in m && !Below(m, rank, r, h) ==> EntryExact(m, rank, work, len, h)
  }

  lemma {:induction false} BelowNothing(m: ShareMap, rank: Rank, h: Hash)
    requires Acyclic(m, rank)
    ensures !Below(m, rank, {}, h)
    decreases rank(h)
  {
    if h in m && PrevKey(m[h]).Some? {
      assert ShareRanked(h, m[h], rank);
      BelowNothing(m, rank, PrevKey(m[h]).value);
    }
  }

  /** Exact outside nothing is exact. */
  lemma OutsideNothing(m: ShareMap, rank: Rank, work: map<Hash, real>, len: map<Hash, nat>)
    requires Acyclic(m, rank)
    ensures ExactOutside(m, rank, {}, work, len) <==> TotalsExact(m, rank, work, len)
  {
    forall h
      ensures !Below(m, rank, {}, h)
    {
      BelowNothing(m, rank, h);
    }
  }

  /** What builds on r in a store builds on r in every bigger one. */
  lemma {:induction false} BelowExtends(m: ShareMap, big: ShareMap, rank: Rank, r: set<Hash>, h: Hash)
    requires Acyclic(m, rank) && Acyclic(big, rank) && Extends(m, big) && Below(m, rank, r, h)
    ensures Below(big, rank, r, h)
    decreases rank(h)
  {
    if PrevKey(m[h]).value !in r {
      assert ShareRanked(h, m[h], rank);
      BelowExtends(m, big, rank, r, PrevKey(m[h]).value);
    }
  }

  /**
   * After a change that started at the seeds, what built on r before and is not affected builds on r'
   * now, if the held children of the hashes that left r are among the seeds.
   */
  lemma {:induction false} BelowCarries(was: ShareMap, m: ShareMap, rank: Rank, r: set<Hash>, r': set<Hash>,
                                        seeds: set<Hash>, all: set<Hash>, h: Hash)
    requires Acyclic(was, rank) && Acyclic(m, rank) && ChangedOnlyAt(was, m, seeds)
    requires DescendantClosed(m, all) && (forall x :: x in seeds && x in m ==> x in all)
    requires forall x :: x in m && PrevKey(m[x]).Some? && PrevKey(m[x]).value in r - r' ==> x in seeds
    requires h in m && h !in all && Below(was, rank, r, h)
    ensures Below(m, rank, r', h)
    decreases rank(h)
  {
    assert was[h] == m[h];
    var p := PrevKey(m[h]).value;
    if p !in r {
      assert ShareRanked(h, m[h], rank);
      assert p in was && p in m && p !in all;
      BelowCarries(was, m, rank, r, r', seeds, all, p);
    }
  }

  /** What does not build on h or r did not build on r before h was removed, and has the totals it had. */
  lemma {:induction false} OutsideRemoved(m: ShareMap, rank: Rank, r: set<Hash>, h: Hash, x: Hash)
    requires Acyclic(m, rank) && Acyclic(m - {h}, rank)
    requires x in m && x != h && !Below(m - {h}, rank, r + {h}, x)
    ensures !Below(m, rank, r, x) && TotalsOf(m - {h}, rank, x) == TotalsOf(m, rank, x)
    decreases rank(x)
  {
    assert ShareRanked(x, m[x], rank);
    var p := PrevKey(m[x]);
    if p.Some? && p.value in m {
      OutsideRemoved(m, rank, r, h, p.value);
    }
  }

  /** x is one of hs or a child of a member of all. */
  ghost predicate Descends(m: ShareMap, hs: seq<Hash>, all: seq<Hash>, x: Hash) {
    x in m && (x in hs || (PrevKey(m[x]).Some? && PrevKey(m[x]).value in all))
  }

  ghost predicate DescendsFrom(m: ShareMap, hs: seq<Hash>, all: seq<Hash>) {
    forall x {:trigger Descends(m, hs, all, x)} :: x in all ==> Descends(m, hs, all, x)
  }

  /** The held children of everything in `done` are in `all`. */
  ghost predicate ChildrenTaken(m: ShareMap, done: seq<Hash>, all: seq<Hash>) {
    forall h :: h in m && PrevKey(m[h]).Some? && PrevKey(m[h]).value in done ==> h in all
  }

  /** Appends the members of xs that are in `within` and not there yet. */
  method AppendNew(s: seq<Hash>, xs: seq<Hash>, within: set<Hash>) returns (r: seq<Hash>)
    requires NoDup(s)
    ensures NoDup(r) && s <= r
    ensures forall x :: x in r <==> x in s || (x in xs && x in within)
  {
    r := s;
    for i := 0 to |xs|
      invariant NoDup(r) && s <= r
      invariant forall x :: x in r <==> x in s || (x in xs[..i] && x in within)
    {
      assert xs[..i + 1] == xs[..i] + [xs[i]];
      if xs[i] in within && xs[i] !in r {
        r := r + [xs[i]];
      }
    }
    assert xs[..|xs|] == xs;
  }

  /** First half of updateWorkLocked: the held shares in hs and all their descendants. */
  method Affected(m: ShareMap, children: ChildIndex, hs: seq<Hash>) returns (all: seq<Hash>)
    requires ChildrenExact(m, m.Keys, children)
    ensures NoDup(all) && Elems(all) <= m.Keys
    ensures forall x :: x in hs && x in m ==> x in all
    ensures DescendantClosed(m, Elems(all))
    ensures DescendsFrom(m, hs, all)
  {
    all := AppendNew([], hs, m.Keys);
    var i := 0;
    while i < |all|
      invariant 0 <= i <= |all| && NoDup(all) && Elems(all) <= m.Keys
      invariant forall x :: x in hs && x in m ==> x in all
      invariant DescendsFrom(m, hs, all)
      invariant ChildrenTaken(m, all[..i], all)
      decreases |m| + 1 - i
    {
      NoDupBound(all, m.Keys);
      var more := AppendNew(all, ChildrenOf(children, all[i]), m.Keys);
      assert more[..i + 1] == all[..i] + [all[i]];
      assert DescendsFrom(m, hs, more) by {
        forall x | x in more ensures Descends(m, hs, more, x) {
          assert x in all ==> Descends(m, hs, all, x);
        }
      }
      all, i := more, i + 1;
    }
    assert all[..|all|] == all;
  }

  /** x can be recounted: it has no affected parent, or its parent has been recounted. */
  ghost predicate Ready(m: ShareMap, affected: set<Hash>, done: set<Hash>, x: Hash) {
    x in m && (PrevKey(m[x]).Some? ==> PrevKey(m[x]).value !in affected || PrevKey(m[x]).value in done)
  }

  /** The queue holds exactly the affected shares that are ready. */
  ghost predicate QueueExact(m: ShareMap, affected: set<Hash>, done: set<Hash>, q: seq<Hash>) {
    && NoDup(q) && Elems(q) <= affected
    && forall x {:trigger Ready(m, affected, done, x)} :: x in affected ==> (x in q <==> Ready(m, affected, done, x))
  }

  /** No share comes before its affected parent. */
  ghost predicate ParentFirst(m: ShareMap, affected: set<Hash>, q: seq<Hash>) {
    forall j :: 0 <= j < |q| && q[j] in m && PrevKey(m[q[j]]).Some? && PrevKey(m[q[j]]).value in affected
      ==> PrevKey(m[q[j]]).value in q[..j]
  }

  lemma QueueStep(m: ShareMap, children: ChildIndex, affected: set<Hash>, done: set<Hash>, q: seq<Hash>, i: nat)
    requires ChildrenExact(m, m.Keys, children) && affected <= m.Keys && DescendantClosed(m, affected)
    requires QueueExact(m, affected, done, q)
    requires i < |q| && done == Elems(q[..i])
    ensures var q' := q + ChildrenOf(children, q[i]);
            && QueueExact(m, affected, done + {q[i]}, q')
            && done + {q[i]} == Elems(q'[..i + 1])
  {
    var h, cs := q[i], ChildrenOf(children, q[i]);
    var q' := q + cs;
    assert h in Elems(q);
    assert q'[..i + 1] == q[..i] + [h];
    forall c | c in cs ensures c in affected && c !in q {
      assert PrevKey(m[c]) == Some(h);
      assert !Ready(m, affected, done, c);
    }
    NoDupConcat(q, cs);
    forall x | x in affected ensures x in q' <==> Ready(m, affected, done + {h}, x) {
      assert x in q <==> Ready(m, affected, done, x);
    }
  }

  lemma ParentFirstStep(m: ShareMap, children: ChildIndex, affected: set<Hash>, q: seq<Hash>, i: nat)
    requires ChildrenExact(m, m.Keys, children) && ParentFirst(m, affected, q) && i < |q|
    ensures ParentFirst(m, affected, q + ChildrenOf(children, q[i]))
  {
    var cs := ChildrenOf(children, q[i]);
    var q' := q + cs;
    forall j | 0 <= j < |q'| && q'[j] in m && PrevKey(m[q'[j]]).Some? && PrevKey(m[q'[j]]).value in affected
      ensures PrevKey(m[q'[j]]).value in q'[..j]
    {
      if j < |q| {
        assert q'[..j] == q[..j] && q'[j] == q[j];
      } else {
        assert q'[j] == cs[j - |q|] && q'[..j][i] == q[i];
      }
    }
  }

  /** An exact queue that is used up has visited every affected share. */
  lemma {:induction false} QueueComplete(m: ShareMap, rank: Rank, affected: set<Hash>, q: seq<Hash>, x: Hash)
    requires Acyclic(m, rank) && affected <= m.Keys
    requires QueueExact(m, affected, Elems(q), q) && x in affected
    ensures x in q
    decreases rank(x)
  {
    assert ShareRanked(x, m[x], rank);
    assert x in q <==> Ready(m, affected, Elems(q), x);
    if PrevKey(m[x]).Some? && PrevKey(m[x]).value in affected {
      QueueComplete(m, rank, affected, q, PrevKey(m[x]).value);
    }
  }

  /** Every held share outside `affected`, and every one in `done`, has an entry, exact if it does not build on r. */
  ghost predicate ExactExcept(m: ShareMap, rank: Rank, r: set<Hash>, work: map<Hash, real>, len: map<Hash, nat>,
                              affected: set<Hash>, done: set<Hash>)
    requires Acyclic(m, rank)
  {
    && work.Keys <= m.Keys && len.Keys <= m.Keys
    && (forall x :: x in m && (x !in affected || x in done) ==> x in work && x in len)
    && forall x {:trigger EntryExact(m, rank, work, len, x)} ::
         x in m && (x !in affected || x in done) && !Below(m, rank, r, x) ==> EntryExact(m, rank, work, len, x)
  }

  predicate Countable(m: ShareMap, work: map<Hash, real>, len: map<Hash, nat>, h: Hash) {
    h in m && (PrevKey(m[h]).Some? && PrevKey(m[h]).value in m ==>
                 PrevKey(m[h]).value in work && PrevKey(m[h]).value in len)
  }

  /** The held parent's entry plus the share's own work and length. */
  function CountedFrom(m: ShareMap, work: map<Hash, real>, len: map<Hash, nat>, h: Hash): Totals
    requires Countable(m, work, len, h)
  {
    var p := PrevKey(m[h]);
    var below := if p.Some? && p.value in m then Totals(work[p.value], len[p.value]) else Totals(0.0, 0);
    Totals(below.work + OwnWork(m[h]), below.len + OwnLen(m[h]))
  }

  /** The totals of a queued share follow from the entry of its parent. */
  lemma RecountStep(m: ShareMap, rank: Rank, r: set<Hash>, work: map<Hash, real>, len: map<Hash, nat>,
                    affected: set<Hash>, done: set<Hash>, q: seq<Hash>, h: Hash)
    requires Acyclic(m, rank) && ExactExcept(m, rank, r, work, len, affected, done)
    requires QueueExact(m, affected, done, q) && affected <= m.Keys && h in q
    ensures Countable(m, work, len, h)
    ensures var t := CountedFrom(m, work, len, h);
            ExactExcept(m, rank, r, work[h := t.work], len[h := t.len], affected, done + {h})
  {
    assert h in Elems(q) && Ready(m, affected, done, h);
    var p := PrevKey(m[h]);
    var t := CountedFrom(m, work, len, h);
    if !Below(m, rank, r, h) {
      if p.Some? && p.value in m {
        assert EntryExact(m, rank, work, len, p.value);
      }
      assert t == TotalsOf(m, rank, h);
    }
    forall x | x in m && (x !in affected || x in done + {h}) && !Below(m, rank, r, x)
      ensures EntryExact(m, rank, work[h := t.work], len[h := t.len], x)
    {
      assert x != h ==> EntryExact(m, rank, work, len, x);
    }
  }

  lemma CountedGraded(m: ShareMap, unit: real, work: map<Hash, real>, len: map<Hash, nat>, h: Hash)
    requires Countable(m, work, len, h) && Graded(m, unit, work)
    ensures Graded(m, unit, work[h := CountedFrom(m, work, len, h).work])
  {
    assert ShareOnGrid(m[h], unit);
    assert 0.0 == Times(0, unit);
    var p := PrevKey(m[h]);
    if p.Some? && p.value in m {
      assert Multiple(work[p.value], unit);
      MultipleAdd(work[p.value], OwnWork(m[h]), unit);
    } else {
      MultipleAdd(0.0, OwnWork(m[h]), unit);
    }
  }

  /**
   * Second half of updateWorkLocked: recounts the affected shares, each from its held parent.
   * `visits` is the order of the queue: every affected share once, after its affected parent.
   */
  method Recount(m: ShareMap, children: ChildIndex, all: seq<Hash>, oldWork: map<Hash, real>, oldLen: map<Hash, nat>,
                 ghost rank: Rank, ghost r: set<Hash>, ghost unit: real)
    returns (work: map<Hash, real>, len: map<Hash, nat>, ghost visits: seq<Hash>)
    requires Acyclic(m, rank) && ChildrenExact(m, m.Keys, children)
    requires Elems(all) <= m.Keys && NoDup(all) && DescendantClosed(m, Elems(all))
    requires ExactExcept(m, rank, r, oldWork, oldLen, Elems(all), {})
    ensures ExactOutside(m, rank, r, work, len)
    ensures Graded(m, unit, oldWork) ==> Graded(m, unit, work)
    ensures forall x :: x in m && x !in all ==> x in oldWork && work[x] == oldWork[x]
    ensures NoDup(visits) && Elems(visits) == Elems(all) && ParentFirst(m, Elems(all), visits)
  {
    work, len := oldWork, oldLen;
    ghost var affected := Elems(all);
    var q := Roots(m, all);
    var i := 0;
    ghost var done: set<Hash> := {};
    while i < |q|
      invariant 0 <= i <= |q| && done == Elems(q[..i])
      invariant QueueExact(m, affected, done, q) && ParentFirst(m, affected, q)
      invariant ExactExcept(m, rank, r, work, len, affected, done)
      invariant Graded(m, unit, oldWork) ==> Graded(m, unit, work)
      invariant forall x :: x in m && x !in affected ==> x in oldWork && x in work && work[x] == oldWork[x]
      decreases |m| + 1 - i
    {
      NoDupBound(q, m.Keys);
      var h := q[i];
      RecountStep(m, rank, r, work, len, affected, done, q, h);
      var t := CountedFrom(m, work, len, h);
      assert Graded(m, unit, oldWork) ==> Graded(m, unit, work[h := t.work]) by {
        if Graded(m, unit, oldWork) { CountedGraded(m, unit, work, len, h); }
      }
      work, len := work[h := t.work], len[h := t.len];
      QueueStep(m, children, affected, done, q, i);
      ParentFirstStep(m, children, affected, q, i);
      q := q + ChildrenOf(children, h);
      i, done := i + 1, done + {h};
    }
    assert q[..|q|] == q;
    forall x | x in affected ensures x in q {
      QueueComplete(m, rank, affected, q, x);
    }
    visits := q;
  }

  /** The affected shares without an affected parent. */
  method Roots(m: ShareMap, all: seq<Hash>) returns (q: seq<Hash>)
    requires Elems(all) <= m.Keys && NoDup(all)
    ensures QueueExact(m, Elems(all), {}, q) && ParentFirst(m, Elems(all), q)
  {
    q := [];
    for i := 0 to |all|
      invariant NoDup(q) && forall x :: x in q <==> x in all[..i] && Ready(m, Elems(all), {}, x)
    {
      var p := PrevKey(m[all[i]]);
      assert all[..i + 1] == all[..i] + [all[i]];
      assert all[i] !in all[..i];
      if p.None? || p.value !in Elems(all) {
        q := q + [all[i]];
      }
    }
    assert all[..|all|] == all;
    assert forall j :: 0 <= j < |q| ==> Ready(m, Elems(all), {}, q[j]);
  }

  /** Removes h from a child list by moving the last entry into its place. */
  method SwapRemove(cs: seq<Hash>, h: Hash) returns (r: seq<Hash>)
    requires NoDup(cs)
    ensures NoDup(r) && forall x :: x in r <==> x in cs && x != h
  {
    r := cs;
    for i := 0 to |cs|
      invariant r == cs && h !in cs[..i]
    {
      if cs[i] == h {
        r := cs[i := cs[|cs| - 1]][..|cs| - 1];
        SwapRemoved(cs, i, r);
        return;
      }
    }
    assert cs[..|cs|] == cs;
  }

  lemma SwapRemoved(cs: seq<Hash>, i: nat, r: seq<Hash>)
    requires NoDup(cs) && i < |cs| && r == cs[i := cs[|cs| - 1]][..|cs| - 1]
    ensures NoDup(r) && forall x :: x in r <==> x in cs && x != cs[i]
  {
    forall x | x in cs && x != cs[i] ensures x in r {
      var k :| 0 <= k < |cs| && cs[k] == x;
      if k < |cs| - 1 {
        assert r[k] == x;
      } else {
        assert r[i] == x;
      }
    }
  }

  /** Removes h from its parent's child list, and the list if it becomes empty. */
  method DropChild(m: ShareMap, children: ChildIndex, h: Hash) returns (r: ChildIndex)
    requires h in m && ChildrenExact(m, m.Keys, children)
    ensures ChildrenExact(m - {h}, (m - {h}).Keys, r)
  {
    r := children;
    var p := PrevKey(m[h]);
    if p.Some? {
      var cs := SwapRemove(ChildrenOf(children, p.value), h);
      if cs == [] {
        r := children - {p.value};
      } else {
        r := children[p.value := cs];
      }
    }
  }

  /** The held children of a list of removed parents. */
  method ChildrenOfAll(children: ChildIndex, removed: seq<Hash>) returns (seeds: seq<Hash>)
    ensures forall c :: c in seeds <==> exists p :: p in removed && c in ChildrenOf(children, p)
  {
    seeds := [];
    for i := 0 to |removed|
      invariant forall c :: c in seeds <==> exists p :: p in removed[..i] && c in ChildrenOf(children, p)
    {
      assert removed[..i + 1] == removed[..i] + [removed[i]];
      seeds := seeds + ChildrenOf(children, removed[i]);
    }
    assert removed[..|removed|] == removed;
  }

  lemma ExactIsGraded(m: ShareMap, rank: Rank, unit: real, work: map<Hash, real>, len: map<Hash, nat>)
    requires Acyclic(m, rank) && OnGrid(m, unit) && TotalsExact(m, rank, work, len)
    ensures Graded(m, unit, work) && Comparable(work)
  {
    assert forall h :: h in work ==> EntryExact(m, rank, work, len, h);
    ExactGraded(m, rank, unit, work);
    GradedComparable(m, unit, work);
  }

  /** A candidate of m that built on r in the store `was`, so that its work may be out of date. */
  ghost predicate LaggingCandidate(was: ShareMap, m: ShareMap, rank: Rank, r: set<Hash>, verified: set<Hash>)
    requires Acyclic(was, rank)
  {
    exists c :: Candidate(m, verified, c) && Below(was, rank, r, c)
  }

  /** The tip is the best over the works kept, or some candidate's work is to be recounted. */
  ghost predicate TipFine(was: ShareMap, m: ShareMap, rank: Rank, r: set<Hash>, verified: set<Hash>, work: map<Hash, real>, tip: Hash)
    requires Acyclic(was, rank) && work.Keys == m.Keys
  {
    TipBest(m, verified, work, tip) || LaggingCandidate(was, m, rank, r, verified)
  }

  /** With nothing to recount the tip is the best. */
  lemma TipFineIsBest(m: ShareMap, rank: Rank, verified: set<Hash>, work: map<Hash, real>, tip: Hash)
    requires Acyclic(m, rank) && work.Keys == m.Keys
    ensures TipFine(m, m, rank, {}, verified, work, tip) <==> TipBest(m, verified, work, tip)
  {
    forall h
      ensures !Below(m, rank, {}, h)
    {
      BelowNothing(m, rank, h);
    }
  }

  /** Adding shares cannot make the tip lose to a candidate whose work did not change. */
  lemma AddedKeepsTip(was: ShareMap, m: ShareMap, rank: Rank, r: set<Hash>, verified: set<Hash>,
                      oldWork: map<Hash, real>, oldLen: map<Hash, nat>, work: map<Hash, real>, len: map<Hash, nat>,
                      tip: Hash, all: seq<Hash>)
    requires Acyclic(was, rank) && Acyclic(m, rank) && Extends(was, m) && verified !! (m.Keys - was.Keys)
    requires ExactOutside(was, rank, r, oldWork, oldLen) && ExactOutside(m, rank, r, work, len)
    requires forall x :: x in m && x !in all ==> x in oldWork && work[x] == oldWork[x]
    requires TipFine(was, was, rank, r, verified, oldWork, tip)
    ensures LaggingCandidate(m, m, rank, r, verified) || forall c :: Candidate(m, verified, c) && c !in all ==>
      Candidate(m, verified, tip) && (c == tip || Beats(work[tip], tip, work[c], c))
  {
    if !LaggingCandidate(m, m, rank, r, verified) {
      forall c | Candidate(was, verified, c)
        ensures !Below(was, rank, r, c)
      {
        assert Candidate(m, verified, c);
        if Below(was, rank, r, c) { BelowExtends(was, m, rank, r, c); }
      }
      forall c | Candidate(m, verified, c) && c !in all
        ensures Candidate(m, verified, tip) && (c == tip || Beats(work[tip], tip, work[c], c))
      {
        assert Candidate(was, verified, c);
        assert EntryExact(was, rank, oldWork, oldLen, tip) && EntryExact(m, rank, work, len, tip);
        TotalsMonotone(was, m, rank, tip);
      }
    }
  }

  /** The kept entries are those of an earlier store `was`, from which shares were only removed. */
  ghost predicate LagsBehind(was: ShareMap, m: ShareMap, rank: Rank, children: ChildIndex,
                             work: map<Hash, real>, len: map<Hash, nat>)
  {
    && Keyed(m) && Acyclic(m, rank) && ChildrenExact(m, m.Keys, children)
    && Acyclic(was, rank) && Extends(m, was)
    && work.Keys == m.Keys && len.Keys == m.Keys
    && forall x {:trigger EntryExact(was, rank, work, len, x)} :: x in m ==> EntryExact(was, rank, work, len, x)
  }

  /** The same, but for shares that built on r in the earlier store. */
  ghost predicate LagsOutside(was: ShareMap, m: ShareMap, rank: Rank, r: set<Hash>, children: ChildIndex,
                              work: map<Hash, real>, len: map<Hash, nat>)
  {
    && Keyed(m) && Acyclic(m, rank) && ChildrenExact(m, m.Keys, children)
    && Acyclic(was, rank) && Extends(m, was)
    && work.Keys == m.Keys && len.Keys == m.Keys
    && forall x {:trigger EntryExact(was, rank, work, len, x)} ::
         x in m && !Below(was, rank, r, x) ==> EntryExact(was, rank, work, len, x)
  }

  /** The index of a store is the index of its shares in a bigger store. */
  lemma ChildrenWithin(m: ShareMap, big: ShareMap, children: ChildIndex)
    requires Extends(m, big) && ChildrenExact(m, m.Keys, children)
    ensures m.Keys <= big.Keys && ChildrenExact(big, m.Keys, children)
  {
    forall p, h | p in children && h in children[p] ensures h in m.Keys && PrevKey(big[h]) == Some(p) {
      assert PrevKey(m[h]) == Some(p);
    }
  }

  /** An index of the held shares themselves does not lag. */
  lemma LagsExact(m: ShareMap, rank: Rank, children: ChildIndex, work: map<Hash, real>, len: map<Hash, nat>)
    ensures LagsBehind(m, m, rank, children, work, len) <==>
      Keyed(m) && Acyclic(m, rank) && ChildrenExact(m, m.Keys, children) && TotalsExact(m, rank, work, len)
  {
  }

  lemma LagsAnyway(was: ShareMap, m: ShareMap, rank: Rank, r: set<Hash>, children: ChildIndex, work: map<Hash, real>, len: map<Hash, nat>)
    requires LagsBehind(was, m, rank, children, work, len)
    ensures LagsOutside(was, m, rank, r, children, work, len)
  {
  }

  lemma UnlinkLags(was: ShareMap, m: ShareMap, rank: Rank, children: ChildIndex, children': ChildIndex,
                   work: map<Hash, real>, len: map<Hash, nat>, h: Hash)
    requires LagsBehind(was, m, rank, children, work, len)
    requires ChildrenExact(m - {h}, (m - {h}).Keys, children')
    ensures LagsBehind(was, m - {h}, rank, children', work - {h}, len - {h})
  {
    forall x | x in m - {h} ensures ShareRanked(x, (m - {h})[x], rank) {
      assert ShareRanked(x, m[x], rank);
    }
    forall x | x in m - {h} ensures EntryExact(was, rank, work - {h}, len - {h}, x) {
      assert EntryExact(was, rank, work, len, x);
    }
  }

  lemma UnlinkLagsOutside(was: ShareMap, m: ShareMap, rank: Rank, r: set<Hash>, children: ChildIndex, children': ChildIndex,
                          work: map<Hash, real>, len: map<Hash, nat>, h: Hash)
    requires LagsOutside(was, m, rank, r, children, work, len)
    requires ChildrenExact(m - {h}, (m - {h}).Keys, children')
    ensures LagsOutside(was, m - {h}, rank, r, children', work - {h}, len - {h})
  {
    forall x | x in m - {h} ensures ShareRanked(x, (m - {h})[x], rank) {
      assert ShareRanked(x, m[x], rank);
    }
    forall x | x in m - {h} && !Below(was, rank, r, x) ensures EntryExact(was, rank, work - {h}, len - {h}, x) {
      assert EntryExact(was, rank, work, len, x);
    }
  }

  /** Removing a share that is not a candidate leaves the best tip the best. */
  lemma UnlinkKeepsTip(m: ShareMap, verified: set<Hash>, work: map<Hash, real>, tip: Hash, h: Hash)
    requires work.Keys == m.Keys && TipBest(m, verified, work, tip) && !Candidate(m, verified, h)
    ensures TipBest(m - {h}, verified - {h}, work - {h}, tip)
  {
    assert forall c :: Candidate(m - {h}, verified - {h}, c) ==> Candidate(m, verified, c);
  }

  lemma UnlinkKeepsFine(was: ShareMap, m: ShareMap, rank: Rank, r: set<Hash>, verified: set<Hash>, work: map<Hash, real>, tip: Hash, h: Hash)
    requires Acyclic(was, rank) && work.Keys == m.Keys && TipFine(was, m, rank, r, verified, work, tip) && !Candidate(m, verified, h)
    ensures TipFine(was, m - {h}, rank, r, verified - {h}, work - {h}, tip)
  {
    if TipBest(m, verified, work, tip) {
      UnlinkKeepsTip(m, verified, work, tip, h);
    } else {
      var c :| Candidate(m, verified, c) && Below(was, rank, r, c);
      assert Candidate(m - {h}, verified - {h}, c);
    }
  }

  /** A recount that affects no candidate leaves the tip as it was. */
  lemma TipUnaffected(was: ShareMap, m: ShareMap, rank: Rank, r: set<Hash>, r': set<Hash>, verified: set<Hash>,
                      oldWork: map<Hash, real>, work: map<Hash, real>, tip: Hash, all: seq<Hash>)
    requires Acyclic(was, rank) && Acyclic(m, rank) && oldWork.Keys == m.Keys && work.Keys == m.Keys
    requires forall x :: x in m && x !in all ==> work[x] == oldWork[x]
    requires forall x :: x in m && x !in all && Below(was, rank, r, x) ==> Below(m, rank, r', x)
    ensures TipFine(was, m, rank, r, verified, oldWork, tip) ==>
      TipFine(m, m, rank, r', verified, work, tip) || exists c :: c in all && Candidate(m, verified, c)
  {
  }

  /** Scans for a tip candidate, stopping at the first one. */
  method AnyCandidate(m: ShareMap, verified: set<Hash>, hs: seq<Hash>, start: bool) returns (found: bool)
    ensures found <==> start || exists c :: c in hs && Candidate(m, verified, c)
  {
    found := start;
    var i := 0;
    while i < |hs| && !found
      invariant 0 <= i <= |hs|
      invariant found ==> start || exists c :: c in hs && Candidate(m, verified, c)
      invariant !found ==> !start && forall k :: 0 <= k < i ==> !Candidate(m, verified, hs[k])
    {
      found := Candidate(m, verified, hs[i]);
      i := i + 1;
    }
  }
}
