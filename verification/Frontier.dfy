/** Which missing parents the node asks its peers for. */
module Frontier {
  import opened Shares
  import opened Sequences
  import opened Sorting
  import opened Window

  /** The missing parent at the end of the chain below h, None if the chain reaches genesis. */
  ghost function TailOf(m: ShareMap, rank: Rank, h: Hash): Option<Hash>
    requires Acyclic(m, rank)
    decreases rank(h)
  {
    if h !in m then Some(h)
    else
      assert ShareRanked(h, m[h], rank);
      match PrevKey(m[h]) case None => None case Some(p) => TailOf(m, rank, p)
  }

  /** The tail along the path down: the parent that ended it, if it is missing. */
  lemma {:induction false} TailAlongPath(m: ShareMap, rank: Rank, h: Hash, path: seq<Hash>)
    requires Acyclic(m, rank) && IsPath(m, h, path)
    ensures h !in m ==> TailOf(m, rank, h) == Some(h)
    ensures h in m ==>
      var last := m[path[|path| - 1]].prev;
      TailOf(m, rank, h) == if last.None? || last.value == 0 then None else last
    decreases rank(h)
  {
    if h in m {
      assert ShareRanked(h, m[h], rank);
      PathRest(m, h, path);
      if |path| > 1 {
        TailAlongPath(m, rank, m[h].prev.value, path[1..]);
      }
    }
  }

  /** The memo knows only true tails. */
  ghost predicate MemoExact(m: ShareMap, rank: Rank, tails: map<Hash, Option<Hash>>)
    requires Acyclic(m, rank)
  {
    forall x {:trigger TailOf(m, rank, x)} :: x in tails ==> tails[x] == TailOf(m, rank, x)
  }

  lemma {:induction false} TailIsMissing(m: ShareMap, rank: Rank, h: Hash)
    requires Acyclic(m, rank)
    ensures TailOf(m, rank, h).Some? ==> TailOf(m, rank, h).value !in m
    decreases rank(h)
  {
    if h in m {
      assert ShareRanked(h, m[h], rank);
      if PrevKey(m[h]).Some? {
        TailIsMissing(m, rank, PrevKey(m[h]).value);
      }
    }
  }

  /** missingTailLocked: the memoized walk finds the true tail and keeps the memo exact. */
  method MissingTail(m: ShareMap, h: Hash, tails: map<Hash, Option<Hash>>, ghost rank: Rank)
    returns (tail: Option<Hash>, tails': map<Hash, Option<Hash>>)
    requires Acyclic(m, rank) && MemoExact(m, rank, tails)
    ensures tail == TailOf(m, rank, h) && MemoExact(m, rank, tails') && tails.Keys <= tails'.Keys
  {
    var path: seq<Hash> := [];
    var cur := h;
    tail := None;
    ghost var visited: set<Hash> := {};
    while true
      invariant OnTrack(m, rank, visited, |path|, Some(cur)) && Elems(path) == visited
      invariant TailOf(m, rank, cur) == TailOf(m, rank, h)
      invariant forall x {:trigger TailOf(m, rank, x)} :: x in path ==> TailOf(m, rank, x) == TailOf(m, rank, h)
      decreases rank(cur)
    {
      if cur in tails {
        tail := tails[cur];
        break;
      }
      if cur !in m {
        tail := Some(cur);
        break;
      }
      var p := PrevKey(m[cur]);
      StepDown(m, rank, visited, |path|, cur);
      path, visited := path + [cur], visited + {cur};
      NeverTooFar(m, rank, visited, |path|, p);
      assert ShareRanked(cur, m[cur], rank);
      if p.None? || |path| > |m| {
        break;
      }
      cur := p.value;
    }
    tails' := tails;
    for i := 0 to |path|
      invariant MemoExact(m, rank, tails') && tails.Keys <= tails'.Keys
    {
      tails' := tails'[path[i] := tail];
    }
  }

  /** No held share builds on h. */
  ghost predicate Head(m: ShareMap, h: Hash) {
    h in m && forall x :: x in m ==> m[x].prev != Some(h)
  }

  function WorkAt(work: map<Hash, real>, h: Hash): real {
    if h in work then work[h] else 0.0
  }

  predicate HeavierFirst(work: map<Hash, real>, a: Hash, b: Hash) {
    WorkAt(work, a) > WorkAt(work, b) || (WorkAt(work, a) == WorkAt(work, b) && a >= b)
  }

  /** headsLocked: the heads, most work first. */
  method Heads(m: ShareMap, work: map<Hash, real>) returns (heads: seq<Hash>)
    ensures NoDup(heads) && forall h :: h in heads <==> Head(m, h)
    ensures forall i, j :: 0 <= i < j < |heads| ==> HeavierFirst(work, heads[i], heads[j])
  {
    var parents: set<Hash> := {};
    var todo := m.Keys;
    while todo != {}
      invariant todo <= m.Keys
      invariant forall p :: p in parents <==> exists x :: x in m && x !in todo && m[x].prev == Some(p)
      decreases todo
    {
      var x :| x in todo;
      if m[x].prev.Some? {
        parents := parents + {m[x].prev.value};
      }
      todo := todo - {x};
    }
    var w := work;
    heads := SortSet(set h | h in m && h !in parents, (a: nat, b: nat) => HeavierFirst(w, a, b));
    forall h ensures h in heads <==> Head(m, h) {
      assert h in heads <==> h in Elems(heads);
    }
  }

  /** A head young enough and not yet a full window plus lookbehind deep. */
  predicate Eligible(m: ShareMap, len: map<Hash, nat>, now: int, h: Hash) {
    h in m && m[h].timestamp >= now - MAX_SHARE_AGE_SECS
    && (h in len ==> len[h] < DEFAULT_PPLNS_WINDOW + TARGET_LOOKBEHIND)
  }

  /** Heads of the last 72 hours on fewer than 8840 shares. */
  lemma EligibleMeaning(m: ShareMap, len: map<Hash, nat>, now: int, h: Hash)
    ensures Eligible(m, len, now, h) <==>
      h in m && now - m[h].timestamp <= 259200 && (h in len ==> len[h] < 8840)
  {
  }

  /** t is the missing tail of an eligible head in hs. */
  ghost predicate Wanted(m: ShareMap, rank: Rank, len: map<Hash, nat>, now: int, hs: seq<Hash>, t: Hash)
    requires Acyclic(m, rank)
  {
    exists h :: h in hs && Eligible(m, len, now, h) && TailOf(m, rank, h) == Some(t)
  }

  /**
   * GetMissingParentHashes: the distinct missing tails of the eligible heads, heaviest head
   * first; all of them unless cut off at max.
   */
  method MissingParents(m: ShareMap, work: map<Hash, real>, len: map<Hash, nat>, now: int, max: int, ghost rank: Rank)
    returns (out: seq<Hash>, ghost heads: seq<Hash>, ghost n: nat)
    requires Acyclic(m, rank)
    ensures NoDup(heads) && (forall h :: h in heads <==> Head(m, h))
    ensures forall i, j :: 0 <= i < j < |heads| ==> HeavierFirst(work, heads[i], heads[j])
    ensures NoDup(out) && (max > 0 ==> |out| <= max) && forall t :: t in out ==> t !in m
    ensures n <= |heads| && forall t :: t in out <==> Wanted(m, rank, len, now, heads[..n], t)
    ensures n == |heads| || (max > 0 && |out| == max)
  {
    var hs := Heads(m, work);
    heads, out := hs, [];
    var tails: map<Hash, Option<Hash>> := map[];
    for i := 0 to |hs|
      invariant NoDup(out) && (max > 0 ==> |out| < max) && forall t :: t in out ==> t !in m
      invariant MemoExact(m, rank, tails)
      invariant forall t :: t in out <==> Wanted(m, rank, len, now, hs[..i], t)
    {
      var h := hs[i];
      assert hs[..i + 1] == hs[..i] + [h];
      if Eligible(m, len, now, h) {
        var tail;
        tail, tails := MissingTail(m, h, tails, rank);
        TailIsMissing(m, rank, h);
        if tail.Some? && tail.value !in out {
          out := out + [tail.value];
          if max > 0 && |out| >= max {
            n := i + 1;
            return;
          }
        }
      }
    }
    n := |hs|;
    assert hs[..|hs|] == hs;
  }
}
