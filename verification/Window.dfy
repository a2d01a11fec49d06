/**
 * Walks down the share chain: the ordered walk over non-stale ancestors, the retarget
 * over the last 200 of them, and the PPLNS payout window.
 *
 * The code bounds every walk by len(shares)+1 steps. The specifications have no bound, so
 * the methods' contracts also say that on acyclic links the bound is never reached.
 */
module Window {
  import opened Shares
  import opened Sequences

  const TARGET_LOOKBEHIND := 200
  const DEFAULT_PPLNS_WINDOW := 8640
  const MAX_PPLNS_WINDOW_AGE_SECS := 36 * 3600
  const TARGET_POOL_SHARE_TIME := 15.0

  /** The held non-stale shares from h downwards, up to the first missing parent. */
  ghost function Lineage(m: ShareMap, rank: Rank, h: Hash): seq<Share>
    requires Acyclic(m, rank)
    decreases rank(h)
  {
    if h !in m then []
    else
      assert ShareRanked(h, m[h], rank);
      (if m[h].stale then [] else [m[h]])
      + (match PrevKey(m[h]) case None => [] case Some(p) => Lineage(m, rank, p))
  }

  /** The chain below h is held all the way to genesis. */
  ghost predicate Rooted(m: ShareMap, rank: Rank, h: Hash)
    requires Acyclic(m, rank)
    decreases rank(h)
  {
    h in m && (assert ShareRanked(h, m[h], rank);
               PrevKey(m[h]).Some? ==> Rooted(m, rank, PrevKey(m[h]).value))
  }

  /** The first `max` elements, or all of them if max is not positive. */
  function Take(s: seq<Share>, max: int): seq<Share> {
    if 0 < max < |s| then s[..max] else s
  }

  /** Where a walk starts: at the tip if no proper start is given. */
  function Anchor(start: Option<Hash>, tip: Hash): Hash {
    if start.None? || start.value == GENESIS then tip else start.value
  }

  ghost function WalkFrom(m: ShareMap, rank: Rank, tip: Hash, start: Option<Hash>, max: int): seq<Share>
    requires Acyclic(m, rank)
  {
    var h := Anchor(start, tip);
    if h == GENESIS then [] else Take(Lineage(m, rank, h), max)
  }

  // ---- what a lineage is, share by share ----

  /** Share i + 1 of the path is the parent of share i. */
  predicate Follows(m: ShareMap, path: seq<Hash>, i: nat)
    requires i + 1 < |path|
  {
    path[i] in m && path[i + 1] != 0 && m[path[i]].prev == Some(path[i + 1])
  }

  /** The held shares from h downwards, each the parent of the one before, until a parent is missing, nil or genesis. */
  ghost predicate IsPath(m: ShareMap, h: Hash, path: seq<Hash>) {
    && (path == [] <==> h !in m)
    && (forall i :: 0 <= i < |path| ==> path[i] in m)
    && (path != [] ==> path[0] == h)
    && (forall i: nat {:trigger Follows(m, path, i)} :: i + 1 < |path| ==> Follows(m, path, i))
    && (path != [] ==>
          var last := m[path[|path| - 1]].prev;
          last.None? || last.value == 0 || last.value !in m)
  }

  /** The non-stale shares of a path. */
  ghost function NonStale(m: ShareMap, path: seq<Hash>): seq<Share>
    requires forall i :: 0 <= i < |path| ==> path[i] in m
  {
    if path == [] then []
    else (if m[path[0]].stale then [] else [m[path[0]]]) + NonStale(m, path[1..])
  }

  /** The difficulties of the shares, each raised to one half, added up. */
  function WorkOf(l: seq<Share>): real {
    if l == [] then 0.0 else (if l[0].targetDiff < 0.5 then 0.5 else l[0].targetDiff) + WorkOf(l[1..])
  }

  lemma PathStep(m: ShareMap, h: Hash, rest: seq<Hash>)
    requires h in m && m[h].prev.Some? && m[h].prev.value != 0 && m[h].prev.value in m && IsPath(m, m[h].prev.value, rest)
    ensures IsPath(m, h, [h] + rest)
  {
    var path := [h] + rest;
    assert rest != [] && rest[0] == m[h].prev.value;
    assert forall i :: 0 <= i < |path| ==> path[i] == if i == 0 then h else rest[i - 1];
    assert path[|path| - 1] == rest[|rest| - 1];
    forall i: nat | i + 1 < |path|
      ensures Follows(m, path, i)
    {
      if i > 0 {
        assert Follows(m, rest, i - 1);
      }
    }
  }

  lemma {:induction false} PathExists(m: ShareMap, rank: Rank, h: Hash) returns (path: seq<Hash>)
    requires Acyclic(m, rank)
    ensures IsPath(m, h, path)
    decreases rank(h)
  {
    path := [];
    if h in m {
      assert ShareRanked(h, m[h], rank);
      path := [h];
      if m[h].prev.Some? && m[h].prev.value != 0 && m[h].prev.value in m {
        var rest := PathExists(m, rank, m[h].prev.value);
        path := [h] + rest;
        PathStep(m, h, rest);
      }
    }
  }

  lemma PathRest(m: ShareMap, h: Hash, path: seq<Hash>)
    requires IsPath(m, h, path) && path != []
    ensures |path| > 1 <==> m[h].prev.Some? && m[h].prev.value != 0 && m[h].prev.value in m
    ensures |path| > 1 ==> IsPath(m, m[h].prev.value, path[1..])
  {
    if |path| > 1 {
      var rest := path[1..];
      assert path[0] == h && path[1] in m && Follows(m, path, 0);
      assert rest[0] == path[1] && rest[|rest| - 1] == path[|path| - 1];
      assert forall i :: 0 <= i < |rest| ==> rest[i] == path[i + 1];
      forall i: nat | i + 1 < |rest|
        ensures Follows(m, rest, i)
      {
        assert Follows(m, path, i + 1);
      }
    }
  }

  /**
   * The totals of a share, without a recursion over shares: along the one path down from it, the length
   * counts the non-stale shares and the work adds up their difficulties, each raised to one half. The
   * lineage is these shares.
   */
  lemma {:induction false} TotalsAlongPath(m: ShareMap, rank: Rank, h: Hash, path: seq<Hash>)
    requires Acyclic(m, rank) && IsPath(m, h, path)
    ensures Lineage(m, rank, h) == NonStale(m, path)
    ensures TotalsOf(m, rank, h).len == |NonStale(m, path)| && TotalsOf(m, rank, h).work == WorkOf(NonStale(m, path))
    decreases rank(h)
  {
    if h in m {
      assert ShareRanked(h, m[h], rank);
      PathRest(m, h, path);
      var l, rest := NonStale(m, path), NonStale(m, path[1..]);
      assert m[h].stale ==> l == rest;
      assert !m[h].stale ==> l == [m[h]] + rest && l[1..] == rest;
      if |path| > 1 {
        TotalsAlongPath(m, rank, m[h].prev.value, path[1..]);
      } else {
        assert path[1..] == [];
        assert Lineage(m, rank, h) == (if m[h].stale then [] else [m[h]]) + [];
      }
    }
  }

  /** The length counts the lineage, and the work adds up its difficulties. */
  lemma TotalsAreLineage(m: ShareMap, rank: Rank, h: Hash)
    requires Acyclic(m, rank)
    ensures TotalsOf(m, rank, h).len == |Lineage(m, rank, h)|
    ensures TotalsOf(m, rank, h).work == WorkOf(Lineage(m, rank, h))
  {
    var path := PathExists(m, rank, h);
    TotalsAlongPath(m, rank, h, path);
  }

  /** A walker that has left `visited` behind is still within the step bound. */
  ghost predicate OnTrack(m: ShareMap, rank: Rank, visited: set<Hash>, steps: nat, cur: Option<Hash>) {
    && visited <= m.Keys && |visited| == steps
    && (cur.Some? ==> forall v :: v in visited ==> rank(cur.value) < rank(v))
  }

  lemma StepDown(m: ShareMap, rank: Rank, visited: set<Hash>, steps: nat, h: Hash)
    requires Acyclic(m, rank) && h in m && OnTrack(m, rank, visited, steps, Some(h))
    ensures OnTrack(m, rank, visited + {h}, steps + 1, PrevKey(m[h]))
  {
    assert ShareRanked(h, m[h], rank);
    assert h !in visited;
  }

  lemma NeverTooFar(m: ShareMap, rank: Rank, visited: set<Hash>, steps: nat, cur: Option<Hash>)
    requires OnTrack(m, rank, visited, steps, cur)
    ensures steps < |m| + 1
  {
    SubsetCard(visited, m.Keys);
  }

  ghost function Rest(m: ShareMap, rank: Rank, cur: Option<Hash>): seq<Share>
    requires Acyclic(m, rank)
  {
    if cur.None? then [] else Lineage(m, rank, cur.value)
  }

  lemma RestStep(m: ShareMap, rank: Rank, h: Hash, res: seq<Share>)
    requires Acyclic(m, rank) && h in m
    ensures var below := Rest(m, rank, PrevKey(m[h]));
      if m[h].stale then Rest(m, rank, Some(h)) == below
      else Rest(m, rank, Some(h)) == [m[h]] + below && res + Rest(m, rank, Some(h)) == (res + [m[h]]) + below
  {
    assert ShareRanked(h, m[h], rank);
    var below := Rest(m, rank, PrevKey(m[h]));
    assert Lineage(m, rank, h) == (if m[h].stale then [] else [m[h]]) + below;
    assert res + ([m[h]] + below) == (res + [m[h]]) + below;
  }

  lemma TakeFront(front: seq<Share>, rest: seq<Share>, max: int)
    requires |front| == max > 0
    ensures Take(front + rest, max) == front
  {
    assert (front + rest)[..max] == front;
    assert rest == [] ==> front + rest == front;
  }

  /** getOrderedChainWalkLocked */
  method OrderedWalk(m: ShareMap, tip: Hash, start: Option<Hash>, max: int, ghost rank: Rank) returns (res: seq<Share>)
    requires Acyclic(m, rank)
    ensures res == WalkFrom(m, rank, tip, start, max)
  {
    res := [];
    var h := Anchor(start, tip);
    if h == GENESIS {
      return;
    }
    var cur, steps, maxSteps := Some(h), 0, |m| + 1;
    ghost var visited: set<Hash> := {};
    while steps < maxSteps && cur.Some?
      invariant OnTrack(m, rank, visited, steps, cur)
      invariant res + Rest(m, rank, cur) == Lineage(m, rank, h)
      invariant max > 0 ==> |res| < max
      decreases maxSteps - steps
    {
      if cur.value !in m {
        break;
      }
      var s := m[cur.value];
      RestStep(m, rank, cur.value, res);
      if !s.stale {
        res := res + [s];
        if max > 0 && |res| >= max {
          TakeFront(res, Rest(m, rank, PrevKey(s)), max);
          return;
        }
      }
      StepDown(m, rank, visited, steps, cur.value);
      visited := visited + {cur.value};
      cur, steps := PrevKey(s), steps + 1;
    }
    NeverTooFar(m, rank, visited, steps, cur);
  }

  /** The sum of the difficulties, each at least the pool minimum. */
  function ClampedSum(w: seq<Share>): real {
    if w == [] then 0.0 else ClampedSum(w[..|w| - 1]) + AtLeastMin(w[|w| - 1].targetDiff)
  }

  function AtLeastMin(d: real): real {
    if d < MIN_POOL_SHARE_DIFF then MIN_POOL_SHARE_DIFF else d
  }

  function Clamp(x: real, low: real, high: real): real {
    if x < low then low else if x > high then high else x
  }

  /** The share difficulty the pool expects on top of the walk w. */
  function Retarget(w: seq<Share>): (d: real)
    ensures d >= MIN_POOL_SHARE_DIFF
    ensures |w| >= TARGET_LOOKBEHIND ==>
      AtLeastMin(w[0].targetDiff) * 0.9 <= d <= AtLeastMin(w[0].targetDiff) * 1.1
    ensures |w| < TARGET_LOOKBEHIND ==> d == MIN_POOL_SHARE_DIFF
  {
    if |w| < TARGET_LOOKBEHIND then MIN_POOL_SHARE_DIFF
    else
      var span := (w[0].timestamp - w[TARGET_LOOKBEHIND - 1].timestamp) as real;
      var dt := if span <= 1.0 then 1.0 else span;
      var parent := AtLeastMin(w[0].targetDiff);
      var raw := ClampedSum(w[..TARGET_LOOKBEHIND - 1]) * TARGET_POOL_SHARE_TIME / dt;
      AtLeastMin(Clamp(raw, parent * 0.9, parent * 1.1))
  }

  lemma {:induction false} WorkOfLast(l: seq<Share>, s: Share)
    ensures WorkOf(l + [s]) == WorkOf(l) + if s.targetDiff < 0.5 then 0.5 else s.targetDiff
  {
    if l == [] {
      assert l + [s] == [s] && [s][1..] == [];
    } else {
      assert (l + [s])[1..] == l[1..] + [s];
      WorkOfLast(l[1..], s);
    }
  }

  lemma {:induction false} ClampedSumIsWork(l: seq<Share>)
    ensures ClampedSum(l) == WorkOf(l)
  {
    if l != [] {
      var n := |l| - 1;
      ClampedSumIsWork(l[..n]);
      WorkOfLast(l[..n], l[n]);
      assert l[..n] + [l[n]] == l;
    }
  }

  /** Seconds from the 200th share of the walk to the first, at least one. */
  function SpanOf(w: seq<Share>): real
    requires |w| >= 200
  {
    var span := w[0].timestamp - w[199].timestamp;
    if span <= 1 then 1.0 else span as real
  }

  /**
   * What the retarget aims at: work at the rate of one share of the expected difficulty every 15
   * seconds, moving from the parent's difficulty by at most a tenth and never below one half.
   */
  lemma RetargetMeaning(w: seq<Share>, tw: real, span: real, p: real, d: real)
    requires |w| >= 200 && tw == WorkOf(w[..199]) && span == SpanOf(w) && d == Retarget(w)
    requires p == if w[0].targetDiff < 0.5 then 0.5 else w[0].targetDiff
    ensures tw * 15.0 <= 0.9 * p * span ==> d == if 0.9 * p < 0.5 then 0.5 else 0.9 * p
    ensures tw * 15.0 >= 1.1 * p * span ==> d == 1.1 * p
    ensures 0.9 * p * span < tw * 15.0 < 1.1 * p * span ==> d == 0.5 || d * span == tw * 15.0
    ensures 0.9 * p * span < tw * 15.0 < 1.1 * p * span && tw * 15.0 >= 0.5 * span ==> d * span == tw * 15.0
  {
    var x := tw * 15.0;
    RetargetRate(w, x, p, span);
    RateMeaning(x / span, x, p, span, d);
  }

  lemma RetargetRate(w: seq<Share>, x: real, p: real, span: real)
    requires |w| >= 200 && x == WorkOf(w[..199]) * 15.0 && span == SpanOf(w)
    requires p == if w[0].targetDiff < 0.5 then 0.5 else w[0].targetDiff
    ensures span >= 1.0 && Retarget(w) == AtLeastMin(Clamp(x / span, p * 0.9, p * 1.1))
  {
    ClampedSumIsWork(w[..199]);
    assert w[..TARGET_LOOKBEHIND - 1] == w[..199];
  }

  /** A rate, clamped around p and kept from falling below one half, by what it yields over the span. */
  lemma RateMeaning(raw: real, x: real, p: real, span: real, d: real)
    requires span >= 1.0 && p >= 0.5 && raw == x / span && d == AtLeastMin(Clamp(raw, p * 0.9, p * 1.1))
    ensures x <= 0.9 * p * span ==> d == if 0.9 * p < 0.5 then 0.5 else 0.9 * p
    ensures x >= 1.1 * p * span ==> d == 1.1 * p
    ensures 0.9 * p * span < x < 1.1 * p * span ==> d == 0.5 || d * span == x
    ensures 0.9 * p * span < x < 1.1 * p * span && x >= 0.5 * span ==> d * span == x
  {
    assert raw * span == x;
    RateBelow(raw, 0.9 * p, span);
    RateBelow(raw, 1.1 * p, span);
    RateBelow(raw, 0.5, span);
  }

  lemma RateBelow(x: real, y: real, span: real)
    requires span >= 1.0
    ensures x < y <==> x * span < y * span
    ensures x == y <==> x * span == y * span
  {
    assert (y - x) * span == y * span - x * span;
    if x < y {
      assert (y - x) * span > 0.0;
    } else if y < x {
      assert (x - y) * span > 0.0;
    }
  }

  /** Shares of one difficulty, one every 15 seconds. */
  predicate SteadyPace(w: seq<Share>, diff: real) {
    forall i :: 0 <= i < |w| ==> w[i].targetDiff == diff && w[i].timestamp == w[0].timestamp - 15 * i
  }

  lemma {:induction false} SteadyWork(l: seq<Share>, diff: real)
    requires diff >= 0.5 && forall i :: 0 <= i < |l| ==> l[i].targetDiff == diff
    ensures WorkOf(l) == |l| as real * diff
  {
    if l != [] {
      SteadyWork(l[1..], diff);
      assert |l| as real * diff == diff + (|l| - 1) as real * diff;
    }
  }

  /** At the pool's pace the difficulty stays what it is. */
  lemma SteadyPaceKeeps(w: seq<Share>, diff: real)
    requires |w| >= 200 && diff >= 0.5 && SteadyPace(w, diff)
    ensures Retarget(w) == diff
  {
    SteadyWork(w[..199], diff);
    assert w[199].timestamp == w[0].timestamp - 2985;
    assert SpanOf(w) == 2985.0;
    RetargetMeaning(w, WorkOf(w[..199]), 2985.0, diff, Retarget(w));
    assert WorkOf(w[..199]) * 15.0 == diff * 2985.0;
    RateBelow(Retarget(w), diff, 2985.0);
  }

  /** getExpectedShareDifficultyLocked */
  method ExpectedDifficulty(m: ShareMap, tip: Hash, prev: Option<Hash>, ghost rank: Rank) returns (d: real)
    requires Acyclic(m, rank)
    ensures d == Retarget(WalkFrom(m, rank, tip, prev, TARGET_LOOKBEHIND))
  {
    var w := OrderedWalk(m, tip, prev, TARGET_LOOKBEHIND, rank);
    if |w| < TARGET_LOOKBEHIND {
      return MIN_POOL_SHARE_DIFF;
    }
    var total := 0.0;
    for i := 0 to TARGET_LOOKBEHIND - 1
      invariant total == ClampedSum(w[..i])
    {
      assert w[..i + 1][..i] == w[..i];
      total := total + AtLeastMin(w[i].targetDiff);
    }
    var dt := (w[0].timestamp - w[TARGET_LOOKBEHIND - 1].timestamp) as real;
    if dt <= 1.0 {
      dt := 1.0;
    }
    var parent := AtLeastMin(w[0].targetDiff);
    d := AtLeastMin(Clamp(total * TARGET_POOL_SHARE_TIME / dt, parent * 0.9, parent * 1.1));
  }

  /** GetEffectiveShareDiff: the difficulty a share is credited with. */
  function EffectiveDiff(s: Share): (d: real)
    ensures 0.0 <= d <= 16.0
  {
    if s.targetDiff <= 0.0 then 0.0
    else if s.powDiff.Some? && s.powDiff.value < s.targetDiff * 0.999 then 0.0
    else if s.targetDiff > 16.0 then 16.0
    else s.targetDiff
  }

  /** The credit: the target's difficulty up to 16, if the proof of work is absent or within a thousandth of it. */
  lemma CreditMeaning(s: Share)
    ensures EffectiveDiff(s) > 0.0 <==> s.targetDiff > 0.0 && (s.powDiff.None? || s.powDiff.value >= 0.999 * s.targetDiff)
    ensures EffectiveDiff(s) > 0.0 ==> EffectiveDiff(s) == if s.targetDiff < 16.0 then s.targetDiff else 16.0
    ensures EffectiveDiff(s) <= 0.0 ==> EffectiveDiff(s) == 0.0
  {
  }

  /** What bounds a payout window: its work, its age and the credit of one share. */
  datatype Terms = Terms(cap: real, cut: int, maxCredit: real)

  function WindowTerms(first: Share, expected: real, win: nat): Terms {
    var cap := win as real * expected;
    Terms(
      if first.blockDiff > 0.0 && cap > first.blockDiff * 12.0 then first.blockDiff * 12.0 else cap,
      first.timestamp - MAX_PPLNS_WINDOW_AGE_SECS,
      if expected * 4.0 < 16.0 then 16.0 else expected * 4.0)
  }

  function Credit(t: Terms, s: Share): real {
    if EffectiveDiff(s) > t.maxCredit then t.maxCredit else EffectiveDiff(s)
  }

  /** A window under construction: the shares taken so far and whether it has closed. */
  datatype Window = Window(terms: Option<Terms>, acc: real, count: nat, selected: seq<Share>, closed: bool)

  const EMPTY_WINDOW := Window(None, 0.0, 0, [], false)

  /** Takes one more non-stale share into an open window; the first one sets the terms. */
  function Consider(w: Window, s: Share, expected: real, win: nat): Window {
    var t := if w.terms.Some? then w.terms.value else WindowTerms(s, expected, win);
    var n := w.count + 1;
    if s.timestamp < t.cut then Window(Some(t), w.acc, n, w.selected, true)
    else if EffectiveDiff(s) > 0.0 then
      var acc := w.acc + Credit(t, s);
      Window(Some(t), acc, n, w.selected + [s], acc >= t.cap || n >= win)
    else Window(Some(t), w.acc, n, w.selected, n >= win)
  }

  function WindowOver(l: seq<Share>, w: Window, expected: real, win: nat): Window {
    if l == [] || w.closed then w
    else WindowOver(l[1..], Consider(w, l[0], expected, win), expected, win)
  }

  function LineageWindow(l: seq<Share>, win: nat): Window {
    WindowOver(l, EMPTY_WINDOW, Retarget(Take(l, TARGET_LOOKBEHIND)), win)
  }

  /** The shares GetSharesForPayout selects for an anchor. */
  ghost function PayoutShares(m: ShareMap, rank: Rank, tip: Hash, start: Option<Hash>, win: int): seq<Share>
    requires Acyclic(m, rank)
  {
    var h := Anchor(start, tip);
    if h == GENESIS then []
    else LineageWindow(Lineage(m, rank, h), if win <= 0 then DEFAULT_PPLNS_WINDOW else win).selected
  }

  /** What hasCompletePPLNSWindow decides. */
  ghost predicate CompleteWindow(m: ShareMap, rank: Rank, prev: Option<Hash>)
    requires Acyclic(m, rank)
  {
    prev.None? || prev.value == GENESIS || Rooted(m, rank, prev.value)
    || LineageWindow(Lineage(m, rank, prev.value), DEFAULT_PPLNS_WINDOW).closed
  }

  /** A walk without a start, or from genesis, is one from the tip; from genesis itself there is none. */
  lemma WalkMeaning(m: ShareMap, rank: Rank, tip: Hash, h: Hash, max: int)
    requires Acyclic(m, rank)
    ensures WalkFrom(m, rank, tip, None, max) == WalkFrom(m, rank, 0, Some(tip), max)
    ensures WalkFrom(m, rank, tip, Some(0), max) == WalkFrom(m, rank, tip, None, max)
    ensures h != 0 && max > 0 ==>
      var w, l := WalkFrom(m, rank, tip, Some(h), max), Lineage(m, rank, h);
      w <= l && |w| == if |l| < max then |l| else max
  {
  }

  /** A chain is held down to genesis exactly if its path ends at a share without a parent. */
  lemma {:induction false} RootedAlongPath(m: ShareMap, rank: Rank, h: Hash, path: seq<Hash>)
    requires Acyclic(m, rank) && IsPath(m, h, path)
    ensures Rooted(m, rank, h) <==> path != [] && var last := m[path[|path| - 1]].prev; last.None? || last.value == 0
    decreases rank(h)
  {
    if h in m {
      assert ShareRanked(h, m[h], rank);
      PathRest(m, h, path);
      if |path| > 1 {
        RootedAlongPath(m, rank, m[h].prev.value, path[1..]);
      }
    }
  }

  /** A window is complete at genesis, above a chain held down to genesis, or if it closed on 8640 shares. */
  lemma CompleteMeaning(m: ShareMap, rank: Rank, h: Hash, path: seq<Hash>)
    requires Acyclic(m, rank) && IsPath(m, h, path)
    ensures CompleteWindow(m, rank, None) && CompleteWindow(m, rank, Some(0))
    ensures h != 0 ==>
      var ends := path != [] && (m[path[|path| - 1]].prev.None? || m[path[|path| - 1]].prev.value == 0);
      CompleteWindow(m, rank, Some(h)) <==> ends || LineageWindow(NonStale(m, path), 8640).closed
  {
    RootedAlongPath(m, rank, h, path);
    TotalsAlongPath(m, rank, h, path);
  }

  /** GetSharesForPayout */
  method SharesForPayout(m: ShareMap, tip: Hash, start: Option<Hash>, window: int, ghost rank: Rank)
    returns (sel: seq<Share>)
    requires Acyclic(m, rank)
    ensures sel == PayoutShares(m, rank, tip, start, window)
  {
    var win := if window <= 0 then DEFAULT_PPLNS_WINDOW else window;
    var h := Anchor(start, tip);
    if h == GENESIS {
      return [];
    }
    var expected := ExpectedDifficulty(m, tip, Some(h), rank);
    var cur, steps, maxSteps := Some(h), 0, |m| + 1;
    var w := EMPTY_WINDOW;
    ghost var visited: set<Hash> := {};
    while steps < maxSteps && cur.Some?
      invariant OnTrack(m, rank, visited, steps, cur) && !w.closed
      invariant LineageWindow(Lineage(m, rank, h), win) == WindowOver(Rest(m, rank, cur), w, expected, win)
      decreases maxSteps - steps
    {
      if cur.value !in m {
        break;
      }
      var s := m[cur.value];
      RestStep(m, rank, cur.value, []);
      if !s.stale {
        w := Consider(w, s, expected, win);
        if w.closed {
          return w.selected;
        }
      }
      StepDown(m, rank, visited, steps, cur.value);
      visited := visited + {cur.value};
      cur, steps := PrevKey(s), steps + 1;
    }
    NeverTooFar(m, rank, visited, steps, cur);
    sel := w.selected;
  }

  /** hasCompletePPLNSWindow */
  method HasCompleteWindow(m: ShareMap, tip: Hash, prev: Option<Hash>, ghost rank: Rank) returns (complete: bool)
    requires Acyclic(m, rank)
    ensures complete == CompleteWindow(m, rank, prev)
  {
    if prev.None? || prev.value == GENESIS {
      return true;
    }
    var expected := ExpectedDifficulty(m, tip, prev, rank);
    var cur, steps, maxSteps, w := prev.value, 0, |m| + 1, EMPTY_WINDOW;
    ghost var visited: set<Hash> := {};
    while steps < maxSteps
      invariant OnTrack(m, rank, visited, steps, Some(cur)) && !w.closed
      invariant LineageWindow(Lineage(m, rank, prev.value), DEFAULT_PPLNS_WINDOW)
             == WindowOver(Rest(m, rank, Some(cur)), w, expected, DEFAULT_PPLNS_WINDOW)
      invariant Rooted(m, rank, prev.value) <==> Rooted(m, rank, cur)
      decreases maxSteps - steps
    {
      if cur !in m {
        return false;
      }
      var s := m[cur];
      RestStep(m, rank, cur, []);
      if !s.stale {
        w := Consider(w, s, expected, DEFAULT_PPLNS_WINDOW);
        if w.closed {
          return true;
        }
      }
      if PrevKey(s).None? {
        return true;
      }
      StepDown(m, rank, visited, steps, cur);
      visited := visited + {cur};
      cur, steps := PrevKey(s).value, steps + 1;
    }
    NeverTooFar(m, rank, visited, steps, Some(cur));
    complete := false;
  }

  /** The shares with a positive credit. */
  function Paid(l: seq<Share>): seq<Share> {
    if l == [] then []
    else Paid(l[..|l| - 1]) + (if EffectiveDiff(l[|l| - 1]) > 0.0 then [l[|l| - 1]] else [])
  }

  function CreditSum(t: Terms, l: seq<Share>): (c: real)
    requires t.maxCredit >= 0.0
    ensures c >= 0.0
  {
    if l == [] then 0.0 else CreditSum(t, l[..|l| - 1]) + Credit(t, l[|l| - 1])
  }

  /** The window w is the one over the first n shares of l. */
  ghost predicate Covers(l: seq<Share>, t: Terms, win: nat, w: Window, n: nat)
    requires t.maxCredit >= 0.0
  {
    && n <= |l| && n <= win
    && w.selected == Paid(l[..n]) && w.acc == CreditSum(t, l[..n])
    && (forall i :: 0 <= i < n ==> l[i].timestamp >= t.cut)
    && (n > 0 ==> CreditSum(t, l[..n - 1]) < t.cap)
  }

  /** An open window over the first n shares takes in one more. */
  lemma ConsiderCovers(l: seq<Share>, t: Terms, win: nat, expected: real, w: Window, n: nat)
    requires n < |l| && t.maxCredit >= 0.0 && t == WindowTerms(l[0], expected, win) && l[n].timestamp >= t.cut
    requires Covers(l, t, win, w, n) && w.count == n && w.terms == (if n == 0 then None else Some(t))
    requires n < win && CreditSum(t, l[..n]) < t.cap
    ensures var w' := Consider(w, l[n], expected, win);
      && Covers(l, t, win, w', n + 1) && w'.count == n + 1 && w'.terms == Some(t)
      && (w'.closed <==> n + 1 == win || CreditSum(t, l[..n + 1]) >= t.cap)
  {
    assert l[..n + 1][..n] == l[..n];
  }

  /**
   * What a window is: the positively credited shares among the first n, where n is as large as
   * the age cut, the window size and the work cap allow; it closed exactly when one of the
   * three stopped it.
   */
  lemma WindowMeaning(l: seq<Share>, expected: real, win: nat) returns (n: nat)
    requires l != [] && win > 0 && expected > 0.0
    ensures var t := WindowTerms(l[0], expected, win);
      var w := WindowOver(l, EMPTY_WINDOW, expected, win);
      && Covers(l, t, win, w, n)
      && (w.closed <==> n == win || CreditSum(t, l[..n]) >= t.cap || (n < |l| && l[n].timestamp < t.cut))
      && (!w.closed ==> n == |l|)
  {
    var t := WindowTerms(l[0], expected, win);
    var w := EMPTY_WINDOW;
    n := 0;
    assert l[0..] == l;
    while n < |l| && !w.closed
      invariant Covers(l, t, win, w, n) && w.count == n
      invariant w.terms == (if n == 0 then None else Some(t))
      invariant w.closed <==> n == win || CreditSum(t, l[..n]) >= t.cap
      invariant WindowOver(l, EMPTY_WINDOW, expected, win) == WindowOver(l[n..], w, expected, win)
    {
      assert l[n..][0] == l[n] && l[n..][1..] == l[n + 1..];
      if l[n].timestamp < t.cut {
        return;
      }
      ConsiderCovers(l, t, win, expected, w, n);
      w := Consider(w, l[n], expected, win);
      n := n + 1;
    }
  }

  /** The sum of what the shares are credited with. */
  function CreditOf(l: seq<Share>): real {
    if l == [] then 0.0 else CreditOf(l[..|l| - 1]) + EffectiveDiff(l[|l| - 1])
  }

  /** The credit limit of a window is never below 16, so it never binds. */
  lemma {:induction false} LimitNeverBinds(first: Share, expected: real, win: nat, l: seq<Share>)
    ensures WindowTerms(first, expected, win).maxCredit >= 16.0
    ensures CreditSum(WindowTerms(first, expected, win), l) == CreditOf(l)
  {
    if l != [] {
      LimitNeverBinds(first, expected, win, l[..|l| - 1]);
    }
  }

  /** The work of a full window: that many shares of the expected difficulty, at most twelve blocks' worth. */
  function FullWork(first: Share, expected: real, win: nat): real {
    var work := expected * win as real;
    if 0.0 < first.blockDiff && 12.0 * first.blockDiff < work then 12.0 * first.blockDiff else work
  }

  /**
   * The window in numbers: the credited shares among the first n of the lineage, none more than 36
   * hours before the first, where n is as large as that, the window size and the work of a full window
   * allow.
   */
  lemma WindowInNumbers(l: seq<Share>, expected: real, win: nat) returns (n: nat)
    requires l != [] && win > 0 && expected > 0.0
    ensures var w := WindowOver(l, EMPTY_WINDOW, expected, win);
      && n <= |l| && n <= win && w.selected == Paid(l[..n])
      && (forall i :: 0 <= i < n ==> l[i].timestamp >= l[0].timestamp - 129600)
      && (n > 0 ==> CreditOf(l[..n - 1]) < FullWork(l[0], expected, win))
      && (w.closed <==> n == win || CreditOf(l[..n]) >= FullWork(l[0], expected, win)
                        || (n < |l| && l[n].timestamp < l[0].timestamp - 129600))
      && (!w.closed ==> n == |l|)
  {
    n := WindowMeaning(l, expected, win);
    LimitNeverBinds(l[0], expected, win, l[..n]);
    if n > 0 {
      LimitNeverBinds(l[0], expected, win, l[..n - 1]);
    }
    assert WindowTerms(l[0], expected, win).cap == FullWork(l[0], expected, win);
  }

  /** A store that holds more sees at least as far down, and no further than genesis. */
  lemma {:induction false} LineageExtends(small: ShareMap, big: ShareMap, rank: Rank, h: Hash)
    requires Acyclic(small, rank) && Acyclic(big, rank) && Extends(small, big)
    ensures Lineage(small, rank, h) <= Lineage(big, rank, h)
    ensures Rooted(small, rank, h) ==> Rooted(big, rank, h) && Lineage(small, rank, h) == Lineage(big, rank, h)
    decreases rank(h)
  {
    if h in small {
      RestStep(small, rank, h, []);
      RestStep(big, rank, h, []);
      assert ShareRanked(h, small[h], rank);
      match PrevKey(small[h])
      case None =>
      case Some(p) => LineageExtends(small, big, rank, p);
    }
  }

  /** A window that closed is not changed by shares further down. */
  lemma {:induction false} ClosedWindowStable(l: seq<Share>, more: seq<Share>, w: Window, expected: real, win: nat)
    requires l <= more && WindowOver(l, w, expected, win).closed
    ensures WindowOver(more, w, expected, win) == WindowOver(l, w, expected, win)
    decreases |l|
  {
    if l != [] && !w.closed {
      assert more[0] == l[0] && l[1..] <= more[1..];
      ClosedWindowStable(l[1..], more[1..], Consider(w, l[0], expected, win), expected, win);
    }
  }

  /**
   * All nodes that hold a complete window agree on who is paid: if the retarget below prev is
   * settled (200 non-stale ancestors held, or the chain reaches genesis) and the window is
   * complete, every store that extends this one selects the same shares.
   */
  lemma WindowAgreement(small: ShareMap, big: ShareMap, rank: Rank, tip: Hash, tip': Hash, prev: Hash)
    requires Acyclic(small, rank) && Acyclic(big, rank) && Extends(small, big)
    requires prev != GENESIS
    requires |Lineage(small, rank, prev)| >= TARGET_LOOKBEHIND || Rooted(small, rank, prev)
    requires CompleteWindow(small, rank, Some(prev))
    ensures PayoutShares(small, rank, tip, Some(prev), DEFAULT_PPLNS_WINDOW)
         == PayoutShares(big, rank, tip', Some(prev), DEFAULT_PPLNS_WINDOW)
    ensures CompleteWindow(big, rank, Some(prev))
  {
    LineageExtends(small, big, rank, prev);
    var l, more := Lineage(small, rank, prev), Lineage(big, rank, prev);
    if !Rooted(small, rank, prev) {
      assert Take(l, TARGET_LOOKBEHIND) == Take(more, TARGET_LOOKBEHIND);
      ClosedWindowStable(l, more, EMPTY_WINDOW, Retarget(Take(l, TARGET_LOOKBEHIND)), DEFAULT_PPLNS_WINDOW);
    }
  }
}
