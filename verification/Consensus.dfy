/**
 * The consensus rules a share must meet to be verified, and what the median-time rule
 * guarantees along a chain of accepted shares.
 */
module Consensus {
  import opened Shares
  import opened Sequences
  import opened Window
  import opened Payout
  import opened Coinbase

  const CONSENSUS_V2_ACTIVATION_TIME := 1792470600
  const CONSENSUS_V3_ACTIVATION_TIME := 1794009600
  const MEDIAN_TIME_SHARES := 11

  // ---- the median ----

  function Insert(x: int, s: seq<int>): seq<int> {
    if s == [] || x <= s[0] then [x] + s else [s[0]] + Insert(x, s[1..])
  }

  function SortInts(s: seq<int>): seq<int> {
    if s == [] then [] else Insert(s[0], SortInts(s[1..]))
  }

  predicate Ordered(s: seq<int>) {
    forall i, j :: 0 <= i < j < |s| ==> s[i] <= s[j]
  }

  /** How many elements are at least v. */
  function CountFrom(s: seq<int>, v: int): nat {
    if s == [] then 0 else (if s[0] >= v then 1 else 0) + CountFrom(s[1..], v)
  }

  lemma CountFirst(x: int, s: seq<int>, v: int)
    ensures CountFrom([x] + s, v) == (if x >= v then 1 else 0) + CountFrom(s, v)
  {
    assert ([x] + s)[1..] == s;
  }

  lemma {:induction false} InsertCount(x: int, s: seq<int>, v: int)
    ensures CountFrom(Insert(x, s), v) == CountFrom([x] + s, v)
  {
    CountFirst(x, s, v);
    if s != [] && x > s[0] {
      InsertCount(x, s[1..], v);
      CountFirst(x, s[1..], v);
      CountFirst(s[0], Insert(x, s[1..]), v);
    }
  }

  lemma {:induction false} InsertFacts(x: int, s: seq<int>)
    requires Ordered(s)
    ensures var r := Insert(x, s);
      |r| == |s| + 1 && Ordered(r) && (forall i :: 0 <= i < |r| ==> r[i] == x || r[i] in s)
  {
    if s != [] && x > s[0] {
      InsertFacts(x, s[1..]);
      var t := Insert(x, s[1..]);
      assert forall i :: 0 <= i < |t| ==> s[0] <= t[i];
    }
  }

  lemma {:induction false} SortFacts(s: seq<int>, v: int)
    ensures |SortInts(s)| == |s| && Ordered(SortInts(s)) && CountFrom(SortInts(s), v) == CountFrom(s, v)
  {
    if s != [] {
      SortFacts(s[1..], v);
      InsertFacts(s[0], SortInts(s[1..]));
      InsertCount(s[0], SortInts(s[1..]), v);
      CountFirst(s[0], SortInts(s[1..]), v);
    }
  }

  lemma {:induction false} CountBound(s: seq<int>, v: int)
    ensures CountFrom(s, v) <= |s|
    ensures (forall i :: 0 <= i < |s| ==> s[i] >= v) ==> CountFrom(s, v) == |s|
  {
    if s != [] {
      CountBound(s[1..], v);
    }
  }

  lemma {:induction false} OrderedCount(s: seq<int>, k: nat, v: int)
    requires Ordered(s) && k < |s|
    ensures s[k] >= v <==> CountFrom(s, v) >= |s| - k
  {
    CountBound(s[1..], v);
    if s[0] >= v {
      CountBound(s, v);
    } else if k > 0 {
      OrderedCount(s[1..], k - 1, v);
    }
  }

  /** The element in the middle of the sorted list. */
  function Median(s: seq<int>): int
    requires s != []
  {
    SortFacts(s, 0);
    SortInts(s)[|s| / 2]
  }

  /** The median is at least v exactly when more than half of the elements are. */
  lemma MedianCount(s: seq<int>, v: int)
    requires s != []
    ensures Median(s) >= v <==> CountFrom(s, v) >= |s| - |s| / 2
  {
    SortFacts(s, v);
    OrderedCount(SortInts(s), |s| / 2, v);
  }

  // ---- the rules ----

  function Times(w: seq<Share>): seq<int> {
    if w == [] then [] else [w[0].timestamp] + Times(w[1..])
  }

  /** medianTimePastLocked: None if fewer than 11 non-stale shares end at p. */
  ghost function MedianTimePast(m: ShareMap, rank: Rank, p: Option<Hash>): Option<int>
    requires Acyclic(m, rank)
  {
    if p.None? || p.value == GENESIS then None
    else
      var w := Take(Lineage(m, rank, p.value), MEDIAN_TIME_SHARES);
      if |w| < MEDIAN_TIME_SHARES then None else TimesLength(w); Some(Median(Times(w)))
  }

  lemma {:induction false} TimesLength(w: seq<Share>)
    ensures |Times(w)| == |w|
  {
    if w != [] {
      TimesLength(w[1..]);
    }
  }

  /** effectiveTimeLocked: the later of the share's timestamp and its held parent's. */
  function EffectiveTime(m: ShareMap, s: Share): int {
    if s.prev.Some? && s.prev.value != GENESIS && s.prev.value in m && m[s.prev.value].timestamp > s.timestamp
    then m[s.prev.value].timestamp else s.timestamp
  }

  /** The claimed difficulty is off the expected one and the share is no block either. */
  predicate OffTarget(s: Share, expected: real) {
    var actual := if s.powDiff.Some? then s.powDiff.value else 0.0;
    && (actual < expected * 0.999 || s.targetDiff < expected * 0.999 || s.targetDiff > expected * 1.001)
    && !s.meetsNetworkTarget
  }

  /** checkConsensus */
  ghost predicate ConsensusHolds(m: ShareMap, rank: Rank, tip: Hash, scriptOf: ScriptOf, s: Share, pLen: nat, eff: int)
    requires Acyclic(m, rank)
  {
    var mtp := MedianTimePast(m, rank, s.prev);
    var w := WalkFrom(m, rank, tip, s.prev, TARGET_LOOKBEHIND);
    && (eff >= V2_MANDATORY_ACTIVATION_TIME ==> s.version >= SHARE_VERSION_V2)
    && (eff >= CONSENSUS_V3_ACTIVATION_TIME && mtp.Some? ==> s.timestamp >= mtp.value)
    && (s.stale ||
        (&& (|w| >= TARGET_LOOKBEHIND && w[TARGET_LOOKBEHIND - 1].timestamp >= CONSENSUS_V2_ACTIVATION_TIME ==>
               !OffTarget(s, Retarget(w)))
         && (pLen >= TARGET_LOOKBEHIND && CompleteWindow(m, rank, s.prev)
             && eff >= CONSENSUS_V2_ACTIVATION_TIME + MAX_PPLNS_WINDOW_AGE_SECS ==>
               CoinbaseAccepted(s, m, rank, tip, scriptOf))))
  }

  /** On target: within a thousandth of the expected difficulty, with a proof of work that meets it, or a block. */
  lemma OnTargetMeaning(s: Share, expected: real)
    requires expected > 0.0
    ensures !OffTarget(s, expected) <==>
      (|| s.meetsNetworkTarget
       || (0.999 * expected <= s.targetDiff <= 1.001 * expected && s.powDiff.Some? && s.powDiff.value >= 0.999 * expected))
  {
  }

  /** What the verify pass accepts once a share's turn has come. */
  ghost predicate Acceptable(m: ShareMap, rank: Rank, tip: Hash, scriptOf: ScriptOf, s: Share, pLen: nat)
    requires Acyclic(m, rank)
  {
    var eff := EffectiveTime(m, s);
    eff < CONSENSUS_V2_ACTIVATION_TIME || ConsensusHolds(m, rank, tip, scriptOf, s, pLen, eff)
  }

  /**
   * The rules in numbers, for a share judged at effective time eff: its version, its time against the
   * median below it, and, unless it is stale, its difficulty and who its coinbase pays.
   */
  lemma RulesInNumbers(m: ShareMap, rank: Rank, tip: Hash, scriptOf: ScriptOf, s: Share, pLen: nat, eff: int)
    requires Acyclic(m, rank) && DistinctScripts(scriptOf)
    ensures var w := WalkFrom(m, rank, tip, s.prev, 200);
      var median := MedianTimePast(m, rank, s.prev);
      ConsensusHolds(m, rank, tip, scriptOf, s, pLen, eff) <==>
        && (eff >= 1792519200 ==> s.version >= 24)
        && (eff >= 1794009600 && median.Some? ==> s.timestamp >= median.value)
        && (!s.stale && |w| >= 200 && w[199].timestamp >= 1792470600 && !s.meetsNetworkTarget ==>
              var d := Retarget(w);
              0.999 * d <= s.targetDiff <= 1.001 * d && s.powDiff.Some? && s.powDiff.value >= 0.999 * d)
        && (!s.stale && pLen >= 200 && CompleteWindow(m, rank, s.prev) && eff >= 1792470600 + 129600 ==>
              && s.coinbase.Some? && EnvelopeValid(s, s.coinbase.value)
              && PaysExactly(s.coinbase.value, ExpectedFor(s, s.coinbase.value, m, rank, tip), scriptOf))
  {
    var w := WalkFrom(m, rank, tip, s.prev, 200);
    OnTargetMeaning(s, Retarget(w));
    AcceptedIsExact(s, m, rank, tip, scriptOf);
  }

  /** medianTimePastLocked */
  method ComputeMedianTimePast(m: ShareMap, tip: Hash, p: Option<Hash>, ghost rank: Rank) returns (r: Option<int>)
    requires Acyclic(m, rank)
    ensures r == MedianTimePast(m, rank, p)
  {
    if p.None? || p.value == GENESIS {
      return None;
    }
    var w := OrderedWalk(m, tip, p, MEDIAN_TIME_SHARES, rank);
    if |w| < MEDIAN_TIME_SHARES {
      return None;
    }
    var ts: seq<int> := [];
    for i := 0 to |w|
      invariant ts + Times(w[i..]) == Times(w)
    {
      assert w[i..][1..] == w[i + 1..];
      assert (ts + [w[i].timestamp]) + Times(w[i + 1..]) == ts + ([w[i].timestamp] + Times(w[i + 1..]));
      ts := ts + [w[i].timestamp];
    }
    assert w[|w|..] == [] && ts + [] == ts;
    TimesLength(w);
    r := Some(Median(ts));
  }

  /** checkConsensus, with its early returns */
  method CheckConsensus(m: ShareMap, tip: Hash, scriptOf: ScriptOf, s: Share, pLen: nat, eff: int, ghost rank: Rank)
    returns (ok: bool)
    requires Acyclic(m, rank)
    ensures ok <==> ConsensusHolds(m, rank, tip, scriptOf, s, pLen, eff)
  {
    if eff >= V2_MANDATORY_ACTIVATION_TIME && s.version < SHARE_VERSION_V2 {
      return false;
    }
    var mtp := ComputeMedianTimePast(m, tip, s.prev, rank);
    if eff >= CONSENSUS_V3_ACTIVATION_TIME && mtp.Some? && s.timestamp < mtp.value {
      return false;
    }
    if s.stale {
      return true;
    }
    var w := OrderedWalk(m, tip, s.prev, TARGET_LOOKBEHIND, rank);
    if |w| >= TARGET_LOOKBEHIND && w[TARGET_LOOKBEHIND - 1].timestamp >= CONSENSUS_V2_ACTIVATION_TIME {
      var expected := ExpectedDifficulty(m, tip, s.prev, rank);
      if OffTarget(s, expected) {
        return false;
      }
    }
    var complete := HasCompleteWindow(m, tip, s.prev, rank);
    if pLen >= TARGET_LOOKBEHIND && complete && eff >= CONSENSUS_V2_ACTIVATION_TIME + MAX_PPLNS_WINDOW_AGE_SECS {
      ok := VerifyShareCoinbase(s, m, tip, scriptOf, rank);
      return;
    }
    ok := true;
  }

  // ---- the median along a chain ----

  lemma {:induction false} CountLast(w: seq<Share>, v: int)
    requires w != []
    ensures CountFrom(Times(w), v) == CountFrom(Times(w[..|w| - 1]), v) + (if w[|w| - 1].timestamp >= v then 1 else 0)
  {
    if |w| > 1 {
      CountLast(w[1..], v);
      assert w[1..][..|w| - 2] == w[..|w| - 1][1..];
    }
  }

  /** p ends a full window of 11 held non-stale shares. */
  ghost predicate FullWindow(m: ShareMap, rank: Rank, p: Hash)
    requires Acyclic(m, rank)
  {
    p != GENESIS && |Lineage(m, rank, p)| >= MEDIAN_TIME_SHARES
  }

  ghost function Mtp(m: ShareMap, rank: Rank, p: Hash): int
    requires Acyclic(m, rank) && FullWindow(m, rank, p)
  {
    MedianTimePast(m, rank, Some(p)).value
  }

  /** s is held and its parent is p. */
  ghost predicate ChildOf(m: ShareMap, s: Share, p: Hash) {
    p != GENESIS && s.prev == Some(p) && s.hash != GENESIS && s.hash in m && m[s.hash] == s
  }

  /** A stale share leaves the median alone; a non-stale one can only pull it towards itself. */
  lemma MedianStep(m: ShareMap, rank: Rank, p: Hash, s: Share, v: int)
    requires Acyclic(m, rank) && FullWindow(m, rank, p) && ChildOf(m, s, p)
    ensures FullWindow(m, rank, s.hash)
    ensures s.stale ==> Mtp(m, rank, s.hash) == Mtp(m, rank, p)
    ensures s.timestamp >= v && Mtp(m, rank, p) >= v ==> Mtp(m, rank, s.hash) >= v
    ensures Mtp(m, rank, s.hash) >= v && Mtp(m, rank, p) < v ==> s.timestamp >= v && !s.stale
  {
    RestStep(m, rank, s.hash, []);
    var l := Lineage(m, rank, p);
    if !s.stale {
      var old11, new11 := l[..11], [s] + l[..10];
      assert Take(l, 11) == old11 && Take([s] + l, 11) == new11;
      assert new11[1..] == l[..10] && old11[..10] == l[..10];
      CountLast(old11, v);
      TimesLength(old11);
      TimesLength(new11);
      MedianCount(Times(old11), v);
      MedianCount(Times(new11), v);
    }
  }

  /** A full window is the same in every store that extends the one it is held in. */
  lemma FullWindowStable(small: ShareMap, big: ShareMap, rank: Rank, p: Hash)
    requires Acyclic(small, rank) && Acyclic(big, rank) && Extends(small, big) && FullWindow(small, rank, p)
    ensures FullWindow(big, rank, p) && Mtp(small, rank, p) == Mtp(big, rank, p)
    ensures p in small
  {
    LineageExtends(small, big, rank, p);
    assert Take(Lineage(small, rank, p), 11) == Take(Lineage(big, rank, p), 11);
  }

  /** s was accepted on top of p in some store that held p's full window and is part of m. */
  ghost predicate AcceptedOn(m: ShareMap, rank: Rank, scriptOf: ScriptOf, s: Share, p: Hash) {
    exists seen: ShareMap, tip: Hash, pLen: nat ::
      Acyclic(seen, rank) && Extends(seen, m) && FullWindow(seen, rank, p) && Acceptable(seen, rank, tip, scriptOf, s, pLen)
  }

  /** Once the parent's own time is past activation, an accepted child is not before the median. */
  lemma RuleBinds(m: ShareMap, rank: Rank, scriptOf: ScriptOf, s: Share, p: Hash)
    requires Acyclic(m, rank) && FullWindow(m, rank, p) && s.prev == Some(p)
    requires AcceptedOn(m, rank, scriptOf, s, p)
    requires p in m && m[p].timestamp >= CONSENSUS_V3_ACTIVATION_TIME
    ensures s.timestamp >= Mtp(m, rank, p)
  {
    var seen, tip, pLen: nat :|
      Acyclic(seen, rank) && Extends(seen, m) && FullWindow(seen, rank, p) && Acceptable(seen, rank, tip, scriptOf, s, pLen);
    FullWindowStable(seen, m, rank, p);
  }

  /** A chain of held shares, each accepted on top of the one before it with a full window held. */
  ghost predicate AcceptedChain(m: ShareMap, rank: Rank, scriptOf: ScriptOf, chain: seq<Share>)
    requires Acyclic(m, rank)
  {
    && chain != [] && FullWindow(m, rank, chain[0].hash) && chain[0].hash in m && m[chain[0].hash] == chain[0]
    && forall i :: 0 < i < |chain| ==>
         ChildOf(m, chain[i], chain[i - 1].hash) && AcceptedOn(m, rank, scriptOf, chain[i], chain[i - 1].hash)
  }

  /** The rule is armed at a share: the median is before activation, or the share itself is not. */
  ghost predicate Armed(m: ShareMap, rank: Rank, s: Share)
    requires Acyclic(m, rank) && FullWindow(m, rank, s.hash)
  {
    Mtp(m, rank, s.hash) < CONSENSUS_V3_ACTIVATION_TIME || s.timestamp >= CONSENSUS_V3_ACTIVATION_TIME
  }

  lemma {:induction false} ChainHeld(m: ShareMap, rank: Rank, scriptOf: ScriptOf, chain: seq<Share>, i: nat)
    requires Acyclic(m, rank) && AcceptedChain(m, rank, scriptOf, chain) && i < |chain|
    ensures FullWindow(m, rank, chain[i].hash) && chain[i].hash in m && m[chain[i].hash] == chain[i]
  {
    if i > 0 {
      ChainHeld(m, rank, scriptOf, chain, i - 1);
      MedianStep(m, rank, chain[i - 1].hash, chain[i], 0);
    }
  }

  /** Along an accepted chain an armed rule stays armed. */
  lemma {:induction false} StaysArmed(m: ShareMap, rank: Rank, scriptOf: ScriptOf, chain: seq<Share>, i: nat)
    requires Acyclic(m, rank) && AcceptedChain(m, rank, scriptOf, chain) && i < |chain|
    requires Armed(m, rank, chain[0])
    ensures FullWindow(m, rank, chain[i].hash) && Armed(m, rank, chain[i])
  {
    ChainHeld(m, rank, scriptOf, chain, i);
    if i > 0 {
      var p, s := chain[i - 1], chain[i];
      ChainHeld(m, rank, scriptOf, chain, i - 1);
      StaysArmed(m, rank, scriptOf, chain, i - 1);
      MedianStep(m, rank, p.hash, s, CONSENSUS_V3_ACTIVATION_TIME);
      if Mtp(m, rank, p.hash) >= CONSENSUS_V3_ACTIVATION_TIME {
        RuleBinds(m, rank, scriptOf, s, p.hash);
      }
    }
  }

  /**
   * Along any accepted chain on which the rule is armed at the start: once the median time past
   * has reached activation it never decreases, and every later share, stale or not, is at or
   * after the median before it.
   */
  lemma {:induction false} MedianNeverDecreases(m: ShareMap, rank: Rank, scriptOf: ScriptOf, chain: seq<Share>, i: nat, j: nat)
    requires Acyclic(m, rank) && AcceptedChain(m, rank, scriptOf, chain) && i <= j < |chain|
    requires Armed(m, rank, chain[0])
    requires FullWindow(m, rank, chain[i].hash) && Mtp(m, rank, chain[i].hash) >= CONSENSUS_V3_ACTIVATION_TIME
    ensures FullWindow(m, rank, chain[j].hash) && Mtp(m, rank, chain[j].hash) >= Mtp(m, rank, chain[i].hash)
    ensures i < j ==> FullWindow(m, rank, chain[j - 1].hash) && chain[j].timestamp >= Mtp(m, rank, chain[j - 1].hash)
    decreases j - i
  {
    if i < j {
      var p, s := chain[j - 1], chain[j];
      MedianNeverDecreases(m, rank, scriptOf, chain, i, j - 1);
      StaysArmed(m, rank, scriptOf, chain, j - 1);
      ChainHeld(m, rank, scriptOf, chain, j - 1);
      RuleBinds(m, rank, scriptOf, s, p.hash);
      MedianStep(m, rank, p.hash, s, Mtp(m, rank, p.hash));
    }
  }

  /** A backdated stale child of p. */
  function Backdated(p: Hash, h: Hash): Share {
    Share(h, Some(p), CONSENSUS_V3_ACTIVATION_TIME - 1, CONSENSUS_V3_ACTIVATION_TIME - 1, true, SHARE_VERSION_V2,
          1.0, None, 0.0, false, true, 0, 20, 1, 0, [], None)
  }

  /**
   * The arming condition is exact: above a share whose window has reached activation, every
   * acceptable child respects the median if and only if the share's own time is past activation.
   */
  lemma RuleBindsExactly(m: ShareMap, rank: Rank, scriptOf: ScriptOf, p: Hash)
    requires Acyclic(m, rank) && FullWindow(m, rank, p) && p in m
    requires Mtp(m, rank, p) >= CONSENSUS_V3_ACTIVATION_TIME
    ensures m[p].timestamp >= CONSENSUS_V3_ACTIVATION_TIME <==>
      (forall s: Share, tip: Hash, pLen: nat ::
         s.prev == Some(p) && Acceptable(m, rank, tip, scriptOf, s, pLen) ==> s.timestamp >= Mtp(m, rank, p))
  {
    if m[p].timestamp < CONSENSUS_V3_ACTIVATION_TIME {
      var s := Backdated(p, 1);
      assert Acceptable(m, rank, GENESIS, scriptOf, s, 0);
      assert s.timestamp < Mtp(m, rank, p);
    }
  }

  // ---- a chain on which the rule is not armed ----

  ghost const BY_HASH: Rank := h => h

  /** Share n of a chain from genesis: the first six at activation, the others one second before it. */
  function EarlyShare(n: nat): Share
    requires n >= 1
  {
    var t := if n <= 6 then CONSENSUS_V3_ACTIVATION_TIME else CONSENSUS_V3_ACTIVATION_TIME - 1;
    Share(n, Some(n - 1), t, t, false, SHARE_VERSION_V2, 1.0, None, 0.0, false, true, 0, 20, 1, 0, [], None)
  }

  /** The first n shares of that chain. */
  function EarlyChain(n: nat): ShareMap {
    if n == 0 then map[] else EarlyChain(n - 1)[n := EarlyShare(n)]
  }

  lemma {:induction false} EarlyChainHeld(n: nat)
    ensures forall h :: h in EarlyChain(n) <==> 1 <= h <= n
    ensures forall h :: 1 <= h <= n ==> EarlyChain(n)[h] == EarlyShare(h)
    ensures Keyed(EarlyChain(n)) && Acyclic(EarlyChain(n), BY_HASH)
  {
    if n > 0 {
      EarlyChainHeld(n - 1);
    }
    var m := EarlyChain(n);
    assert forall h :: h in m ==> ShareRanked(h, m[h], BY_HASH);
  }

  /** The k shares up to share k, of which the first six are at activation. */
  lemma {:induction false} EarlyLineage(n: nat, k: nat)
    requires 1 <= k <= n
    ensures Acyclic(EarlyChain(n), BY_HASH)
    ensures var l := Lineage(EarlyChain(n), BY_HASH, k);
      |l| == k && CountFrom(Times(l), CONSENSUS_V3_ACTIVATION_TIME) == if k <= 6 then k else 6
    decreases k
  {
    var m := EarlyChain(n);
    EarlyChainHeld(n);
    RestStep(m, BY_HASH, k, []);
    if k > 1 {
      EarlyLineage(n, k - 1);
    }
    var l, rest := Lineage(m, BY_HASH, k), Rest(m, BY_HASH, PrevKey(m[k]));
    assert l == [m[k]] + rest;
    assert l[1..] == rest;
  }

  /** The share after the first k is accepted on top of them. */
  ghost predicate EarlyStep(scriptOf: ScriptOf, tip: Hash, k: nat) {
    && Acyclic(EarlyChain(k), BY_HASH)
    && Acceptable(EarlyChain(k), BY_HASH, tip, scriptOf, EarlyShare(k + 1), k)
  }

  lemma EarlyAccepted(scriptOf: ScriptOf, tip: Hash, k: nat)
    requires k < MEDIAN_TIME_SHARES
    ensures EarlyStep(scriptOf, tip, k)
  {
    EarlyChainHeld(k);
    if k > 0 {
      EarlyLineage(k, k);
    }
  }

  /**
   * The arming condition can fail: a chain of n = 11 shares from genesis, each accepted on top of
   * those before it, whose median has reached activation while the last one's own time has not, so
   * that a backdated child is accepted below the median.
   */
  lemma UnarmedChainExists(scriptOf: ScriptOf, tip: Hash, n: nat)
    requires n == MEDIAN_TIME_SHARES
    ensures forall k: nat :: k < n ==> EarlyStep(scriptOf, tip, k)
    ensures Acyclic(EarlyChain(n), BY_HASH) && FullWindow(EarlyChain(n), BY_HASH, n) && n in EarlyChain(n)
    ensures !Armed(EarlyChain(n), BY_HASH, EarlyChain(n)[n])
    ensures exists s: Share, t: Hash, pLen: nat ::
      s.prev == Some(n) && Acceptable(EarlyChain(n), BY_HASH, t, scriptOf, s, pLen) && s.timestamp < Mtp(EarlyChain(n), BY_HASH, n)
  {
    forall k: nat | k < n
      ensures EarlyStep(scriptOf, tip, k)
    {
      EarlyAccepted(scriptOf, tip, k);
    }
    EarlyMedian(n);
    RuleBindsExactly(EarlyChain(n), BY_HASH, scriptOf, n);
  }

  lemma EarlyMedian(n: nat)
    requires n == MEDIAN_TIME_SHARES
    ensures Acyclic(EarlyChain(n), BY_HASH) && FullWindow(EarlyChain(n), BY_HASH, n)
    ensures n in EarlyChain(n) && EarlyChain(n)[n] == EarlyShare(n)
    ensures Mtp(EarlyChain(n), BY_HASH, n) >= CONSENSUS_V3_ACTIVATION_TIME
  {
    EarlyChainHeld(n);
    EarlyLineage(n, n);
    var l := Lineage(EarlyChain(n), BY_HASH, n);
    assert Take(l, MEDIAN_TIME_SHARES) == l;
    TimesLength(l);
    MedianCount(Times(l), CONSENSUS_V3_ACTIVATION_TIME);
  }
}
