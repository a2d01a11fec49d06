/** What AddShares checks of a share before storing it, and the store after a batch. */
module Admission {
  import opened Shares
  import opened Sequences

  datatype ShareOutcome = SharePending | ShareAccepted | ShareDuplicate | ShareInvalid

  /** CheckShareTime: both timestamps within the retention window and not far in the future. */
  predicate TimeAcceptable(s: Share, now: int) {
    && now - MAX_SHARE_AGE_SECS <= s.timestamp <= now + MAX_SHARE_TIME_FUTURE_SECS
    && now - MAX_SHARE_AGE_SECS <= s.headerTime <= now + MAX_SHARE_TIME_FUTURE_SECS
  }

  /** CheckShareTargetFloor */
  predicate MeetsTargetFloor(s: Share) {
    s.targetDiff >= MIN_POOL_SHARE_DIFF * 0.999
  }

  /** The first verdict on a share when m is held; SharePending means that it is stored. */
  function Screen(m: ShareMap, s: Share, now: int): ShareOutcome {
    if !TimeAcceptable(s, now) || !MeetsTargetFloor(s) then ShareInvalid
    else if s.hash in m then ShareDuplicate
    else if !s.selfValid then ShareInvalid
    else SharePending
  }

  /** The store after a batch: every share is screened against those stored before it. */
  function StoredAfter(m: ShareMap, batch: seq<Share>, now: int): ShareMap {
    if batch == [] then m
    else
      var before := StoredAfter(m, batch[..|batch| - 1], now);
      var s := batch[|batch| - 1];
      if Screen(before, s, now) == SharePending then before[s.hash := s] else before
  }

  /** Nothing held is replaced, and what is new was screened, belongs to the batch and is filed by its hash. */
  lemma {:induction false} StoredFacts(m: ShareMap, batch: seq<Share>, now: int)
    ensures var r := StoredAfter(m, batch, now);
      && Extends(m, r)
      && (forall h :: h in r && h !in m ==>
            r[h] in batch && r[h].hash == h && TimeAcceptable(r[h], now) && MeetsTargetFloor(r[h]) && r[h].selfValid)
  {
    if batch != [] {
      StoredFacts(m, batch[..|batch| - 1], now);
    }
  }

  /** The first verdicts: pending if admissible and new, duplicate if held and fit to be looked at, else invalid. */
  lemma ScreenMeaning(m: ShareMap, s: Share, now: int)
    ensures Screen(m, s, now) == SharePending <==> Admissible(s, now) && s.hash !in m
    ensures Screen(m, s, now) == ShareDuplicate <==> Admissible(s.(selfValid := true), now) && s.hash in m
    ensures Screen(m, s, now) != ShareAccepted
  {
  }

  /** In time, hard enough and valid by itself. */
  predicate Admissible(s: Share, now: int) {
    && s.timestamp >= now - 259200 && s.timestamp <= now + 7200
    && s.headerTime >= now - 259200 && s.headerTime <= now + 7200
    && s.targetDiff >= 0.4995 && s.selfValid
  }

  /**
   * What a batch brings, without the order it is gone through: all that was held stays as it was, every
   * admissible share's hash is held, and whatever is new is an admissible share of the batch.
   */
  ghost predicate Brought(batch: seq<Share>, now: int, m: ShareMap, m': ShareMap) {
    && Extends(m, m')
    && (forall i :: 0 <= i < |batch| && Admissible(batch[i], now) ==> batch[i].hash in m')
    && (forall h :: h in m' && h !in m ==> m'[h] in batch && m'[h].hash == h && Admissible(m'[h], now))
  }

  lemma {:induction false} StoredBrings(m: ShareMap, batch: seq<Share>, now: int)
    ensures Brought(batch, now, m, StoredAfter(m, batch, now))
  {
    if batch != [] {
      var n := |batch| - 1;
      StoredBrings(m, batch[..n], now);
      assert forall i :: 0 <= i < n ==> batch[..n][i] == batch[i];
    }
  }

  /** Of several admissible shares with one hash, new to the store, the first is kept. */
  lemma {:induction false} FirstIsKept(m: ShareMap, batch: seq<Share>, now: int, i: nat)
    requires i < |batch| && Admissible(batch[i], now) && batch[i].hash !in m
    requires forall j :: 0 <= j < i && Admissible(batch[j], now) ==> batch[j].hash != batch[i].hash
    ensures batch[i].hash in StoredAfter(m, batch, now) && StoredAfter(m, batch, now)[batch[i].hash] == batch[i]
  {
    var n := |batch| - 1;
    if i < n {
      FirstIsKept(m, batch[..n], now, i);
    } else {
      StoredBrings(m, batch[..n], now);
    }
  }

  lemma StoredRanked(m: ShareMap, batch: seq<Share>, now: int, rank: Rank)
    requires Keyed(m) && Acyclic(m, rank) && forall s :: s in batch ==> ShareRanked(s.hash, s, rank)
    ensures Keyed(StoredAfter(m, batch, now)) && Acyclic(StoredAfter(m, batch, now), rank)
  {
    StoredFacts(m, batch, now);
    var r := StoredAfter(m, batch, now);
    forall h | h in r ensures ShareRanked(h, r[h], rank) {
      assert h in m ==> ShareRanked(h, m[h], rank);
    }
  }

  lemma StoredNext(m: ShareMap, batch: seq<Share>, now: int, i: nat)
    requires i < |batch|
    ensures var before, s := StoredAfter(m, batch[..i], now), batch[i];
      StoredAfter(m, batch[..i + 1], now) == if Screen(before, s, now) == SharePending then before[s.hash := s] else before
  {
    assert batch[..i + 1][..i] == batch[..i];
  }

  /** The first verdicts on a batch, in order. */
  function Verdicts(m: ShareMap, batch: seq<Share>, now: int): seq<ShareOutcome> {
    if batch == [] then []
    else
      var n := |batch| - 1;
      Verdicts(m, batch[..n], now) + [Screen(StoredAfter(m, batch[..n], now), batch[n], now)]
  }

  lemma {:induction false} VerdictAt(m: ShareMap, batch: seq<Share>, now: int, i: nat)
    requires i < |batch|
    ensures |Verdicts(m, batch, now)| == |batch|
    ensures Verdicts(m, batch, now)[i] == Screen(StoredAfter(m, batch[..i], now), batch[i], now)
  {
    var n := |batch| - 1;
    if n > 0 {
      VerdictAt(m, batch[..n], now, if i < n then i else 0);
    }
    if i < n {
      assert batch[..n][..i] == batch[..i];
    }
  }

  lemma VerdictsNext(m: ShareMap, batch: seq<Share>, now: int, i: nat)
    requires i < |batch|
    ensures Verdicts(m, batch[..i + 1], now) == Verdicts(m, batch[..i], now) + [Screen(StoredAfter(m, batch[..i], now), batch[i], now)]
  {
    assert batch[..i + 1][..i] == batch[..i];
  }

  /** The storing loop of AddSharesOutcomes: the new store, the hashes stored, and the first verdicts. */
  method StoreBatch(m: ShareMap, batch: seq<Share>, now: int)
    returns (r: ShareMap, hs: seq<Hash>, outcomes: seq<ShareOutcome>)
    ensures r == StoredAfter(m, batch, now)
    ensures NoDup(hs) && forall h :: h in hs <==> h in r && h !in m
    ensures |outcomes| == |batch|
    ensures forall i :: 0 <= i < |batch| ==> outcomes[i] == Screen(StoredAfter(m, batch[..i], now), batch[i], now)
  {
    r, hs, outcomes := m, [], [];
    for i := 0 to |batch|
      invariant r == StoredAfter(m, batch[..i], now) && outcomes == Verdicts(m, batch[..i], now)
      invariant NoDup(hs) && forall h :: h in hs <==> h in r && h !in m
    {
      var s := batch[i];
      StoredNext(m, batch, now, i);
      VerdictsNext(m, batch, now, i);
      StoredFacts(m, batch[..i], now);
      outcomes := outcomes + [Screen(r, s, now)];
      if Screen(r, s, now) == SharePending {
        r, hs := r[s.hash := s], hs + [s.hash];
      }
    }
    assert batch[..|batch|] == batch;
    forall i | 0 <= i < |batch|
      ensures |outcomes| == |batch| && outcomes[i] == Screen(StoredAfter(m, batch[..i], now), batch[i], now)
    {
      VerdictAt(m, batch, now, i);
    }
  }

  /** The store before a batch is the store after it without the new hashes. */
  lemma StoredMinusNew(m: ShareMap, batch: seq<Share>, now: int, hs: seq<Hash>)
    requires forall h :: h in hs <==> h in StoredAfter(m, batch, now) && h !in m
    ensures m == StoredAfter(m, batch, now) - Elems(hs) && Elems(hs) !! m.Keys
    ensures StoredAfter(m, batch, now).Keys == m.Keys + Elems(hs)
  {
    StoredFacts(m, batch, now);
  }

  /** The final verdict on a share: stored shares are accepted, still pending, or rejected and gone. */
  function Settled(first: ShareOutcome, m: ShareMap, verified: set<Hash>, h: Hash): ShareOutcome {
    if first != SharePending then first
    else if h in verified then ShareAccepted
    else if h in m then SharePending
    else ShareInvalid
  }

  /** A stored share's fate: accepted if verified, invalid if it is gone, else pending; other verdicts stand. */
  lemma SettledMeaning(m: ShareMap, verified: set<Hash>, h: Hash, first: ShareOutcome)
    requires verified <= m.Keys
    ensures Settled(SharePending, m, verified, h) ==
      if h in verified then ShareAccepted else if h in m then SharePending else ShareInvalid
    ensures first != SharePending ==> Settled(first, m, verified, h) == first
  {
  }

  /** The last loop of AddSharesOutcomes. */
  method SettleOutcomes(batch: seq<Share>, screened: seq<ShareOutcome>, verified: set<Hash>, rejected: set<Hash>, ghost m: ShareMap)
    returns (outcomes: seq<ShareOutcome>)
    requires |screened| == |batch| && verified <= m.Keys
    requires forall i :: 0 <= i < |batch| && screened[i] == SharePending ==> (batch[i].hash in rejected <==> batch[i].hash !in m)
    ensures |outcomes| == |batch|
    ensures forall i :: 0 <= i < |batch| ==> outcomes[i] == Settled(screened[i], m, verified, batch[i].hash)
  {
    outcomes := [];
    for i := 0 to |batch|
      invariant |outcomes| == i
      invariant forall k :: 0 <= k < i ==> outcomes[k] == Settled(screened[k], m, verified, batch[k].hash)
    {
      var o := screened[i];
      if o == SharePending {
        if batch[i].hash in rejected {
          o := ShareInvalid;
        } else if batch[i].hash in verified {
          o := ShareAccepted;
        }
      }
      outcomes := outcomes + [o];
    }
  }

  /** A share that passed the screen is held after the batch. */
  lemma {:induction false} ScreenedIsStored(m: ShareMap, batch: seq<Share>, now: int, i: nat)
    requires i < |batch| && Screen(StoredAfter(m, batch[..i], now), batch[i], now) == SharePending
    ensures batch[i].hash in StoredAfter(m, batch, now)
  {
    var n := |batch| - 1;
    if i < n {
      assert batch[..n][..i] == batch[..i];
      ScreenedIsStored(m, batch[..n], now, i);
    }
  }
}
