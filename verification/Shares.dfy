/**
 * The value types shared by the whole model: share hashes, shares, and the recursive
 * definition of a share's cumulative work and chain length.
 *
 * A hash is opaque to the share chain: only equality and its total order are used, so a
 * natural number stands for it. Hash links cannot form a cycle; that fact is carried by a
 * `rank` under which every parent is below its child.
 */
module Shares {

  datatype Option<+T> = None | Some(value: T)

  type Hash = nat

  /** A payout address; only its order is used. 0 is the empty string, the least string. */
  type Address = nat

  type Script = seq<nat>

  datatype TxOut = TxOut(value: int, script: Script)

  /** The all-zero hash: a share whose parent is GENESIS (or nil) starts a chain. */
  const GENESIS: Hash := 0
  const NO_ADDRESS: Address := 0

  const MIN_POOL_SHARE_DIFF := 0.5
  const MAX_SHARE_AGE_SECS := 72 * 3600
  const MAX_SHARE_TIME_FUTURE_SECS := 2 * 3600

  /** A difficulty; TargetToDiff never returns a negative one. */
  type Difficulty = d: real | d >= 0.0

  datatype Share = Share(
    hash: Hash,
    prev: Option<Hash>,            // PreviousShareHash, None for nil
    timestamp: int,                // ShareInfo.Timestamp
    headerTime: int,               // MinHeader.Timestamp
    stale: bool,                   // StaleInfo != StaleInfoNone
    version: nat,                  // Type
    targetDiff: Difficulty,        // difficulty of Target, 0 if Target is nil or not positive
    powDiff: Option<Difficulty>,   // difficulty of POWHash, None for a nil POWHash
    blockDiff: Difficulty,         // difficulty of MinHeader.Bits, 0 if Bits is 0
    meetsNetworkTarget: bool,      // POWHash <= network target
    selfValid: bool,               // IsValid
    payoutVersion: nat,            // PubKeyHashVersion
    payoutLen: nat,                // len(PubKeyHash)
    address: Address,              // DecodeShareAddress
    subsidy: nat,
    commitment: Script,            // ComputeShareMetadataCommitment of the share's own fields
    coinbase: Option<seq<TxOut>>   // outputs of the coinbase, None if empty or undecodable
  )

  type ShareMap = map<Hash, Share>
  type Rank = Hash -> nat

  /** The parent a share is linked to in the index: none for nil and genesis parents. */
  function PrevKey(s: Share): Option<Hash> {
    if s.prev == Some(GENESIS) then None else s.prev
  }

  /** Every map entry is filed under the share's own hash. */
  predicate Keyed(m: ShareMap) {
    forall h :: h in m ==> m[h].hash == h
  }

  ghost predicate ShareRanked(h: Hash, s: Share, rank: Rank) {
    s.prev.Some? ==> rank(s.prev.value) < rank(h)
  }

  ghost predicate Acyclic(m: ShareMap, rank: Rank) {
    forall h :: h in m ==> ShareRanked(h, m[h], rank)
  }

  /** `big` holds everything `small` holds. */
  ghost predicate Extends(small: ShareMap, big: ShareMap) {
    forall h :: h in small ==> h in big && big[h] == small[h]
  }

  function OwnWork(s: Share): (w: real)
    ensures w >= 0.0
  {
    if s.stale then 0.0
    else if s.targetDiff < MIN_POOL_SHARE_DIFF then MIN_POOL_SHARE_DIFF
    else s.targetDiff
  }

  function OwnLen(s: Share): (n: nat) {
    if s.stale then 0 else 1
  }

  datatype Totals = Totals(work: real, len: nat)

  /** Cumulative work and length of h: the sum over its held ancestors up to the first missing one. */
  ghost function TotalsOf(m: ShareMap, rank: Rank, h: Hash): (t: Totals)
    requires Acyclic(m, rank)
    ensures t.work >= 0.0
    decreases rank(h)
  {
    if h !in m then Totals(0.0, 0)
    else
      assert ShareRanked(h, m[h], rank);
      var below := match PrevKey(m[h]) case None => Totals(0.0, 0) case Some(p) => TotalsOf(m, rank, p);
      Totals(below.work + OwnWork(m[h]), below.len + OwnLen(m[h]))
  }

  /** Removing shares can only lower totals. */
  lemma {:induction false} TotalsMonotone(small: ShareMap, big: ShareMap, rank: Rank, h: Hash)
    requires Acyclic(small, rank) && Acyclic(big, rank) && Extends(small, big)
    ensures TotalsOf(small, rank, h).work <= TotalsOf(big, rank, h).work
    ensures TotalsOf(small, rank, h).len <= TotalsOf(big, rank, h).len
    decreases rank(h)
  {
    if h in small {
      assert ShareRanked(h, small[h], rank);
      match PrevKey(small[h])
      case None =>
      case Some(p) => TotalsMonotone(small, big, rank, p);
    }
  }

  /** A set of hashes that contains every held child of its members. */
  ghost predicate DescendantClosed(m: ShareMap, d: set<Hash>) {
    forall h :: h in m && PrevKey(m[h]).Some? && PrevKey(m[h]).value in d ==> h in d
  }

  /**
   * Between `was` and `m` the only held shares that changed, or whose parent came or went,
   * are seeds or children of held seeds.
   */
  ghost predicate ChangedOnlyAt(was: ShareMap, m: ShareMap, seeds: set<Hash>) {
    forall h :: h in m && h !in seeds ==>
      && h in was && was[h] == m[h]
      && (PrevKey(m[h]).Some? ==>
            var p := PrevKey(m[h]).value;
            (p in m && p in seeds) || (p in m <==> p in was))
  }

  /** Outside a descendant-closed set around the changes, totals are those of the earlier store. */
  lemma {:induction false} TotalsFrame(was: ShareMap, m: ShareMap, rank: Rank, seeds: set<Hash>, d: set<Hash>, h: Hash)
    requires Acyclic(was, rank) && Acyclic(m, rank)
    requires ChangedOnlyAt(was, m, seeds)
    requires DescendantClosed(m, d) && (forall x :: x in seeds && x in m ==> x in d)
    requires h in m && h !in d
    ensures h in was && TotalsOf(was, rank, h) == TotalsOf(m, rank, h)
    decreases rank(h)
  {
    assert ShareRanked(h, m[h], rank);
    match PrevKey(m[h])
    case None =>
    case Some(p) =>
      if p in m {
        TotalsFrame(was, m, rank, seeds, d, p);
      }
  }
}
