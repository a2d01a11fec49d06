/** Which unverified shares a pruning pass drops. */
module Pruning {
  import opened Shares
  import opened Sequences
  import opened Sorting

  const UNVERIFIED_SHARE_TTL_SECS := 20 * 60
  const MAX_UNVERIFIED_SHARES := 8640

  /** The shares with a timestamp before the cutoff. */
  function OlderThan(m: ShareMap, cutoff: int): set<Hash> {
    set h | h in m && m[h].timestamp < cutoff
  }

  /** The held unverified shares below h, down to the first that is verified or missing. */
  ghost function UnverifiedBelow(m: ShareMap, rank: Rank, verified: set<Hash>, h: Hash): set<Hash>
    requires Acyclic(m, rank)
    decreases rank(h)
  {
    if h !in m || m[h].prev.None? then {}
    else
      assert ShareRanked(h, m[h], rank);
      var p := m[h].prev.value;
      if p in verified || p !in m then {} else {p} + UnverifiedBelow(m, rank, verified, p)
  }

  /** A chain of parents from c[0] down, all but the first held and unverified. */
  ghost predicate UnverifiedChain(m: ShareMap, verified: set<Hash>, c: seq<Hash>) {
    && |c| >= 2 && c[0] in m
    && forall i: nat {:trigger UnverifiedLink(m, verified, c, i)} :: i + 1 < |c| ==> UnverifiedLink(m, verified, c, i)
  }

  ghost predicate UnverifiedLink(m: ShareMap, verified: set<Hash>, c: seq<Hash>, i: nat)
    requires i + 1 < |c|
  {
    c[i] in m && m[c[i]].prev == Some(c[i + 1]) && c[i + 1] in m && c[i + 1] !in verified
  }

  /** What is below h is where such a chain from h leads. */
  lemma {:induction false} ChainLeadsBelow(m: ShareMap, rank: Rank, verified: set<Hash>, c: seq<Hash>)
    requires Acyclic(m, rank) && UnverifiedChain(m, verified, c)
    ensures c[|c| - 1] in UnverifiedBelow(m, rank, verified, c[0])
    decreases |c|
  {
    assert UnverifiedLink(m, verified, c, 0);
    assert ShareRanked(c[0], m[c[0]], rank);
    if |c| > 2 {
      var rest := c[1..];
      forall i: nat | i + 1 < |rest|
        ensures UnverifiedLink(m, verified, rest, i)
      {
        assert UnverifiedLink(m, verified, c, i + 1);
      }
      ChainLeadsBelow(m, rank, verified, rest);
    }
  }

  lemma {:induction false} BelowHasChain(m: ShareMap, rank: Rank, verified: set<Hash>, h: Hash, x: Hash) returns (c: seq<Hash>)
    requires Acyclic(m, rank) && x in UnverifiedBelow(m, rank, verified, h)
    ensures UnverifiedChain(m, verified, c) && c[0] == h && c[|c| - 1] == x
    decreases rank(h)
  {
    assert ShareRanked(h, m[h], rank);
    var p := m[h].prev.value;
    if x == p {
      c := [h, p];
      assert UnverifiedLink(m, verified, c, 0);
    } else {
      var rest := BelowHasChain(m, rank, verified, p, x);
      c := [h] + rest;
      forall i: nat | i + 1 < |c|
        ensures UnverifiedLink(m, verified, c, i)
      {
        if i > 0 {
          assert UnverifiedLink(m, verified, rest, i - 1);
        }
      }
    }
  }

  /** A verified share builds on x through held unverified shares. */
  ghost predicate Reached(m: ShareMap, rank: Rank, verified: set<Hash>, x: Hash)
    requires Acyclic(m, rank)
  {
    exists v :: v in verified && x in UnverifiedBelow(m, rank, verified, v)
  }

  lemma {:induction false} BelowIsLower(m: ShareMap, rank: Rank, verified: set<Hash>, h: Hash, x: Hash)
    requires Acyclic(m, rank) && x in UnverifiedBelow(m, rank, verified, h)
    ensures x in m && x !in verified && UnverifiedBelow(m, rank, verified, x) <= UnverifiedBelow(m, rank, verified, h)
    decreases rank(h)
  {
    assert ShareRanked(h, m[h], rank);
    var p := m[h].prev.value;
    if x != p {
      BelowIsLower(m, rank, verified, p, x);
    }
  }

  /** `held` contains what is below each of its members. */
  ghost predicate Closed(m: ShareMap, rank: Rank, verified: set<Hash>, held: set<Hash>)
    requires Acyclic(m, rank)
  {
    forall x {:trigger UnverifiedBelow(m, rank, verified, x)} :: x in held ==> UnverifiedBelow(m, rank, verified, x) <= held
  }

  /** The walk below one verified share; it stops where an earlier walk has been. */
  method WalkBelow(m: ShareMap, verified: set<Hash>, v: Hash, before: set<Hash>, ghost rank: Rank) returns (held: set<Hash>)
    requires Acyclic(m, rank) && Closed(m, rank, verified, before)
    ensures held == before + UnverifiedBelow(m, rank, verified, v)
    ensures Closed(m, rank, verified, held)
  {
    held := before;
    var cur := v;
    ghost var path: set<Hash> := {};
    while cur in m && m[cur].prev.Some? && m[cur].prev.value !in verified && m[cur].prev.value !in held && m[cur].prev.value in m
      invariant held == before + path
      invariant forall x :: x in path ==> rank(x) >= rank(cur)
      invariant path + UnverifiedBelow(m, rank, verified, cur) == UnverifiedBelow(m, rank, verified, v)
      decreases rank(cur)
    {
      assert ShareRanked(cur, m[cur], rank);
      cur := m[cur].prev.value;
      held, path := held + {cur}, path + {cur};
    }
    assert UnverifiedBelow(m, rank, verified, cur) <= held by {
      if cur in m && m[cur].prev.Some? && m[cur].prev.value in held && m[cur].prev.value !in verified {
        assert ShareRanked(cur, m[cur], rank);
        assert m[cur].prev.value in before;
      }
    }
    forall x | x in held ensures UnverifiedBelow(m, rank, verified, x) <= held {
      if x !in before {
        BelowIsLower(m, rank, verified, v, x);
      }
    }
  }

  /** The first loop of pruneUnverified: exactly the shares some verified share builds on. */
  method ProtectedShares(m: ShareMap, verified: set<Hash>, ghost rank: Rank) returns (held: set<Hash>)
    requires Acyclic(m, rank)
    ensures forall x :: x in held <==> Reached(m, rank, verified, x)
  {
    held := {};
    var todo := verified;
    while todo != {}
      invariant todo <= verified && Closed(m, rank, verified, held)
      invariant forall x :: x in held <==> exists v :: v in verified && v !in todo && x in UnverifiedBelow(m, rank, verified, v)
      decreases todo
    {
      var v :| v in todo;
      held := WalkBelow(m, verified, v, held, rank);
      todo := todo - {v};
    }
  }

  /** The received shares past the TTL that no verified share builds on. */
  ghost function Expired(m: ShareMap, rank: Rank, verified: set<Hash>, received: map<Hash, int>, now: int): set<Hash>
    requires Acyclic(m, rank)
  {
    set h | h in received && now - received[h] >= UNVERIFIED_SHARE_TTL_SECS && !Reached(m, rank, verified, h)
  }

  /** Expired: received 20 minutes ago or more, and no verified share builds on it. */
  lemma ExpiredMeaning(m: ShareMap, rank: Rank, verified: set<Hash>, received: map<Hash, int>, now: int, h: Hash)
    requires Acyclic(m, rank)
    ensures h in Expired(m, rank, verified, received, now) <==>
      h in received && received[h] <= now - 1200 && !Reached(m, rank, verified, h)
  {
  }

  function ReceivedAt(received: map<Hash, int>, h: Hash): int {
    if h in received then received[h] else 0
  }

  /** The dropped shares: all expired ones, and of the others only the oldest beyond the cap. */
  ghost predicate DropsChosen(received: map<Hash, int>, expired: set<Hash>, drop: set<Hash>) {
    var keep := received.Keys - expired;
    && expired <= drop <= received.Keys
    && (|keep| <= MAX_UNVERIFIED_SHARES ==> drop == expired)
    && (|keep| > MAX_UNVERIFIED_SHARES ==> |received.Keys - drop| == MAX_UNVERIFIED_SHARES)
    && forall a, b {:trigger NotAfter(received, a, b)} ::
         a in drop && a !in expired && b in received && b !in drop ==> NotAfter(received, a, b)
  }

  /** a was received no later than b. */
  predicate NotAfter(received: map<Hash, int>, a: Hash, b: Hash) {
    a in received && b in received && received[a] <= received[b]
  }

  function Overdue(received: map<Hash, int>, held: set<Hash>, now: int): set<Hash> {
    set h | h in received && h !in held && now - received[h] >= UNVERIFIED_SHARE_TTL_SECS
  }

  /** The rest of pruneUnverified: which of the received shares to drop. */
  method ChooseDrops(received: map<Hash, int>, held: set<Hash>, now: int) returns (drop: set<Hash>)
    ensures DropsChosen(received, Overdue(received, held, now), drop)
  {
    drop := Overdue(received, held, now);
    var keep := received.Keys - drop;
    if |keep| > MAX_UNVERIFIED_SHARES {
      var times := received;
      var order := SortSet(keep, (a: nat, b: nat) => ReceivedAt(times, a) <= ReceivedAt(times, b));
      NoDupCard(order);
      var n := |order| - MAX_UNVERIFIED_SHARES;
      var oldest := order[..n];
      OldestFirst(received, keep, order, n);
      ghost var overdue := drop;
      drop := drop + Elems(oldest);
      forall a, b | a in drop && a !in overdue && b in received && b !in drop
        ensures NotAfter(received, a, b)
      {
        assert a in oldest && b in keep && b !in oldest;
      }
    }
  }

  /** At most the cap is left. */
  lemma CapHolds(received: map<Hash, int>, expired: set<Hash>, drop: set<Hash>)
    requires DropsChosen(received, expired, drop)
    ensures |received - drop| <= MAX_UNVERIFIED_SHARES
  {
    assert (received - drop).Keys == received.Keys - drop;
    assert |received - drop| == |(received - drop).Keys|;
  }

  /** The first n in order of arrival are no younger than the others, of which |order| - n are left. */
  lemma OldestFirst(received: map<Hash, int>, keep: set<Hash>, order: seq<Hash>, n: nat)
    requires keep <= received.Keys && NoDup(order) && Elems(order) == keep && n <= |order|
    requires forall i, j :: 0 <= i < j < |order| ==> ReceivedAt(received, order[i]) <= ReceivedAt(received, order[j])
    ensures Elems(order[..n]) <= keep && |keep - Elems(order[..n])| == |order| - n
    ensures forall a, b :: a in order[..n] && b in keep && b !in order[..n] ==> received[a] <= received[b]
  {
    NoDupCard(order[n..]);
    SplitElems(order, n);
    forall a, b | a in order[..n] && b in keep && b !in order[..n] ensures received[a] <= received[b] {
      var i :| 0 <= i < n && order[i] == a;
      assert b in Elems(order);
      var j :| 0 <= j < |order| && order[j] == b;
      assert j >= n;
      assert a in Elems(order);
    }
  }

  /** pruneUnverified up to the removal. */
  method ChooseExpired(m: ShareMap, verified: set<Hash>, received: map<Hash, int>, now: int, ghost rank: Rank)
    returns (drop: set<Hash>)
    requires Acyclic(m, rank)
    ensures DropsChosen(received, Expired(m, rank, verified, received, now), drop)
    ensures |received - drop| <= MAX_UNVERIFIED_SHARES
  {
    var held := ProtectedShares(m, verified, rank);
    drop := ChooseDrops(received, held, now);
    assert Overdue(received, held, now) == Expired(m, rank, verified, received, now);
    CapHolds(received, Overdue(received, held, now), drop);
  }
}
