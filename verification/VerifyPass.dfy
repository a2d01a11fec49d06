/**
 * The verify pass as a run of turns over the pending shares: what one turn does, and what
 * a whole run adds up to. Rejected shares' descendants keep their work and length until
 * the pass ends.
 */
module VerifyPass {
  import opened Shares
  import opened Sequences
  import opened Tip
  import opened WorkIndex
  import opened Window
  import opened Payout
  import opened Consensus

  /** A pending share the verify pass must leave: its parent is unverified and fewer than 200 deep. */
  predicate Waiting(m: ShareMap, verified: set<Hash>, len: map<Hash, nat>, h: Hash)
    requires h in m && len.Keys == m.Keys
  {
    var p := PrevKey(m[h]);
    p.Some? && p.value !in verified && (p.value in m ==> len[p.value] < TARGET_LOOKBEHIND)
  }

  /** A share waits for a parent that is neither nil nor genesis nor verified, and missing or under 200 shares long. */
  lemma WaitingMeaning(m: ShareMap, verified: set<Hash>, len: map<Hash, nat>, h: Hash)
    requires h in m && len.Keys == m.Keys
    ensures Waiting(m, verified, len, h) <==>
      m[h].prev.Some? && var p := m[h].prev.value; p != 0 && p !in verified && (p !in m || len[p] < 200)
  {
  }

  /** The length of the held parent's chain, 0 if it is not held. */
  function ParentLen(m: ShareMap, len: map<Hash, nat>, h: Hash): nat
    requires h in m && len.Keys == m.Keys
  {
    var p := PrevKey(m[h]);
    if p.Some? && p.value in m then len[p.value] else 0
  }

  datatype Outcome = Skipped | Accepted | Rejected

  /** The state of the chain as one value. */
  datatype State = State(shares: ShareMap, verified: set<Hash>, received: map<Hash, int>, work: map<Hash, real>,
                         len: map<Hash, nat>, children: ChildIndex, dirty: set<Hash>, tip: Hash)

  ghost predicate Keys(s: State) {
    s.work.Keys == s.shares.Keys && s.len.Keys == s.shares.Keys
  }

  ghost predicate TipHolds(s: State)
    requires Keys(s)
  {
    TipBest(s.shares, s.verified, s.work, s.tip)
  }

  /** Verified shares are held, and arrival times are kept for exactly the held unverified ones. */
  ghost predicate Bookkept(s: State) {
    s.verified <= s.shares.Keys && s.received.Keys == s.shares.Keys - s.verified
  }

  /** Dropping received shares leaves the verified ones alone. */
  lemma ReceivedAreUnverified(s: State, drop: set<Hash>)
    requires Bookkept(s) && drop <= s.received.Keys
    ensures s.verified - drop == s.verified
  {
  }

  lemma BooksAfterRemoval(s: State, s': State, gone: set<Hash>)
    requires Bookkept(s) && s'.shares == s.shares - gone && s'.verified == s.verified - gone && s'.received == s.received - gone
    ensures Bookkept(s')
  {
  }

  /** One turn of the verify pass on h, from s to s'. */
  ghost predicate Judged(s: State, s': State, h: Hash, outcome: Outcome) {
    && Keys(s) && Keys(s') && h in s.shares
    && (outcome.Skipped? <==> Waiting(s.shares, s.verified, s.len, h))
    && (match outcome
        case Skipped => s' == s
        case Accepted =>
          s' == s.(verified := s.verified + {h}, received := s.received - {h}, dirty := s.dirty + {h}, tip := s'.tip)
        case Rejected =>
          s' == s.(shares := s.shares - {h}, received := s.received - {h}, work := s.work - {h}, len := s.len - {h},
                   children := s'.children, dirty := s.dirty + {h}))
    && (Comparable(s.work) && TipHolds(s) ==> Comparable(s'.work) && TipHolds(s'))
  }

  /** Rejecting a share that is not a candidate is a turn. */
  lemma RejectionIsTurn(s: State, s': State, h: Hash)
    requires Keys(s) && h in s.shares && h !in s.verified && !Waiting(s.shares, s.verified, s.len, h)
    requires s' == State(s.shares - {h}, s.verified - {h}, s.received - {h}, s.work - {h}, s.len - {h}, s'.children,
                         s.dirty + ({h} * s.shares.Keys), s.tip)
    ensures Judged(s, s', h, Rejected)
  {
    SingletonFacts(s.verified, s.shares.Keys, h);
    if Comparable(s.work) && TipHolds(s) {
      UnlinkKeepsTip(s.shares, s.verified, s.work, s.tip, h);
    }
  }

  datatype Turn = Turn(h: Hash, outcome: Outcome, before: State)

  /** A share that was not skipped was accepted exactly if the rules allow it at that moment. */
  ghost predicate TurnSound(rank: Rank, scriptOf: ScriptOf, t: Turn) {
    t.outcome.Skipped? ||
    (&& Keys(t.before) && Acyclic(t.before.shares, rank) && t.h in t.before.shares
     && (t.outcome.Accepted? <==>
           Acceptable(t.before.shares, rank, t.before.tip, scriptOf, t.before.shares[t.h],
                      ParentLen(t.before.shares, t.before.len, t.h))))
  }

  ghost predicate TurnsSound(rank: Rank, scriptOf: ScriptOf, turns: seq<Turn>) {
    forall i {:trigger TurnSound(rank, scriptOf, turns[i])} :: 0 <= i < |turns| ==> TurnSound(rank, scriptOf, turns[i])
  }

  lemma TurnsSoundAppend(rank: Rank, scriptOf: ScriptOf, turns: seq<Turn>, t: Turn)
    requires TurnsSound(rank, scriptOf, turns) && TurnSound(rank, scriptOf, t)
    ensures TurnsSound(rank, scriptOf, turns + [t])
  {
    forall i | 0 <= i < |turns + [t]| ensures TurnSound(rank, scriptOf, (turns + [t])[i]) {
      assert i < |turns| ==> TurnSound(rank, scriptOf, turns[i]);
    }
  }

  /** The state after turn i of a run that ends in s. */
  function StateAfter(turns: seq<Turn>, s: State, i: nat): State {
    if i + 1 < |turns| then turns[i + 1].before else s
  }

  ghost predicate TurnTaken(turns: seq<Turn>, s: State, i: nat)
    requires i < |turns|
  {
    Judged(turns[i].before, StateAfter(turns, s, i), turns[i].h, turns[i].outcome)
  }

  /** The turns lead from s0 to s. */
  ghost predicate PassRun(s0: State, turns: seq<Turn>, s: State) {
    && (if turns == [] then s == s0 else turns[0].before == s0)
    && forall i: nat {:trigger TurnTaken(turns, s, i)} :: i < |turns| ==> TurnTaken(turns, s, i)
  }

  /** A run and its last turn. */
  lemma PassRunLast(s0: State, turns: seq<Turn>, s: State)
    requires PassRun(s0, turns, s) && turns != []
    ensures var t := turns[|turns| - 1];
      Judged(t.before, s, t.h, t.outcome) && PassRun(s0, turns[..|turns| - 1], t.before)
  {
    var n := |turns| - 1;
    var init, t := turns[..n], turns[n];
    assert TurnTaken(turns, s, n);
    forall i: nat | i < n
      ensures TurnTaken(init, t.before, i)
    {
      assert TurnTaken(turns, s, i);
    }
  }

  function Hashes(turns: seq<Turn>): seq<Hash> {
    if turns == [] then [] else Hashes(turns[..|turns| - 1]) + [turns[|turns| - 1].h]
  }

  function AcceptedBy(turns: seq<Turn>): seq<Hash> {
    if turns == [] then []
    else AcceptedBy(turns[..|turns| - 1]) + (if turns[|turns| - 1].outcome.Accepted? then [turns[|turns| - 1].h] else [])
  }

  function RejectedBy(turns: seq<Turn>): seq<Hash> {
    if turns == [] then []
    else RejectedBy(turns[..|turns| - 1]) + (if turns[|turns| - 1].outcome.Rejected? then [turns[|turns| - 1].h] else [])
  }

  lemma TurnAppended(s0: State, turns: seq<Turn>, t: Turn, s: State)
    requires PassRun(s0, turns, t.before) && Judged(t.before, s, t.h, t.outcome)
    ensures PassRun(s0, turns + [t], s) && Hashes(turns + [t]) == Hashes(turns) + [t.h]
    ensures AcceptedBy(turns + [t]) == if t.outcome.Accepted? then AcceptedBy(turns) + [t.h] else AcceptedBy(turns)
    ensures RejectedBy(turns + [t]) == if t.outcome.Rejected? then RejectedBy(turns) + [t.h] else RejectedBy(turns)
  {
    assert (turns + [t])[..|turns|] == turns;
    forall i: nat | i < |turns + [t]|
      ensures TurnTaken(turns + [t], s, i)
    {
      assert i < |turns| ==> TurnTaken(turns, t.before, i);
    }
  }

  /** A share the pass has not come to is as it was. */
  lemma {:induction false} StillPending(s0: State, turns: seq<Turn>, s: State, h: Hash)
    requires PassRun(s0, turns, s) && h !in Hashes(turns)
    ensures (h in s.shares <==> h in s0.shares) && (h in s.verified <==> h in s0.verified)
  {
    if turns != [] {
      var n := |turns| - 1;
      PassRunLast(s0, turns, s);
      StillPending(s0, turns[..n], turns[n].before, h);
      assert turns[n].h in Hashes(turns);
    }
  }

  /** A pass in which nothing was accepted or rejected changed nothing. */
  lemma {:induction false} QuietRun(s0: State, turns: seq<Turn>, s: State)
    requires PassRun(s0, turns, s) && AcceptedBy(turns) == [] && RejectedBy(turns) == []
    ensures s == s0
  {
    if turns != [] {
      var n := |turns| - 1;
      PassRunLast(s0, turns, s);
      assert AcceptedBy(turns[..n]) == [] && RejectedBy(turns[..n]) == [];
      assert turns[n].outcome.Skipped?;
      QuietRun(s0, turns[..n], turns[n].before);
    }
  }

  /** What a run adds up to: the accepted shares moved to the verified ones, the rejected ones gone. */
  ghost predicate Changed(s0: State, s: State, accepted: set<Hash>, rejected: set<Hash>) {
    && s.shares == s0.shares - rejected && s.verified == s0.verified + accepted
    && s.received == s0.received - (accepted + rejected)
    && s.work == s0.work - rejected && s.len == s0.len - rejected && s.dirty == s0.dirty + (accepted + rejected)
  }

  lemma ChangedByAcceptance(s0: State, s: State, s': State, accepted: set<Hash>, rejected: set<Hash>, h: Hash)
    requires Changed(s0, s, accepted, rejected) && Judged(s, s', h, Accepted)
    ensures Changed(s0, s', accepted + {h}, rejected)
  {
    MinusMinus(s0.received, accepted + rejected, {h});
    assert accepted + {h} + rejected == accepted + rejected + {h};
  }

  lemma ChangedByRejection(s0: State, s: State, s': State, accepted: set<Hash>, rejected: set<Hash>, h: Hash)
    requires Changed(s0, s, accepted, rejected) && Judged(s, s', h, Rejected)
    ensures Changed(s0, s', accepted, rejected + {h})
  {
    MinusMinus(s0.received, accepted + rejected, {h});
    MinusMinus(s0.shares, rejected, {h});
    MinusMinus(s0.work, rejected, {h});
    MinusMinus(s0.len, rejected, {h});
    assert accepted + (rejected + {h}) == accepted + rejected + {h};
  }

  lemma {:induction false} RunChanges(s0: State, turns: seq<Turn>, s: State)
    requires PassRun(s0, turns, s)
    ensures Changed(s0, s, Elems(AcceptedBy(turns)), Elems(RejectedBy(turns)))
  {
    if turns == [] {
      MinusAbsent(s0.shares, {});
      MinusAbsent(s0.received, {});
      MinusAbsent(s0.work, {});
      MinusAbsent(s0.len, {});
      assert Elems(AcceptedBy(turns)) == {} && Elems(RejectedBy(turns)) == {};
    } else {
      var n := |turns| - 1;
      var t, acc, rej := turns[n], AcceptedBy(turns[..n]), RejectedBy(turns[..n]);
      PassRunLast(s0, turns, s);
      RunChanges(s0, turns[..n], t.before);
      match t.outcome {
        case Skipped =>
          assert AcceptedBy(turns) == acc && RejectedBy(turns) == rej;
        case Accepted =>
          assert RejectedBy(turns) == rej && Elems(acc + [t.h]) == Elems(acc) + {t.h};
          ChangedByAcceptance(s0, t.before, s, Elems(acc), Elems(rej), t.h);
        case Rejected =>
          assert AcceptedBy(turns) == acc && Elems(rej + [t.h]) == Elems(rej) + {t.h};
          ChangedByRejection(s0, t.before, s, Elems(acc), Elems(rej), t.h);
      }
    }
  }

  /** The tip stays the best over the works the pass goes by. */
  lemma {:induction false} RunKeepsTip(s0: State, turns: seq<Turn>, s: State)
    requires PassRun(s0, turns, s) && Keys(s0) && Comparable(s0.work) && TipHolds(s0)
    ensures Keys(s) && Comparable(s.work) && TipHolds(s)
  {
    if turns != [] {
      PassRunLast(s0, turns, s);
      RunKeepsTip(s0, turns[..|turns| - 1], turns[|turns| - 1].before);
    }
  }

  lemma {:induction false} RunMembers(turns: seq<Turn>)
    requires NoDup(Hashes(turns))
    ensures NoDup(AcceptedBy(turns))
    ensures forall x :: x in AcceptedBy(turns) ==> x in Hashes(turns) && x !in RejectedBy(turns)
    ensures forall x :: x in RejectedBy(turns) ==> x in Hashes(turns)
  {
    if turns != [] {
      var n := |turns| - 1;
      var t, hs, acc, rej := turns[n], Hashes(turns[..n]), AcceptedBy(turns[..n]), RejectedBy(turns[..n]);
      assert Hashes(turns)[..|hs|] == hs && Hashes(turns)[|hs|] == t.h;
      RunMembers(turns[..n]);
      assert t.h !in hs;
      assert Hashes(turns) == hs + [t.h];
      if t.outcome.Accepted? {
        assert AcceptedBy(turns) == acc + [t.h] && RejectedBy(turns) == rej;
        NoDupConcat(acc, [t.h]);
      } else {
        assert AcceptedBy(turns) == acc;
      }
    }
  }

  /** If every pending share has to wait, the pass does nothing. */
  lemma {:induction false} RunOfWaiting(s0: State, turns: seq<Turn>, s: State)
    requires PassRun(s0, turns, s) && Keys(s0)
    requires forall h {:trigger h in Hashes(turns)} :: h in Hashes(turns) ==> h in s0.shares && Waiting(s0.shares, s0.verified, s0.len, h)
    ensures AcceptedBy(turns) == [] && RejectedBy(turns) == []
  {
    if turns != [] {
      var n := |turns| - 1;
      assert forall h :: h in Hashes(turns[..n]) ==> h in Hashes(turns);
      PassRunLast(s0, turns, s);
      RunOfWaiting(s0, turns[..n], turns[n].before);
      QuietRun(s0, turns[..n], turns[n].before);
      assert turns[n].h in Hashes(turns);
    }
  }

  function LenAt(len: map<Hash, nat>, h: Hash): nat {
    if h in len then len[h] else 0
  }

  ghost predicate LengthOrder(len: map<Hash, nat>, hs: seq<Hash>) {
    forall i, j :: 0 <= i < j < |hs| ==> LenAt(len, hs[i]) <= LenAt(len, hs[j])
  }

  /** h was passed over for good: in s it still has to wait. */
  ghost predicate LeftWaiting(s: State, h: Hash) {
    Keys(s) && h in s.shares && (h in s.verified || Waiting(s.shares, s.verified, s.len, h))
  }

  /** A share that waits keeps waiting when another one, not its parent, has its turn. */
  lemma WaitingKept(s: State, s': State, h: Hash, x: Hash, outcome: Outcome)
    requires Judged(s, s', h, outcome) && LeftWaiting(s, x) && x != h && PrevKey(s.shares[x]) != Some(h)
    ensures LeftWaiting(s', x)
  {
  }

  /** A non-stale share is one longer than its held parent. */
  lemma LongerThanParent(m: ShareMap, rank: Rank, work: map<Hash, real>, len: map<Hash, nat>, h: Hash)
    requires Acyclic(m, rank) && TotalsExact(m, rank, work, len) && h in m && !m[h].stale
    requires PrevKey(m[h]).Some? && PrevKey(m[h]).value in m
    ensures LenAt(len, h) == LenAt(len, PrevKey(m[h]).value) + 1
  {
    assert ShareRanked(h, m[h], rank);
    assert EntryExact(m, rank, work, len, h) && EntryExact(m, rank, work, len, PrevKey(m[h]).value);
  }

  /** A pass only removes shares. */
  lemma {:induction false} RunShrinks(s0: State, turns: seq<Turn>, s: State)
    requires PassRun(s0, turns, s)
    ensures Extends(s.shares, s0.shares)
  {
    if turns != [] {
      PassRunLast(s0, turns, s);
      RunShrinks(s0, turns[..|turns| - 1], turns[|turns| - 1].before);
    }
  }

  /** In length order a later share is not the parent of an earlier non-stale one. */
  lemma LaterIsNotParent(s0: State, rank: Rank, hs: seq<Hash>, h: Hash, x: Hash)
    requires Acyclic(s0.shares, rank) && TotalsExact(s0.shares, rank, s0.work, s0.len)
    requires LengthOrder(s0.len, hs + [h]) && x in hs && x in s0.shares && h in s0.shares && !s0.shares[x].stale
    ensures PrevKey(s0.shares[x]) != Some(h)
  {
    var k :| 0 <= k < |hs| && hs[k] == x;
    assert (hs + [h])[k] == x && (hs + [h])[|hs|] == h;
    if PrevKey(s0.shares[x]) == Some(h) {
      LongerThanParent(s0.shares, rank, s0.work, s0.len, x);
      assert false;
    }
  }

  /**
   * In length order the parent of a non-stale share has its turn first, so a non-stale share
   * that is neither verified nor rejected when its turn is over is still waiting at the end.
   */
  lemma {:induction false} RunLeavesWaiting(s0: State, rank: Rank, turns: seq<Turn>, s: State, x: Hash)
    requires Acyclic(s0.shares, rank) && TotalsExact(s0.shares, rank, s0.work, s0.len)
    requires PassRun(s0, turns, s) && NoDup(Hashes(turns)) && LengthOrder(s0.len, Hashes(turns))
    requires Elems(Hashes(turns)) <= s0.shares.Keys
    requires x in Hashes(turns) && x !in RejectedBy(turns) && !s0.shares[x].stale
    ensures LeftWaiting(s, x)
  {
    var n := |turns| - 1;
    var t, hs := turns[n], Hashes(turns[..n]);
    PassRunLast(s0, turns, s);
    assert Hashes(turns)[..|hs|] == hs && t.h in Elems(Hashes(turns));
    if t.h != x {
      assert Elems(hs) <= Elems(Hashes(turns));
      RunLeavesWaiting(s0, rank, turns[..n], t.before, x);
      RunShrinks(s0, turns[..n], t.before);
      LaterIsNotParent(s0, rank, hs, t.h, x);
      WaitingKept(t.before, s, t.h, x, t.outcome);
    }
  }

  /** Recounting after the removals only shortens chains, so whoever waits keeps waiting. */
  lemma WaitingAfterRecount(was: ShareMap, m: ShareMap, rank: Rank, children: ChildIndex, verified: set<Hash>,
                            work: map<Hash, real>, len: map<Hash, nat>, work': map<Hash, real>, len': map<Hash, nat>, h: Hash)
    requires LagsBehind(was, m, rank, children, work, len) && TotalsExact(m, rank, work', len')
    requires h in m && Waiting(m, verified, len, h)
    ensures Waiting(m, verified, len', h)
  {
    var p := PrevKey(m[h]).value;
    if p in m {
      assert EntryExact(was, rank, work, len, p) && EntryExact(m, rank, work', len', p);
      TotalsMonotone(m, was, rank, p);
    }
  }

  /** Every non-stale pending share has to wait. */
  ghost predicate NonStaleWait(s: State)
    requires Keys(s)
  {
    forall h {:trigger Waiting(s.shares, s.verified, s.len, h)} ::
      h in s.shares && h !in s.verified && !s.shares[h].stale ==> Waiting(s.shares, s.verified, s.len, h)
  }

  /** Every pending share has to wait. */
  ghost predicate AllWait(s: State)
    requires Keys(s)
  {
    forall h {:trigger Waiting(s.shares, s.verified, s.len, h)} ::
      h in s.shares && h !in s.verified ==> Waiting(s.shares, s.verified, s.len, h)
  }

  lemma ChangedKeepsBooks(s0: State, s: State, accepted: set<Hash>, rejected: set<Hash>)
    requires Changed(s0, s, accepted, rejected) && Bookkept(s0)
    requires accepted <= s0.shares.Keys - s0.verified && rejected <= s0.shares.Keys - s0.verified && accepted !! rejected
    ensures Bookkept(s)
  {
  }

  /** What a pass over all pending shares in length order leaves before the rejected work is dropped. */
  lemma RunSummary(s0: State, rank: Rank, turns: seq<Turn>, s: State)
    requires Acyclic(s0.shares, rank) && TotalsExact(s0.shares, rank, s0.work, s0.len)
    requires PassRun(s0, turns, s) && NoDup(Hashes(turns)) && LengthOrder(s0.len, Hashes(turns))
    requires Elems(Hashes(turns)) == s0.shares.Keys - s0.verified && Bookkept(s0)
    ensures Changed(s0, s, Elems(AcceptedBy(turns)), Elems(RejectedBy(turns))) && Keys(s) && Bookkept(s)
    ensures NonStaleWait(s)
    ensures AllWait(s0) ==> AcceptedBy(turns) == [] && RejectedBy(turns) == [] && s == s0
    ensures Comparable(s0.work) && TipHolds(s0) ==> TipHolds(s)
  {
    RunChanges(s0, turns, s);
    RunMembers(turns);
    assert forall x :: x in Hashes(turns) ==> x in Elems(Hashes(turns));
    ChangedKeepsBooks(s0, s, Elems(AcceptedBy(turns)), Elems(RejectedBy(turns)));
    forall h | h in s.shares && h !in s.verified && !s.shares[h].stale ensures Waiting(s.shares, s.verified, s.len, h) {
      assert h in Elems(Hashes(turns)) && h !in Elems(RejectedBy(turns));
      RunLeavesWaiting(s0, rank, turns, s, h);
    }
    if AllWait(s0) {
      forall h | h in Hashes(turns) ensures h in s0.shares && Waiting(s0.shares, s0.verified, s0.len, h) {
        assert h in Elems(Hashes(turns));
      }
      RunOfWaiting(s0, turns, s);
      QuietRun(s0, turns, s);
    }
    if Comparable(s0.work) && TipHolds(s0) {
      RunKeepsTip(s0, turns, s);
    }
  }

  // ---- a pass whose turns come one at a time ----

  /** A verify pass under way: the shares still to be judged, and those rejected so far. */
  datatype Pass = Pass(todo: seq<Hash>, rejected: seq<Hash>)

  /** Turns keep an index that lags behind an earlier store. */
  lemma JudgedLags(was: ShareMap, rank: Rank, s: State, s': State, h: Hash, outcome: Outcome)
    requires LagsBehind(was, s.shares, rank, s.children, s.work, s.len) && Judged(s, s', h, outcome)
    requires ChildrenExact(s'.shares, s'.shares.Keys, s'.children)
    ensures LagsBehind(was, s'.shares, rank, s'.children, s'.work, s'.len)
  {
    if outcome.Rejected? {
      UnlinkLags(was, s.shares, rank, s.children, s'.children, s.work, s.len, h);
    }
  }

  function RejectedWith(r: set<Hash>, h: Hash, outcome: Outcome): set<Hash> {
    if outcome.Rejected? then r + {h} else r
  }

  /** What builds on the rejected shares after a turn is all that may be out of date. */
  lemma JudgedOutside(rank: Rank, r: set<Hash>, s: State, s': State, h: Hash, outcome: Outcome)
    requires Keyed(s.shares) && Acyclic(s.shares, rank) && ExactOutside(s.shares, rank, r, s.work, s.len)
    requires Judged(s, s', h, outcome)
    ensures Keyed(s'.shares) && Acyclic(s'.shares, rank)
    ensures ExactOutside(s'.shares, rank, RejectedWith(r, h, outcome), s'.work, s'.len)
  {
    forall x | x in s'.shares ensures ShareRanked(x, s'.shares[x], rank) {
      assert ShareRanked(x, s.shares[x], rank);
    }
    if outcome.Rejected? {
      forall x | x in s'.shares && !Below(s'.shares, rank, r + {h}, x)
        ensures EntryExact(s'.shares, rank, s'.work, s'.len, x)
      {
        OutsideRemoved(s.shares, rank, r, h, x);
        assert EntryExact(s.shares, rank, s.work, s.len, x);
      }
    }
  }

  /** A turn keeps the tip the best over the works kept, unless some candidate is to be recounted. */
  lemma JudgedTip(rank: Rank, unit: real, r: set<Hash>, s: State, s': State, h: Hash, outcome: Outcome)
    requires Acyclic(s.shares, rank) && Acyclic(s'.shares, rank) && Judged(s, s', h, outcome) && h !in s.verified
    requires Graded(s.shares, unit, s.work) && TipFine(s.shares, s.shares, rank, r, s.verified, s.work, s.tip)
    ensures Graded(s'.shares, unit, s'.work)
    ensures TipFine(s'.shares, s'.shares, rank, RejectedWith(r, h, outcome), s'.verified, s'.work, s'.tip)
  {
    assert forall x :: x in s'.work ==> s'.work[x] == s.work[x] && Multiple(s.work[x], unit);
    if TipHolds(s) {
      GradedComparable(s.shares, unit, s.work);
    } else {
      var c :| Candidate(s.shares, s.verified, c) && Below(s.shares, rank, r, c);
      assert Candidate(s'.shares, s'.verified, c);
      if outcome.Rejected? && !Below(s'.shares, rank, r + {h}, c) {
        OutsideRemoved(s.shares, rank, r, h, c);
        assert false;
      }
    }
  }

  lemma JudgedBooks(s: State, s': State, h: Hash, outcome: Outcome)
    requires Bookkept(s) && Judged(s, s', h, outcome) && h !in s.verified
    ensures Bookkept(s')
    ensures forall x :: x in s.shares.Keys - s.verified && x != h ==> x in s'.shares.Keys - s'.verified
  {
  }

  lemma RestToJudge(todo: seq<Hash>)
    requires todo != [] && NoDup(todo)
    ensures NoDup(todo[1..]) && forall x :: x in todo[1..] ==> x in todo && x != todo[0]
  {
  }

  lemma RejectedGrows(rejected: seq<Hash>, h: Hash)
    ensures Elems(rejected + [h]) == RejectedWith(Elems(rejected), h, Rejected)
  {
  }

  // ---- what the pass has accepted, for the median rule ----

  /** Every recorded share was accepted in a sound turn, on shares that are all known. */
  ghost predicate Recorded(rank: Rank, scriptOf: ScriptOf, seen: ShareMap, record: map<Hash, Turn>) {
    && Acyclic(seen, rank)
    && forall h {:trigger AcceptedIn(rank, scriptOf, seen, h, record[h])} ::
         h in record ==> AcceptedIn(rank, scriptOf, seen, h, record[h])
  }

  /** h was accepted in turn t, on known shares. */
  ghost predicate AcceptedIn(rank: Rank, scriptOf: ScriptOf, seen: ShareMap, h: Hash, t: Turn) {
    t.h == h && t.outcome.Accepted? && TurnSound(rank, scriptOf, t) && Extends(t.before.shares, seen)
  }

  /** A share accepted while its parent's full window was held counts as accepted on top of it. */
  lemma RecordedIsAccepted(rank: Rank, scriptOf: ScriptOf, seen: ShareMap, record: map<Hash, Turn>, s: Share, p: Hash)
    requires Recorded(rank, scriptOf, seen, record) && s.hash in record && ChildOf(seen, s, p)
    requires FullWindowThen(rank, record[s.hash], p)
    ensures AcceptedOn(seen, rank, scriptOf, s, p)
  {
    var t := record[s.hash];
    assert AcceptedIn(rank, scriptOf, seen, s.hash, t);
    assert t.before.shares[t.h] == s;
    assert Acceptable(t.before.shares, rank, t.before.tip, scriptOf, s, ParentLen(t.before.shares, t.before.len, t.h));
  }

  /** The full window of p was held when the turn was taken. */
  ghost predicate FullWindowThen(rank: Rank, t: Turn, p: Hash) {
    Acyclic(t.before.shares, rank) && FullWindow(t.before.shares, rank, p)
  }

  /** A chain of known shares, each recorded as accepted while the full window below it was held. */
  ghost predicate RecordedChain(rank: Rank, seen: ShareMap, record: map<Hash, Turn>, chain: seq<Share>)
    requires Acyclic(seen, rank)
  {
    && chain != [] && FullWindow(seen, rank, chain[0].hash) && chain[0].hash in seen && seen[chain[0].hash] == chain[0]
    && forall i :: 0 < i < |chain| ==>
         && chain[i].hash in record && ChildOf(seen, chain[i], chain[i - 1].hash)
         && FullWindowThen(rank, record[chain[i].hash], chain[i - 1].hash)
  }

  /**
   * The median rule for what the node has verified: along every recorded chain that starts armed, the
   * median never decreases once it has reached activation, and no later share is before it.
   */
  lemma RecordedMedian(rank: Rank, scriptOf: ScriptOf, seen: ShareMap, record: map<Hash, Turn>, chain: seq<Share>, i: nat, j: nat)
    requires Recorded(rank, scriptOf, seen, record) && RecordedChain(rank, seen, record, chain) && i <= j < |chain|
    requires Armed(seen, rank, chain[0])
    requires FullWindow(seen, rank, chain[i].hash) && Mtp(seen, rank, chain[i].hash) >= CONSENSUS_V3_ACTIVATION_TIME
    ensures FullWindow(seen, rank, chain[j].hash) && Mtp(seen, rank, chain[j].hash) >= Mtp(seen, rank, chain[i].hash)
    ensures i < j ==> FullWindow(seen, rank, chain[j - 1].hash) && chain[j].timestamp >= Mtp(seen, rank, chain[j - 1].hash)
  {
    forall k | 0 < k < |chain|
      ensures AcceptedOn(seen, rank, scriptOf, chain[k], chain[k - 1].hash)
    {
      RecordedIsAccepted(rank, scriptOf, seen, record, chain[k], chain[k - 1].hash);
    }
    MedianNeverDecreases(seen, rank, scriptOf, chain, i, j);
  }
}
