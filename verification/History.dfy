/**
 * What a run of the share chain has accepted, over its whole history: every verified share was loaded
 * or accepted by the rules on shares that were held, and the median rule binds every chain of them.
 */
module History {
  import opened Shares
  import opened Payout
  import opened Consensus
  import opened VerifyPass
  import opened ShareChain

  /** The share that a hash stands for. */
  type Identity = Hash -> Share

  /** Every share is the one its hash stands for. */
  ghost predicate Known(m: ShareMap, identity: Identity) {
    forall h :: h in m ==> m[h] == identity(h)
  }

  /** What a batch brings is ranked and known. */
  ghost predicate StepKnown(rank: Rank, identity: Identity, st: Step) {
    OpRanked(st.op, rank) && (st.op.StoreOp? ==> forall s :: s in st.op.batch ==> s == identity(s.hash))
  }

  ghost predicate AllKnown(rank: Rank, identity: Identity, steps: seq<Step>) {
    forall i :: 0 <= i < |steps| ==> StepKnown(rank, identity, steps[i])
  }

  /** Every share held at some time during the steps. */
  function Seen(m: ShareMap, steps: seq<Step>): ShareMap {
    if steps == [] then m else Seen(m, steps[..|steps| - 1]) + steps[|steps| - 1].after.state.shares
  }

  /** The turns that accepted shares, the latest one for each. */
  function RecordOf(steps: seq<Step>): map<Hash, Turn> {
    if steps == [] then map[]
    else
      var before, t := RecordOf(steps[..|steps| - 1]), steps[|steps| - 1].turn;
      if t.Some? && t.value.outcome.Accepted? then before[t.value.h := t.value] else before
  }

  /** A trace and its last step. */
  lemma TraceLast(rank: Rank, scriptOf: ScriptOf, s0: World, steps: seq<Step>, s: World)
    requires Trace(rank, scriptOf, s0, steps, s) && steps != []
    ensures var st := steps[|steps| - 1];
      Accounted(rank, scriptOf, st) && st.after == s && Trace(rank, scriptOf, s0, steps[..|steps| - 1], st.before)
  {
    var n := |steps| - 1;
    assert StepFits(rank, scriptOf, steps, n);
    PerformedAccounts(rank, scriptOf, steps[n]);
    forall i: nat | i < n
      ensures StepFits(rank, scriptOf, steps[..n], i)
    {
      assert StepFits(rank, scriptOf, steps, i);
    }
  }

  /** The books of history: known shares, sound acceptances on them, and nothing held or verified besides. */
  ghost predicate Remembered(rank: Rank, scriptOf: ScriptOf, identity: Identity, trusted: set<Hash>,
                             seen: ShareMap, record: map<Hash, Turn>, s: State)
  {
    && Known(seen, identity) && Recorded(rank, scriptOf, seen, record)
    && Extends(s.shares, seen) && s.verified <= record.Keys + trusted
  }

  /** What a step adds to the shares seen is ranked and known. */
  lemma SeenGrows(rank: Rank, identity: Identity, seen: ShareMap, st: Step)
    requires Known(seen, identity) && Acyclic(seen, rank) && Extends(st.before.state.shares, seen)
    requires NothingElse(st.op, st.before.state.shares, st.after.state.shares) && StepKnown(rank, identity, st)
    ensures Known(seen + st.after.state.shares, identity) && Acyclic(seen + st.after.state.shares, rank)
    ensures Extends(seen, seen + st.after.state.shares)
  {
    var all := seen + st.after.state.shares;
    forall h | h in all
      ensures all[h] == identity(h) && ShareRanked(h, all[h], rank)
    {
      assert h in seen ==> ShareRanked(h, seen[h], rank);
    }
  }

  lemma RecordGrows(rank: Rank, scriptOf: ScriptOf, seen: ShareMap, all: ShareMap, record: map<Hash, Turn>, t: Turn)
    requires Recorded(rank, scriptOf, seen, record) && Acyclic(all, rank) && Extends(seen, all)
    ensures Recorded(rank, scriptOf, all, record)
    ensures TurnSound(rank, scriptOf, t) && t.outcome.Accepted? && Extends(t.before.shares, seen) ==>
      Recorded(rank, scriptOf, all, record[t.h := t])
  {
    forall h | h in record
      ensures AcceptedIn(rank, scriptOf, all, h, record[h])
    {
      assert AcceptedIn(rank, scriptOf, seen, h, record[h]);
    }
    if TurnSound(rank, scriptOf, t) && t.outcome.Accepted? && Extends(t.before.shares, seen) {
      assert AcceptedIn(rank, scriptOf, all, t.h, t);
      var more := record[t.h := t];
      forall h | h in more
        ensures AcceptedIn(rank, scriptOf, all, h, more[h])
      {
        assert h != t.h ==> more[h] == record[h];
      }
    }
  }

  lemma StepRemembered(rank: Rank, scriptOf: ScriptOf, identity: Identity, trusted: set<Hash>,
                       seen: ShareMap, record: map<Hash, Turn>, record': map<Hash, Turn>, st: Step)
    requires Remembered(rank, scriptOf, identity, trusted, seen, record, st.before.state)
    requires Accounted(rank, scriptOf, st) && StepKnown(rank, identity, st)
    requires record' == if st.turn.Some? && st.turn.value.outcome.Accepted? then record[st.turn.value.h := st.turn.value] else record
    ensures Remembered(rank, scriptOf, identity, trusted, seen + st.after.state.shares, record', st.after.state)
  {
    SeenGrows(rank, identity, seen, st);
    var t := if st.turn.Some? then st.turn.value else Turn(0, Skipped, st.before.state);
    RecordGrows(rank, scriptOf, seen, seen + st.after.state.shares, record, t);
  }

  /** The history of any run: every verified share was verified at the start or accepted in a sound turn on known shares. */
  lemma {:induction false} RunRemembered(rank: Rank, scriptOf: ScriptOf, identity: Identity, s0: World, steps: seq<Step>, s: World)
    requires Trace(rank, scriptOf, s0, steps, s) && AllKnown(rank, identity, steps)
    requires Acyclic(s0.state.shares, rank) && Known(s0.state.shares, identity)
    ensures Remembered(rank, scriptOf, identity, s0.state.verified, Seen(s0.state.shares, steps), RecordOf(steps), s.state)
    decreases |steps|
  {
    if steps != [] {
      var n := |steps| - 1;
      TraceLast(rank, scriptOf, s0, steps, s);
      RunRemembered(rank, scriptOf, identity, s0, steps[..n], steps[n].before);
      StepRemembered(rank, scriptOf, identity, s0.state.verified, Seen(s0.state.shares, steps[..n]), RecordOf(steps[..n]), RecordOf(steps), steps[n]);
    }
  }

  /**
   * The median rule over a whole run: take any chain of shares that the run accepted, each while the
   * full window below it was held, armed at its start. Once its median time past has reached
   * activation the median never decreases, and every later share, stale or not, is at or after it.
   */
  lemma RunMedianNeverDecreases(rank: Rank, scriptOf: ScriptOf, identity: Identity, s0: World, steps: seq<Step>, s: World,
                                chain: seq<Share>, i: nat, j: nat)
    requires Trace(rank, scriptOf, s0, steps, s) && AllKnown(rank, identity, steps)
    requires Acyclic(s0.state.shares, rank) && Known(s0.state.shares, identity) && Acyclic(Seen(s0.state.shares, steps), rank)
    requires RecordedChain(rank, Seen(s0.state.shares, steps), RecordOf(steps), chain) && i <= j < |chain|
    requires Armed(Seen(s0.state.shares, steps), rank, chain[0])
    requires FullWindow(Seen(s0.state.shares, steps), rank, chain[i].hash)
    requires Mtp(Seen(s0.state.shares, steps), rank, chain[i].hash) >= CONSENSUS_V3_ACTIVATION_TIME
    ensures var seen := Seen(s0.state.shares, steps);
      && FullWindow(seen, rank, chain[j].hash) && Mtp(seen, rank, chain[j].hash) >= Mtp(seen, rank, chain[i].hash)
      && (i < j ==> FullWindow(seen, rank, chain[j - 1].hash) && chain[j].timestamp >= Mtp(seen, rank, chain[j - 1].hash))
  {
    RunRemembered(rank, scriptOf, identity, s0, steps, s);
    RecordedMedian(rank, scriptOf, Seen(s0.state.shares, steps), RecordOf(steps), chain, i, j);
  }
}
