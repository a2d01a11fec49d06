/**
 * The share chain as the program keeps it: the held shares, the incremental index over
 * them, the verified and received sets, the tip, and the set of hashes changed since the
 * last commit.
 */
module ShareChain {
  import opened Shares
  import opened Sequences
  import opened Tip
  import opened WorkIndex
  import opened Sorting
  import opened Window
  import opened Payout
  import opened Consensus
  import opened VerifyPass
  import opened Admission
  import opened Pruning
  import opened ShareStore

  /**
   * The locked sections of a running chain, each one operation. A verify pass begins, takes its
   * turns one at a time and ends; a commit begins and ends; others can come in between.
   */
  datatype Op =
    | StoreOp(batch: seq<Share>, now: int)
    | PassBeginOp
    | PassTurnOp
    | PassEndOp
    | PruneOldOp(cutoff: int)
    | PruneUnverifiedOp(now: int)
    | RecomputeOp
    | CommitBeginOp
    | CommitEndOp(written: bool)

  /** Hash links are acyclic. */
  ghost predicate OpRanked(op: Op, rank: Rank) {
    op.StoreOp? ==> forall s :: s in op.batch ==> ShareRanked(s.hash, s, rank)
  }

  ghost predicate OpOnGrid(op: Op, unit: real) {
    op.StoreOp? ==> forall s :: s in op.batch ==> ShareOnGrid(s, unit)
  }

  lemma StoredOnGrid(m: ShareMap, batch: seq<Share>, now: int, unit: real)
    requires OnGrid(m, unit) && forall s :: s in batch ==> ShareOnGrid(s, unit)
    ensures OnGrid(StoredAfter(m, batch, now), unit)
  {
    StoredFacts(m, batch, now);
  }

  lemma GradedShrinks(m: ShareMap, m': ShareMap, unit: real, work: map<Hash, real>, gone: set<Hash>)
    requires Graded(m, unit, work) && Extends(m', m)
    ensures Graded(m', unit, work - gone)
  {
    assert forall h :: h in work - gone ==> (work - gone)[h] == work[h] && Multiple(work[h], unit);
  }

  /** Arrival times with those of the shares that arrive now. */
  function ReceivedWith(received: map<Hash, int>, hs: set<Hash>, now: int): map<Hash, int> {
    received + map h | h in hs :: now
  }

  lemma StoredBooks(s: State, m: ShareMap, hs: set<Hash>, now: int)
    requires Bookkept(s) && m.Keys == s.shares.Keys + hs && hs !! s.shares.Keys
    ensures Bookkept(s.(shares := m, received := ReceivedWith(s.received, hs, now))) && hs !! s.verified
    ensures forall h :: h in ReceivedWith(s.received, hs, now) ==>
      ReceivedWith(s.received, hs, now)[h] == if h in s.received then s.received[h] else now
  {
  }

  /** The turns that can be taken in s, by the rules, and the states they lead to. */
  ghost function PossibleTurns(rank: Rank, scriptOf: ScriptOf, s: State): iset<(Turn, State)> {
    iset p: (Turn, State) | p.0.before == s && TurnSound(rank, scriptOf, p.0) && Judged(s, p.1, p.0.h, p.0.outcome)
  }

  lemma TurnIsPossible(rank: Rank, scriptOf: ScriptOf, t: Turn, s': State)
    requires TurnSound(rank, scriptOf, t) && Judged(t.before, s', t.h, t.outcome)
    ensures (t, s') in PossibleTurns(rank, scriptOf, t.before)
  {
  }

  /** The turns give every pending share of s0 one turn by the rules, shortest chain first, and lead to mid. */
  ghost predicate PassOver(rank: Rank, scriptOf: ScriptOf, s0: State, turns: seq<Turn>, mid: State) {
    && NoDup(Hashes(turns)) && Elems(Hashes(turns)) == s0.shares.Keys - s0.verified && LengthOrder(s0.len, Hashes(turns))
    && TurnsSound(rank, scriptOf, turns) && PassRun(s0, turns, mid)
  }

  /** The passes that can be made in s0 with nothing in between, and the states they lead to. */
  ghost function PossiblePasses(rank: Rank, scriptOf: ScriptOf, s0: State): iset<(seq<Turn>, State)> {
    iset p: (seq<Turn>, State) | PassOver(rank, scriptOf, s0, p.0, p.1)
  }

  lemma PassIsPossible(rank: Rank, scriptOf: ScriptOf, s0: State, turns: seq<Turn>, mid: State)
    requires PassOver(rank, scriptOf, s0, turns, mid)
    ensures (turns, mid) in PossiblePasses(rank, scriptOf, s0)
  {
  }

  /** A turn marks what it changes. */
  lemma JudgedMarked(s: State, s': State, h: Hash, outcome: Outcome)
    requires Judged(s, s', h, outcome) && h !in s.verified
    ensures Marked(View(s.shares, s.verified), s.dirty, View(s'.shares, s'.verified), s'.dirty)
  {
  }

  // ---- what each operation brings about ----

  /** Everything the chain keeps, as one value. */
  datatype World = World(state: State, pass: Option<Pass>, disk: ShareMap, flight: Option<Batch>)

  /** The same shares, verified or not, and the same marks; the index may differ. */
  ghost predicate SameBooks(s: State, s': State) {
    s'.shares == s.shares && s'.verified == s.verified && s'.received == s.received && s'.dirty == s.dirty
  }

  /** The admissible shares of the batch are held, and nothing else changes but the index. */
  ghost predicate StoreEffect(w: World, w': World, batch: seq<Share>, now: int) {
    && w'.pass == w.pass && w'.disk == w.disk && w'.flight == w.flight
    && w'.state.verified == w.state.verified && w'.state.dirty == w.state.dirty
    && Brought(batch, now, w.state.shares, w'.state.shares)
    && (forall h :: h in w'.state.received ==> w'.state.received[h] == if h in w.state.received then w.state.received[h] else now)
  }

  /** A pass starts with all pending shares, shortest chain first. */
  ghost predicate BeginEffect(w: World, w': World) {
    if w.pass.Some? then w' == w
    else
      && w' == w.(pass := w'.pass) && w'.pass.Some? && w'.pass.value.rejected == []
      && NoDup(w'.pass.value.todo) && Elems(w'.pass.value.todo) == w.state.shares.Keys - w.state.verified
      && LengthOrder(w.state.len, w'.pass.value.todo)
  }

  /** One turn, on the next share of the pass. */
  ghost predicate TurnEffect(rank: Rank, scriptOf: ScriptOf, w: World, w': World, turn: Option<Turn>) {
    if w.pass.None? || w.pass.value.todo == [] then w' == w && turn == None
    else
      var p := w.pass.value;
      && turn.Some? && turn.value.h == p.todo[0] && (turn.value, w'.state) in PossibleTurns(rank, scriptOf, w.state)
      && w'.disk == w.disk && w'.flight == w.flight
      && w'.pass == Some(Pass(p.todo[1..], if turn.value.outcome.Rejected? then p.rejected + [p.todo[0]] else p.rejected))
  }

  /** A pass with no share left to judge ends. */
  ghost predicate EndEffect(w: World, w': World) {
    if w.pass.None? || w.pass.value.todo != [] then w' == w
    else w'.pass == None && w'.disk == w.disk && w'.flight == w.flight && SameBooks(w.state, w'.state)
  }

  /** Whether a prune by age spares what a pass has left to judge. */
  ghost predicate PruneFits(w: World, cutoff: int) {
    w.pass.Some? ==> forall h :: h in w.pass.value.todo && h in w.state.shares ==> w.state.shares[h].timestamp >= cutoff
  }

  /** Exactly the shares from the cutoff on are left. */
  ghost predicate PruneOldEffect(w: World, w': World, cutoff: int) {
    if !PruneFits(w, cutoff) then w' == w
    else
      var s, s' := w.state, w'.state;
      && w'.pass == w.pass && w'.disk == w.disk && w'.flight == w.flight
      && (forall h :: h in s'.shares <==> h in s.shares && s.shares[h].timestamp >= cutoff)
      && (forall h :: h in s'.shares ==> s'.shares[h] == s.shares[h])
      && (forall h :: h in s'.verified <==> h in s.verified && h in s'.shares)
  }

  /** The expired unverified shares and the oldest beyond the cap are gone, and nothing else. */
  ghost predicate UnverifiedGone(rank: Rank, s: State, s': State, now: int) {
    var drop := s.shares.Keys - s'.shares.Keys;
    && Acyclic(s.shares, rank) && DropsChosen(s.received, Expired(s.shares, rank, s.verified, s.received, now), drop)
    && s'.shares == s.shares - drop && s'.received == s.received - drop && s'.verified == s.verified
  }

  /** What pruning unverified shares can lead to, over the orders in which equally old ones can be sorted. */
  ghost function UnverifiedPrunes(rank: Rank, s: State, now: int): iset<State> {
    iset s': State | UnverifiedGone(rank, s, s', now)
  }

  lemma UnverifiedPruned(rank: Rank, s: State, s': State, now: int, drop: set<Hash>)
    requires Acyclic(s.shares, rank) && Bookkept(s)
    requires DropsChosen(s.received, Expired(s.shares, rank, s.verified, s.received, now), drop)
    requires s'.shares == s.shares - drop && s'.verified == s.verified && s'.received == s.received - drop
    ensures s' in UnverifiedPrunes(rank, s, now)
  {
    assert s.shares.Keys - s'.shares.Keys == drop;
  }

  ghost predicate PruneUnverifiedEffect(rank: Rank, w: World, w': World, now: int) {
    if w.pass.Some? then w' == w
    else w'.pass == w.pass && w'.disk == w.disk && w'.flight == w.flight && w'.state in UnverifiedPrunes(rank, w.state, now)
  }

  /** A commit takes what is marked. */
  ghost predicate CommitBeginEffect(w: World, w': World) {
    if w.flight.Some? || w.state.dirty == {} then w' == w
    else w' == w.(state := w.state.(dirty := {}), flight := Some(BatchFor(View(w.state.shares, w.state.verified), w.state.dirty)))
  }

  /** A write that succeeded is on disk; one that failed is not, and its hashes are marked again. */
  ghost predicate CommitEndEffect(w: World, w': World, written: bool) {
    if w.flight.None? then w' == w
    else if written then w' == w.(disk := Written(w.disk, w.flight.value), flight := None)
    else w' == w.(state := w.state.(dirty := w.state.dirty + w.flight.value.hashes), flight := None)
  }

  /** What an operation brings about. */
  ghost predicate Effect(rank: Rank, scriptOf: ScriptOf, op: Op, w: World, w': World, turn: Option<Turn>) {
    && (!op.PassTurnOp? ==> turn == None)
    && (match op
        case StoreOp(batch, now) => StoreEffect(w, w', batch, now)
        case PassBeginOp => BeginEffect(w, w')
        case PassTurnOp => TurnEffect(rank, scriptOf, w, w', turn)
        case PassEndOp => EndEffect(w, w')
        case PruneOldOp(cutoff) => PruneOldEffect(w, w', cutoff)
        case PruneUnverifiedOp(now) => PruneUnverifiedEffect(rank, w, w', now)
        case RecomputeOp => w'.pass == w.pass && w'.disk == w.disk && w'.flight == w.flight && SameBooks(w.state, w'.state)
        case CommitBeginOp => CommitBeginEffect(w, w')
        case CommitEndOp(written) => CommitEndEffect(w, w', written))
  }

  /** All that an operation can lead to, and the turn it takes. */
  ghost function Effects(rank: Rank, scriptOf: ScriptOf, op: Op, w: World): iset<(World, Option<Turn>)> {
    iset p: (World, Option<Turn>) | Effect(rank, scriptOf, op, w, p.0, p.1)
  }

  lemma HasEffect(rank: Rank, scriptOf: ScriptOf, op: Op, w: World, w': World, turn: Option<Turn>)
    requires Effect(rank, scriptOf, op, w, w', turn)
    ensures (w', turn) in Effects(rank, scriptOf, op, w)
  {
  }

  /** One step of a run: the operation, what was before and after, and the turn if it took one. */
  datatype Step = Step(op: Op, before: World, after: World, turn: Option<Turn>)

  /** The step did what its operation brings about. */
  ghost predicate Performed(rank: Rank, scriptOf: ScriptOf, st: Step) {
    (st.after, st.turn) in Effects(rank, scriptOf, st.op, st.before)
  }

  /** Shares come only from batches, and become verified only in sound turns that accept them. */
  ghost predicate Accounted(rank: Rank, scriptOf: ScriptOf, st: Step) {
    && NothingElse(st.op, st.before.state.shares, st.after.state.shares)
    && (forall h :: h in st.after.state.verified && h !in st.before.state.verified ==>
          st.turn.Some? && st.turn.value.h == h && st.turn.value.outcome.Accepted?)
    && (st.turn.Some? ==> TurnSound(rank, scriptOf, st.turn.value) && st.turn.value.before == st.before.state)
  }

  /** Whatever is held was held before or is in the batch that was stored, under its hash. */
  ghost predicate NothingElse(op: Op, before: ShareMap, after: ShareMap) {
    forall h :: h in after ==>
      (h in before && after[h] == before[h]) || (op.StoreOp? && after[h] in op.batch && after[h].hash == h)
  }

  lemma PerformedAccounts(rank: Rank, scriptOf: ScriptOf, st: Step)
    requires Performed(rank, scriptOf, st)
    ensures Accounted(rank, scriptOf, st)
  {
  }

  /** A run of steps from one state to another. */
  ghost predicate Trace(rank: Rank, scriptOf: ScriptOf, s0: World, steps: seq<Step>, s: World) {
    && (if steps == [] then s == s0 else steps[0].before == s0 && steps[|steps| - 1].after == s)
    && forall i: nat {:trigger StepFits(rank, scriptOf, steps, i)} :: i < |steps| ==> StepFits(rank, scriptOf, steps, i)
  }

  /** Step i was performed and starts where the one before ended. */
  ghost predicate StepFits(rank: Rank, scriptOf: ScriptOf, steps: seq<Step>, i: nat)
    requires i < |steps|
  {
    Performed(rank, scriptOf, steps[i]) && (i > 0 ==> steps[i].before == steps[i - 1].after)
  }

  class Chain {
    ghost const rank: Rank
    ghost const unit: real       // works are compared exactly if they are multiples of this unit
    const scriptOf: ScriptOf
    var shares: ShareMap
    var verified: set<Hash>
    var received: map<Hash, int>
    var cumWork: map<Hash, real>
    var chainLen: map<Hash, nat>
    var children: ChildIndex
    var tip: Hash
    var dirty: set<Hash>
    var pass: Option<Pass>       // a verify pass that has taken its list of pending shares and not ended
    var disk: ShareMap           // the database
    var flight: Option<Batch>    // a commit that has taken the changed hashes and not finished writing

    ghost function Snapshot(): State
      reads this
    {
      State(shares, verified, received, cumWork, chainLen, children, dirty, tip)
    }

    ghost function All(): World
      reads this
    {
      World(Snapshot(), pass, disk, flight)
    }

    /** The index is exact for all shares that do not build on r. */
    ghost predicate IndexValid(r: set<Hash>)
      reads this
    {
      && Keyed(shares)
      && Acyclic(shares, rank)
      && ChildrenExact(shares, shares.Keys, children)
      && ExactOutside(shares, rank, r, cumWork, chainLen)
    }

    /** The index is exact. */
    ghost predicate IndexExact()
      reads this
    {
      && Keyed(shares)
      && Acyclic(shares, rank)
      && ChildrenExact(shares, shares.Keys, children)
      && TotalsExact(shares, rank, cumWork, chainLen)
    }

    lemma ExactIsValid()
      ensures IndexExact() <==> IndexValid({})
    {
      if Acyclic(shares, rank) {
        OutsideNothing(shares, rank, cumWork, chainLen);
      }
    }

    /** The shares rejected by the pass under way, whose descendants keep their work until it ends. */
    ghost function RejectedSoFar(): set<Hash>
      reads this
    {
      if pass.Some? then Elems(pass.value.rejected) else {}
    }

    /** A pass has distinct, held, unverified shares to judge. */
    ghost predicate PassFits(p: Pass)
      reads this
    {
      NoDup(p.todo) && forall h :: h in p.todo ==> h in shares && h !in verified
    }

    /** No pass is under way: the index is exact, and the received shares are the unverified ones. */
    ghost predicate Quiet()
      reads this
    {
      pass.None? && IndexExact() && Bookkept(Snapshot())
    }

    /**
     * What every operation keeps: the index is exact but for shares that build on those rejected by a
     * pass under way, and the received shares are the unverified ones.
     */
    ghost predicate Valid()
      reads this
    {
      && Bookkept(Snapshot())
      && (match pass
          case None => IndexExact()
          case Some(p) => IndexValid(Elems(p.rejected)) && PassFits(p))
    }

    /** Moves the tip to the best candidate, if there is one, scanning the shares in any order. */
    method SelectTip()
      requires Keyed(shares) && cumWork.Keys == shares.Keys
      modifies this`tip
      ensures Comparable(cumWork) ==> TipBest(shares, verified, cumWork, tip)
      ensures tip == old(tip) || Candidate(shares, verified, tip)
    {
      var best: Option<Hash> := None;
      var todo := shares.Keys;
      while todo != {}
        invariant best.Some? ==> Candidate(shares, verified, best.value)
        invariant forall c :: Candidate(shares, verified, c) && c !in todo ==>
          best.Some? && (c == best.value || (Comparable(cumWork) ==> Beats(cumWork[best.value], best.value, cumWork[c], c)))
        decreases todo
      {
        var h :| h in todo;
        if Candidate(shares, verified, h) &&
           (best.None? || BetterTip(cumWork[h], h, cumWork[best.value], best.value)) {
          best := Some(shares[h].hash);
        }
        todo := todo - {h};
      }
      if best.Some? {
        tip := best.value;
      }
    }

    /** The tip is a candidate that beats every candidate outside hs. */
    ghost predicate TipBeatsAllBut(hs: seq<Hash>)
      requires cumWork.Keys == shares.Keys
      reads this
    {
      forall c :: Candidate(shares, verified, c) && c !in hs ==>
        && Candidate(shares, verified, tip)
        && (c == tip || Beats(cumWork[tip], tip, cumWork[c], c))
    }

    /** Moves the tip to any of hs that beats it. */
    method ConsiderTip(hs: seq<Hash>)
      requires Keyed(shares) && cumWork.Keys == shares.Keys
      modifies this`tip
      ensures Comparable(cumWork) && old(TipBeatsAllBut(hs)) ==> TipBest(shares, verified, cumWork, tip)
      ensures tip == old(tip) || (tip in hs && Candidate(shares, verified, tip))
    {
      var best: Option<Hash> := if Candidate(shares, verified, tip) then Some(tip) else None;
      for i := 0 to |hs|
        invariant best.Some? ==> Candidate(shares, verified, best.value) && (best.value == tip || best.value in hs)
        invariant Comparable(cumWork) && TipBeatsAllBut(hs) ==>
          forall c :: Candidate(shares, verified, c) && (c !in hs || c in hs[..i] || c == tip) ==>
            best.Some? && (c == best.value || Beats(cumWork[best.value], best.value, cumWork[c], c))
      {
        var h := hs[i];
        if Candidate(shares, verified, h) &&
           (best.None? || BetterTip(cumWork[h], h, cumWork[best.value], best.value)) {
          best := Some(shares[h].hash);
        }
      }
      if best.Some? {
        tip := best.value;
      }
    }

    /** Files h under its parent. */
    method Link(h: Hash, ghost dom: set<Hash>)
      requires h in shares && dom <= shares.Keys && h !in dom
      requires ChildrenExact(shares, dom, children)
      modifies this`children
      ensures ChildrenExact(shares, dom + {h}, children)
    {
      var p := PrevKey(shares[h]);
      if p.Some? {
        children := children[p.value := ChildrenOf(children, p.value) + [h]];
      }
    }

    /** Deletes h from every map and the child index; reports whether it was a tip candidate. */
    method Unlink(h: Hash) returns (candidate: bool)
      requires ChildrenExact(shares, shares.Keys, children)
      requires verified <= shares.Keys && received.Keys <= shares.Keys
      requires cumWork.Keys == shares.Keys && chainLen.Keys == shares.Keys
      modifies this`shares, this`verified, this`received, this`cumWork, this`chainLen, this`children, this`dirty
      ensures candidate == old(Candidate(shares, verified, h))
      ensures shares == old(shares) - {h} && verified == old(verified) - {h} && received == old(received) - {h}
      ensures cumWork == old(cumWork) - {h} && chainLen == old(chainLen) - {h}
      ensures dirty == old(dirty) + ({h} * old(shares).Keys)
      ensures ChildrenExact(shares, shares.Keys, children)
    {
      if h !in shares {
        MinusAbsent(shares, {h});
        MinusAbsent(received, {h});
        MinusAbsent(cumWork, {h});
        MinusAbsent(chainLen, {h});
        return false;
      }
      candidate := Candidate(shares, verified, h);
      children := DropChild(shares, children, h);
      shares, verified, received := shares - {h}, verified - {h}, received - {h};
      cumWork, chainLen, dirty := cumWork - {h}, chainLen - {h}, dirty + {h};
    }

    /**
     * Sets the work and length of the held shares in hs and all their descendants. `was` is the
     * store the kept entries are exact for, but for shares that build on r; it differs from the held
     * shares only at hs. Afterwards only shares that build on r' may be out of date.
     */
    method UpdateWork(hs: seq<Hash>, ghost was: ShareMap, ghost r: set<Hash>, ghost r': set<Hash>) returns (all: seq<Hash>)
      requires Acyclic(shares, rank) && ChildrenExact(shares, shares.Keys, children)
      requires Acyclic(was, rank) && ChangedOnlyAt(was, shares, Elems(hs))
      requires cumWork.Keys <= shares.Keys && chainLen.Keys <= shares.Keys
      requires forall x :: x in shares && x !in hs ==> x in cumWork && x in chainLen
      requires forall x {:trigger EntryExact(was, rank, cumWork, chainLen, x)} ::
        x in shares && x !in hs && !Below(was, rank, r, x) ==> EntryExact(was, rank, cumWork, chainLen, x)
      requires forall x :: x in shares && PrevKey(shares[x]).Some? && PrevKey(shares[x]).value in r - r' ==> x in hs
      modifies this`cumWork, this`chainLen
      ensures ExactOutside(shares, rank, r', cumWork, chainLen)
      ensures Graded(shares, unit, old(cumWork)) ==> Graded(shares, unit, cumWork)
      ensures NoDup(all) && Elems(all) <= shares.Keys
      ensures forall x :: x in hs && x in shares ==> x in all
      ensures DescendantClosed(shares, Elems(all)) && DescendsFrom(shares, hs, all)
      ensures forall x :: x in shares && x !in all ==> x in old(cumWork) && cumWork[x] == old(cumWork[x])
      ensures forall x :: x in shares && x !in all && Below(was, rank, r, x) ==> Below(shares, rank, r', x)
    {
      all := Affected(shares, children, hs);
      forall x | x in shares && x !in all && Below(was, rank, r, x) ensures Below(shares, rank, r', x) {
        BelowCarries(was, shares, rank, r, r', Elems(hs), Elems(all), x);
      }
      forall x | x in shares && x !in all && !Below(shares, rank, r', x) ensures EntryExact(shares, rank, cumWork, chainLen, x) {
        TotalsFrame(was, shares, rank, Elems(hs), Elems(all), x);
        assert EntryExact(was, rank, cumWork, chainLen, x);
      }
      ghost var visits;
      cumWork, chainLen, visits := Recount(shares, children, all, cumWork, chainLen, rank, r', unit);
    }

    method LinkAll(hs: seq<Hash>, ghost dom: set<Hash>)
      requires NoDup(hs) && Elems(hs) <= shares.Keys && dom <= shares.Keys && Elems(hs) !! dom
      requires ChildrenExact(shares, dom, children)
      modifies this`children
      ensures ChildrenExact(shares, dom + Elems(hs), children)
    {
      for i := 0 to |hs|
        invariant ChildrenExact(shares, dom + Elems(hs[..i]), children)
      {
        assert hs[..i + 1] == hs[..i] + [hs[i]] && hs[i] !in hs[..i] && hs[i] in Elems(hs);
        Link(hs[i], dom + Elems(hs[..i]));
        assert dom + Elems(hs[..i + 1]) == dom + Elems(hs[..i]) + {hs[i]};
      }
      assert hs[..|hs|] == hs;
    }

    /** Links newly stored shares and gives them and their descendants their work. */
    method IndexNew(hs: seq<Hash>, ghost was: ShareMap, ghost r: set<Hash>) returns (all: seq<Hash>)
      requires NoDup(hs) && Elems(hs) <= shares.Keys && was == shares - Elems(hs)
      requires Keyed(shares) && Acyclic(shares, rank)
      requires ChildrenExact(shares, was.Keys, children)
      requires ExactOutside(was, rank, r, cumWork, chainLen)
      modifies this`children, this`cumWork, this`chainLen
      ensures IndexValid(r)
      ensures Graded(shares, unit, old(cumWork)) ==> Graded(shares, unit, cumWork)
      ensures forall x :: x in shares && x !in all ==> x in old(cumWork) && cumWork[x] == old(cumWork[x])
    {
      LinkAll(hs, was.Keys);
      assert was.Keys + Elems(hs) == shares.Keys;
      assert ChangedOnlyAt(was, shares, Elems(hs));
      assert forall x :: x in was && !Below(was, rank, r, x) ==> EntryExact(was, rank, cumWork, chainLen, x);
      all := UpdateWork(hs, was, r, r);
    }

    /**
     * Indexes newly stored, unverified shares: they and their descendants get their work, so
     * children stored before their parent gain it, and the tip moves if one of them beats it.
     */
    method AddWork(hs: seq<Hash>, ghost was: ShareMap, ghost r: set<Hash>)
      requires NoDup(hs) && Elems(hs) <= shares.Keys && Elems(hs) !! verified
      requires was == shares - Elems(hs)
      requires Keyed(shares) && Acyclic(shares, rank)
      requires ChildrenExact(shares, was.Keys, children)
      requires ExactOutside(was, rank, r, cumWork, chainLen)
      modifies this`children, this`cumWork, this`chainLen, this`tip
      ensures IndexValid(r)
      ensures Graded(shares, unit, old(cumWork)) && old(TipFine(was, was, rank, r, verified, cumWork, tip)) ==>
        Graded(shares, unit, cumWork) && TipFine(shares, shares, rank, r, verified, cumWork, tip)
    {
      var all := IndexNew(hs, was, r);
      ghost var fine := Graded(shares, unit, cumWork) && TipFine(was, was, rank, r, verified, old(cumWork), tip);
      if fine {
        AddedKeepsTip(was, shares, rank, r, verified, old(cumWork), old(chainLen), cumWork, chainLen, tip, all);
        GradedComparable(shares, unit, cumWork);
      }
      ConsiderAdded(all, r, fine);
    }

    /** Moves the tip to any of hs that beats it, unless some candidate is to be recounted anyway. */
    method ConsiderAdded(hs: seq<Hash>, ghost r: set<Hash>, ghost fine: bool)
      requires Keyed(shares) && Acyclic(shares, rank) && cumWork.Keys == shares.Keys
      requires fine ==> Comparable(cumWork) && (LaggingCandidate(shares, shares, rank, r, verified) || TipBeatsAllBut(hs))
      modifies this`tip
      ensures fine ==> TipFine(shares, shares, rank, r, verified, cumWork, tip)
    {
      ConsiderTip(hs);
    }

    /** Recounts the descendants of removed shares. */
    method RecountBelow(removed: seq<Hash>, ghost was: ShareMap, ghost r: set<Hash>, ghost r': set<Hash>) returns (all: seq<Hash>)
      requires LagsOutside(was, shares, rank, r, children, cumWork, chainLen)
      requires was.Keys <= shares.Keys + Elems(removed) && r - r' <= Elems(removed)
      modifies this`cumWork, this`chainLen
      ensures IndexValid(r')
      ensures Graded(shares, unit, old(cumWork)) ==> Graded(shares, unit, cumWork)
      ensures forall x :: x in shares && x !in all ==> x in old(cumWork) && cumWork[x] == old(cumWork)[x]
      ensures forall x :: x in shares && x !in all && Below(was, rank, r, x) ==> Below(shares, rank, r', x)
    {
      var seeds := ChildrenOfAll(children, removed);
      forall h | h in shares && PrevKey(shares[h]).Some? && PrevKey(shares[h]).value in Elems(removed)
        ensures h in seeds
      {
        assert h in ChildrenOf(children, PrevKey(shares[h]).value);
      }
      assert ChangedOnlyAt(was, shares, Elems(seeds));
      all := UpdateWork(seeds, was, r, r');
    }

    /**
     * Recounts the descendants of unlinked shares and reselects the tip if a candidate lost
     * work or rescan is set.
     */
    method DropWork(removed: seq<Hash>, rescan: bool, ghost was: ShareMap, ghost r: set<Hash>, ghost r': set<Hash>)
      requires LagsOutside(was, shares, rank, r, children, cumWork, chainLen)
      requires was.Keys <= shares.Keys + Elems(removed) && r - r' <= Elems(removed)
      modifies this`cumWork, this`chainLen, this`tip
      ensures IndexValid(r')
      ensures Graded(shares, unit, old(cumWork)) && (rescan || old(TipFine(was, shares, rank, r, verified, cumWork, tip))) ==>
        Graded(shares, unit, cumWork) && TipFine(shares, shares, rank, r', verified, cumWork, tip)
    {
      var all := RecountBelow(removed, was, r, r');
      TipUnaffected(was, shares, rank, r, r', verified, old(cumWork), cumWork, tip, all);
      Rescan(all, rescan, r');
    }

    /** Reselects the tip if rescan is set or a candidate is among the shares recounted. */
    method Rescan(all: seq<Hash>, rescan: bool, ghost r: set<Hash>)
      requires Keyed(shares) && Acyclic(shares, rank) && cumWork.Keys == shares.Keys
      modifies this`tip
      ensures tip == old(tip) || rescan || exists c :: c in all && Candidate(shares, verified, c)
      ensures Graded(shares, unit, cumWork) && (rescan || exists c :: c in all && Candidate(shares, verified, c)) ==>
        TipFine(shares, shares, rank, r, verified, cumWork, tip)
    {
      var again := AnyCandidate(shares, verified, all, rescan);
      if again {
        assert Graded(shares, unit, cumWork) ==> Comparable(cumWork) by {
          if Graded(shares, unit, cumWork) { GradedComparable(shares, unit, cumWork); }
        }
        SelectTip();
      }
    }

    /** Deletes shares and drops their work from their descendants. */
    method RemoveShares(hs: seq<Hash>, ghost r: set<Hash>)
      requires IndexValid(r) && verified <= shares.Keys && received.Keys <= shares.Keys
      modifies this`shares, this`verified, this`received, this`cumWork, this`chainLen, this`children, this`tip, this`dirty
      ensures IndexValid(r)
      ensures shares == old(shares) - Elems(hs) && verified == old(verified) - Elems(hs)
      ensures received == old(received) - Elems(hs)
      ensures dirty == old(dirty) + (Elems(hs) * old(shares).Keys)
      ensures Graded(old(shares), unit, old(cumWork)) && old(TipFine(shares, shares, rank, r, verified, cumWork, tip)) ==>
        Graded(shares, unit, cumWork) && TipFine(shares, shares, rank, r, verified, cumWork, tip)
      ensures MarkedSince(old(Snapshot()))
    {
      var rescan := UnlinkAll(hs, r);
      assert Graded(old(shares), unit, old(cumWork)) ==> Graded(shares, unit, cumWork) by {
        if Graded(old(shares), unit, old(cumWork)) {
          GradedShrinks(old(shares), shares, unit, old(cumWork), Elems(hs));
        }
      }
      DropWork(hs, rescan, old(shares), r, r);
      RemovalIsMarked(old(shares), old(verified), old(dirty), Elems(hs));
    }

    /** Unlink while the descendants of unlinked shares still carry their work. */
    method UnlinkLagging(h: Hash, ghost was: ShareMap, ghost r: set<Hash>) returns (candidate: bool)
      requires LagsOutside(was, shares, rank, r, children, cumWork, chainLen)
      requires verified <= shares.Keys && received.Keys <= shares.Keys
      modifies this`shares, this`verified, this`received, this`cumWork, this`chainLen, this`children, this`dirty
      ensures LagsOutside(was, shares, rank, r, children, cumWork, chainLen)
      ensures shares == old(shares) - {h} && verified == old(verified) - {h} && received == old(received) - {h}
      ensures cumWork == old(cumWork) - {h} && chainLen == old(chainLen) - {h}
      ensures dirty == old(dirty) + ({h} * old(shares).Keys)
      ensures candidate == old(Candidate(shares, verified, h))
      ensures !candidate && old(TipFine(was, shares, rank, r, verified, cumWork, tip)) ==>
        TipFine(was, shares, rank, r, verified, cumWork, tip)
    {
      ghost var m, v, w, cs, len := shares, verified, cumWork, children, chainLen;
      candidate := Unlink(h);
      UnlinkLagsOutside(was, m, rank, r, cs, children, w, len, h);
      if !candidate && TipFine(was, m, rank, r, v, w, tip) {
        UnlinkKeepsFine(was, m, rank, r, v, w, tip, h);
      }
    }

    /** Unlinks every share of hs; reports whether one of them was a tip candidate. */
    method UnlinkAll(hs: seq<Hash>, ghost r: set<Hash>) returns (rescan: bool)
      requires IndexValid(r) && verified <= shares.Keys && received.Keys <= shares.Keys
      modifies this`shares, this`verified, this`received, this`cumWork, this`chainLen, this`children, this`dirty
      ensures LagsOutside(old(shares), shares, rank, r, children, cumWork, chainLen) && shares == old(shares) - Elems(hs)
      ensures verified == old(verified) - Elems(hs) && received == old(received) - Elems(hs)
      ensures cumWork == old(cumWork) - Elems(hs)
      ensures dirty == old(dirty) + (Elems(hs) * old(shares).Keys)
      ensures rescan || (old(TipFine(shares, shares, rank, r, verified, cumWork, tip)) ==>
        TipFine(old(shares), shares, rank, r, verified, cumWork, tip))
    {
      rescan := false;
      ghost var gone: set<Hash> := {};
      MinusAbsent(shares, {});
      MinusAbsent(received, {});
      MinusAbsent(cumWork, {});
      for i := 0 to |hs|
        invariant gone == Elems(hs[..i])
        invariant LagsOutside(old(shares), shares, rank, r, children, cumWork, chainLen) && shares == old(shares) - gone
        invariant verified == old(verified) - gone && received == old(received) - gone && cumWork == old(cumWork) - gone
        invariant dirty == old(dirty) + (gone * old(shares).Keys)
        invariant rescan || (old(TipFine(shares, shares, rank, r, verified, cumWork, tip)) ==>
          TipFine(old(shares), shares, rank, r, verified, cumWork, tip))
      {
        ElemsPrefix(hs, i);
        MinusMinus(old(shares), gone, {hs[i]});
        MinusMinus(old(received), gone, {hs[i]});
        MinusMinus(old(cumWork), gone, {hs[i]});
        OneMoreGone(old(verified), old(dirty), old(shares).Keys, gone, hs[i]);
        var candidate := UnlinkLagging(hs[i], old(shares), r);
        rescan, gone := rescan || candidate, gone + {hs[i]};
      }
      assert hs[..|hs|] == hs;
    }

    /** Moves a pending share to the verified ones. */
    method MarkVerified(h: Hash)
      requires Keyed(shares) && cumWork.Keys == shares.Keys
      modifies this`verified, this`received, this`dirty, this`tip
      ensures verified == old(verified) + {h} && received == old(received) - {h} && dirty == old(dirty) + {h}
      ensures Comparable(cumWork) && old(TipBest(shares, verified, cumWork, tip)) ==> TipBest(shares, verified, cumWork, tip)
    {
      ghost var best := TipBest(shares, verified, cumWork, tip);
      verified, received, dirty := verified + {h}, received - {h}, dirty + {h};
      assert best ==> TipBeatsAllBut([h]) by {
        if best {
          forall c | Candidate(shares, verified, c) && c !in [h]
            ensures Candidate(shares, verified, tip) && (c == tip || Beats(cumWork[tip], tip, cumWork[c], c))
          {
            assert Candidate(shares, old(verified), c);
          }
        }
      }
      ConsiderTip([h]);
    }

    /** Judges a pending share by the rules. */
    method Judge(h: Hash, ghost turns: seq<Turn>) returns (ok: bool)
      requires Acyclic(shares, rank) && cumWork.Keys == shares.Keys && chainLen.Keys == shares.Keys && h in shares
      requires TurnsSound(rank, scriptOf, turns)
      ensures TurnsSound(rank, scriptOf, turns + [Turn(h, if ok then Accepted else Rejected, Snapshot())])
    {
      var s := shares[h];
      var eff := EffectiveTime(shares, s);
      ok := true;
      if eff >= CONSENSUS_V2_ACTIVATION_TIME {
        ok := CheckConsensus(shares, tip, scriptOf, s, ParentLen(shares, chainLen, h), eff, rank);
      }
      TurnsSoundAppend(rank, scriptOf, turns, Turn(h, if ok then Accepted else Rejected, Snapshot()));
    }

    /** What a turn needs of the index. */
    ghost predicate TurnReady()
      reads this
    {
      && Keyed(shares) && Acyclic(shares, rank) && ChildrenExact(shares, shares.Keys, children)
      && cumWork.Keys == shares.Keys && chainLen.Keys == shares.Keys
      && verified <= shares.Keys && received.Keys <= shares.Keys
    }

    method AcceptPending(h: Hash)
      requires TurnReady() && h in shares && h !in verified && !Waiting(shares, verified, chainLen, h)
      modifies this`verified, this`received, this`dirty, this`tip
      ensures TurnReady()
      ensures Judged(old(Snapshot()), Snapshot(), h, Accepted)
    {
      MarkVerified(h);
    }

    method RejectPending(h: Hash)
      requires TurnReady() && h in shares && h !in verified && !Waiting(shares, verified, chainLen, h)
      modifies this`shares, this`verified, this`received, this`cumWork, this`chainLen, this`children, this`dirty
      ensures TurnReady()
      ensures Judged(old(Snapshot()), Snapshot(), h, Rejected)
    {
      ghost var before := Snapshot();
      var candidate := Unlink(h);
      RejectionIsTurn(before, Snapshot(), h);
      forall x | x in shares ensures ShareRanked(x, shares[x], rank) {
        assert ShareRanked(x, before.shares[x], rank);
      }
    }

    /** One turn of the verify pass. */
    method VerifyOne(h: Hash, ghost turns: seq<Turn>) returns (outcome: Outcome)
      requires TurnReady() && h in shares && h !in verified
      requires TurnsSound(rank, scriptOf, turns)
      modifies this`shares, this`verified, this`received, this`cumWork, this`chainLen, this`children, this`tip, this`dirty
      ensures TurnReady()
      ensures Judged(old(Snapshot()), Snapshot(), h, outcome)
      ensures TurnsSound(rank, scriptOf, turns + [Turn(h, outcome, old(Snapshot()))])
    {
      if Waiting(shares, verified, chainLen, h) {
        TurnsSoundAppend(rank, scriptOf, turns, Turn(h, Skipped, Snapshot()));
        return Skipped;
      }
      var ok := Judge(h, turns);
      if ok {
        AcceptPending(h);
        outcome := Accepted;
      } else {
        RejectPending(h);
        outcome := Rejected;
      }
    }

    /** A turn as a step of a run that started at s0, with the rejected shares and the number accepted so far. */
    method TakeTurn(h: Hash, before: seq<Hash>, counted: nat, ghost s0: State, ghost turns: seq<Turn>)
      returns (rejected: seq<Hash>, count: nat, ghost turns': seq<Turn>)
      requires LagsBehind(s0.shares, shares, rank, children, cumWork, chainLen)
      requires verified <= shares.Keys && received.Keys <= shares.Keys
      requires PassRun(s0, turns, Snapshot()) && TurnsSound(rank, scriptOf, turns)
      requires before == RejectedBy(turns) && counted == |AcceptedBy(turns)|
      requires h in s0.shares && h !in s0.verified && h !in Hashes(turns)
      modifies this`shares, this`verified, this`received, this`cumWork, this`chainLen, this`children, this`tip, this`dirty
      ensures LagsBehind(s0.shares, shares, rank, children, cumWork, chainLen)
      ensures verified <= shares.Keys && received.Keys <= shares.Keys
      ensures PassRun(s0, turns', Snapshot()) && TurnsSound(rank, scriptOf, turns')
      ensures Hashes(turns') == Hashes(turns) + [h]
      ensures rejected == RejectedBy(turns') && count == |AcceptedBy(turns')|
    {
      StillPending(s0, turns, Snapshot(), h);
      ghost var s := Snapshot();
      var outcome := VerifyOne(h, turns);
      JudgedLags(s0.shares, rank, s, Snapshot(), h, outcome);
      TurnAppended(s0, turns, Turn(h, outcome, s), Snapshot());
      turns' := turns + [Turn(h, outcome, s)];
      rejected := if outcome.Rejected? then before + [h] else before;
      count := if outcome.Accepted? then counted + 1 else counted;
    }

    /** The loop of a verify pass, with the descendants of rejected shares keeping their work. */
    method JudgePending(pend: seq<Hash>) returns (rejected: seq<Hash>, count: nat, ghost turns: seq<Turn>)
      requires LagsBehind(shares, shares, rank, children, cumWork, chainLen)
      requires verified <= shares.Keys && received.Keys <= shares.Keys
      requires NoDup(pend) && Elems(pend) == shares.Keys - verified
      modifies this`shares, this`verified, this`received, this`cumWork, this`chainLen, this`children, this`tip, this`dirty
      ensures LagsBehind(old(shares), shares, rank, children, cumWork, chainLen)
      ensures PassRun(old(Snapshot()), turns, Snapshot()) && Hashes(turns) == pend
      ensures TurnsSound(rank, scriptOf, turns)
      ensures rejected == RejectedBy(turns) && count == |AcceptedBy(turns)|
    {
      rejected, count, turns := [], 0, [];
      ghost var s0 := Snapshot();
      for i := 0 to |pend|
        invariant LagsBehind(s0.shares, shares, rank, children, cumWork, chainLen)
        invariant verified <= shares.Keys && received.Keys <= shares.Keys
        invariant PassRun(s0, turns, Snapshot()) && Hashes(turns) == pend[..i]
        invariant TurnsSound(rank, scriptOf, turns)
        invariant rejected == RejectedBy(turns) && count == |AcceptedBy(turns)|
      {
        NextOf(pend, i);
        rejected, count, turns := TakeTurn(pend[i], rejected, count, s0, turns);
      }
      assert pend[..|pend|] == pend;
    }

    /** The pending shares, shortest chain first. */
    method PendingInOrder() returns (pend: seq<Hash>)
      ensures NoDup(pend) && Elems(pend) == shares.Keys - verified && LengthOrder(chainLen, pend)
    {
      var len := chainLen;
      pend := SortSet(shares.Keys - verified, (a: nat, b: nat) => LenAt(len, a) <= LenAt(len, b));
    }

    /** The end of a pass: the descendants of rejected shares lose their work. */
    method SettleRejected(rejected: seq<Hash>, ghost was: ShareMap)
      requires LagsBehind(was, shares, rank, children, cumWork, chainLen) && shares == was - Elems(rejected)
      requires pass.None? && Bookkept(Snapshot())
      modifies this`cumWork, this`chainLen, this`tip
      ensures Quiet()
      ensures Graded(shares, unit, old(cumWork)) && old(TipBest(shares, verified, cumWork, tip)) ==>
        TipBest(shares, verified, cumWork, tip)
      ensures NonStaleWait(old(Snapshot())) ==> NonStaleWait(Snapshot())
      ensures Settles(old(Snapshot()))
      ensures rejected == [] ==> Snapshot() == old(Snapshot())
    {
      if |rejected| > 0 {
        LagsAnyway(was, shares, rank, {}, children, cumWork, chainLen);
        DropWork(rejected, false, was, {}, {});
        ExactIsValid();
        TipFineIsBest(shares, rank, verified, cumWork, tip);
        forall h | h in shares && old(Waiting(shares, verified, chainLen, h)) ensures Waiting(shares, verified, chainLen, h) {
          WaitingAfterRecount(was, shares, rank, children, verified, old(cumWork), old(chainLen), cumWork, chainLen, h);
        }
      } else {
        assert Elems(rejected) == {};
        MinusAbsent(was, {});
        LagsExact(shares, rank, children, cumWork, chainLen);
      }
    }

    /**
     * A whole verify pass with nothing in between. Every pending share has one turn, shortest chain
     * first; those that are not waiting are accepted or rejected by the rules in the state the turns
     * before have led to, and `mid` is the state after the last turn. Afterwards the index is exact
     * again, the tip is what a full scan would choose, and every non-stale share still pending has to
     * wait; if all of them had to wait before, nothing changed.
     */
    method VerifyPending() returns (count: nat, rejected: seq<Hash>, ghost turns: seq<Turn>, ghost mid: State)
      requires Quiet()
      modifies this`shares, this`verified, this`received, this`cumWork, this`chainLen, this`children, this`tip, this`dirty
      ensures Quiet()
      ensures (turns, mid) in PossiblePasses(rank, scriptOf, old(Snapshot()))
      ensures rejected == RejectedBy(turns) && count == |AcceptedBy(turns)|
      ensures shares == old(shares) - Elems(rejected) && verified == old(verified) + Elems(AcceptedBy(turns)) && Settles(mid)
      ensures OnGrid(old(shares), unit) && old(TipBest(shares, verified, cumWork, tip)) ==>
        TipBest(shares, verified, cumWork, tip)
      ensures MarkedSince(old(Snapshot()))
      ensures NonStaleWait(Snapshot())
      ensures AllWait(old(Snapshot())) ==> count == 0 && rejected == [] && Snapshot() == old(Snapshot())
    {
      rejected, count, turns := RunPass();
      mid := Snapshot();
      SettleRejected(rejected, old(shares));
    }

    /** The state after the turns of a pass, but for the work, lengths and tip that its end settles. */
    ghost predicate Settles(mid: State)
      reads this
    {
      && shares == mid.shares && verified == mid.verified && received == mid.received
      && children == mid.children && dirty == mid.dirty
    }

    /** The turns of a pass, before the work of rejected shares is dropped. */
    method RunPass() returns (rejected: seq<Hash>, count: nat, ghost turns: seq<Turn>)
      requires Quiet()
      modifies this`shares, this`verified, this`received, this`cumWork, this`chainLen, this`children, this`tip, this`dirty
      ensures LagsBehind(old(shares), shares, rank, children, cumWork, chainLen) && Bookkept(Snapshot())
      ensures (turns, Snapshot()) in PossiblePasses(rank, scriptOf, old(Snapshot()))
      ensures rejected == RejectedBy(turns) && count == |AcceptedBy(turns)|
      ensures shares == old(shares) - Elems(rejected) && verified == old(verified) + Elems(AcceptedBy(turns))
      ensures MarkedSince(old(Snapshot()))
      ensures OnGrid(old(shares), unit) ==> Graded(shares, unit, cumWork)
      ensures OnGrid(old(shares), unit) && old(TipBest(shares, verified, cumWork, tip)) ==>
        TipBest(shares, verified, cumWork, tip)
      ensures NonStaleWait(Snapshot())
      ensures AllWait(old(Snapshot())) ==> AcceptedBy(turns) == [] && rejected == [] && Snapshot() == old(Snapshot())
    {
      ghost var s0 := Snapshot();
      var pend := PendingInOrder();
      LagsExact(shares, rank, children, cumWork, chainLen);
      rejected, count, turns := JudgePending(pend);
      RunSummary(s0, rank, turns, Snapshot());
      PassIsPossible(rank, scriptOf, s0, turns, Snapshot());
      PassIsMarked(s0.shares, s0.verified, s0.dirty, Elems(AcceptedBy(turns)), Elems(rejected));
      if OnGrid(s0.shares, unit) {
        ExactIsGraded(s0.shares, rank, unit, s0.work, s0.len);
        GradedShrinks(s0.shares, shares, unit, s0.work, Elems(rejected));
      }
    }

    /** All changes to the held and verified shares since s0 are marked as changed. */
    ghost predicate MarkedSince(s0: State)
      reads this
    {
      Marked(View(s0.shares, s0.verified), s0.dirty, View(shares, verified), dirty)
    }

    /** AddSharesOutcomes with nothing in between: stores what passes the screen, indexes it, and runs a verify pass. */
    method AddShares(batch: seq<Share>, now: int) returns (outcomes: seq<ShareOutcome>, count: nat, ghost stored: State, ghost turns: seq<Turn>, ghost mid: State)
      requires Quiet() && forall s :: s in batch ==> ShareRanked(s.hash, s, rank)
      modifies this`shares, this`verified, this`received, this`cumWork, this`chainLen, this`children, this`tip, this`dirty
      ensures Quiet() && NonStaleWait(Snapshot())
      ensures stored.shares == StoredAfter(old(shares), batch, now) && stored.verified == old(verified)
      ensures Acyclic(stored.shares, rank) && TotalsExact(stored.shares, rank, stored.work, stored.len)
      ensures (turns, mid) in PossiblePasses(rank, scriptOf, stored)
      ensures shares == StoredAfter(old(shares), batch, now) - Elems(RejectedBy(turns))
      ensures verified == old(verified) + Elems(AcceptedBy(turns)) && count == |AcceptedBy(turns)|
      ensures OnGrid(StoredAfter(old(shares), batch, now), unit) && old(TipBest(shares, verified, cumWork, tip)) ==>
        TipBest(shares, verified, cumWork, tip)
      ensures MarkedSince(old(Snapshot()))
      ensures |outcomes| == |batch|
      ensures forall i :: 0 <= i < |batch| ==>
        outcomes[i] == Settled(Screen(StoredAfter(old(shares), batch[..i], now), batch[i], now), shares, verified, batch[i].hash)
    {
      TipFineIsBest(shares, rank, verified, cumWork, tip);
      if OnGrid(StoredAfter(shares, batch, now), unit) {
        QuietIsGraded(StoredAfter(shares, batch, now), batch, now);
      }
      var screened := StoreAndIndex(batch, now);
      TipFineIsBest(shares, rank, verified, cumWork, tip);
      stored := Snapshot();
      var rejected;
      count, rejected, turns, mid := VerifyPending();
      StoredFacts(old(shares), batch, now);
      AdditionIsMarked(old(shares), stored.shares, old(verified), old(dirty));
      MarkedTrans(View(old(shares), old(verified)), old(dirty), View(stored.shares, old(verified)), old(dirty),
                  View(shares, verified), dirty);
      forall i | 0 <= i < |batch| && screened[i] == SharePending
        ensures batch[i].hash in Elems(rejected) <==> batch[i].hash !in shares
      {
        ScreenedIsStored(old(shares), batch, now, i);
      }
      outcomes := SettleOutcomes(batch, screened, verified, Elems(rejected), shares);
    }

    /** If what is to be held is on the grid, so are the works of a chain at rest. */
    lemma QuietIsGraded(m: ShareMap, batch: seq<Share>, now: int)
      requires Quiet() && m == StoredAfter(shares, batch, now) && OnGrid(m, unit)
      ensures Graded(m, unit, cumWork)
    {
      StoredFacts(shares, batch, now);
      assert OnGrid(shares, unit);
      ExactIsGraded(shares, rank, unit, cumWork, chainLen);
    }

    /** The locked first half of AddSharesOutcomes; a pass may be under way. */
    method StoreAndIndex(batch: seq<Share>, now: int) returns (screened: seq<ShareOutcome>)
      requires Valid() && forall s :: s in batch ==> ShareRanked(s.hash, s, rank)
      modifies this`shares, this`received, this`children, this`cumWork, this`chainLen, this`tip
      ensures Valid() && shares == StoredAfter(old(shares), batch, now)
      ensures forall h :: h in received ==> received[h] == if h in old(received) then old(received)[h] else now
      ensures Graded(shares, unit, old(cumWork)) && old(TipFine(shares, shares, rank, RejectedSoFar(), verified, cumWork, tip)) ==>
        Graded(shares, unit, cumWork) && TipFine(shares, shares, rank, RejectedSoFar(), verified, cumWork, tip)
      ensures |screened| == |batch|
      ensures forall i :: 0 <= i < |batch| ==> screened[i] == Screen(StoredAfter(old(shares), batch[..i], now), batch[i], now)
    {
      ExactIsValid();
      screened := StoreOn(batch, now, RejectedSoFar());
      ExactIsValid();
    }

    /** Stores and indexes a batch on an index that is exact but for shares that build on r. */
    method StoreOn(batch: seq<Share>, now: int, ghost r: set<Hash>) returns (screened: seq<ShareOutcome>)
      requires IndexValid(r) && Bookkept(Snapshot()) && forall s :: s in batch ==> ShareRanked(s.hash, s, rank)
      modifies this`shares, this`received, this`children, this`cumWork, this`chainLen, this`tip
      ensures IndexValid(r) && Bookkept(Snapshot()) && shares == StoredAfter(old(shares), batch, now) && Extends(old(shares), shares)
      ensures forall h :: h in received ==> received[h] == if h in old(received) then old(received)[h] else now
      ensures Graded(shares, unit, old(cumWork)) && old(TipFine(shares, shares, rank, r, verified, cumWork, tip)) ==>
        Graded(shares, unit, cumWork) && TipFine(shares, shares, rank, r, verified, cumWork, tip)
      ensures |screened| == |batch|
      ensures forall i :: 0 <= i < |batch| ==> screened[i] == Screen(StoredAfter(old(shares), batch[..i], now), batch[i], now)
    {
      var hs;
      hs, screened := Store(batch, now);
      AddWork(hs, old(shares), r);
    }

    /** Stores what passes the screen, leaving the index to AddWork. */
    method Store(batch: seq<Share>, now: int) returns (hs: seq<Hash>, screened: seq<ShareOutcome>)
      requires Keyed(shares) && Acyclic(shares, rank) && ChildrenExact(shares, shares.Keys, children) && Bookkept(Snapshot())
      requires forall s :: s in batch ==> ShareRanked(s.hash, s, rank)
      modifies this`shares, this`received
      ensures shares == StoredAfter(old(shares), batch, now) && Keyed(shares) && Acyclic(shares, rank) && Extends(old(shares), shares)
      ensures NoDup(hs) && Elems(hs) <= shares.Keys && Elems(hs) !! verified && old(shares) == shares - Elems(hs)
      ensures Bookkept(Snapshot()) && ChildrenExact(shares, old(shares).Keys, children)
      ensures forall h :: h in received ==> received[h] == if h in old(received) then old(received)[h] else now
      ensures |screened| == |batch|
      ensures forall i :: 0 <= i < |batch| ==> screened[i] == Screen(StoredAfter(old(shares), batch[..i], now), batch[i], now)
    {
      shares, hs, screened := StoreBatch(shares, batch, now);
      StoredMinusNew(old(shares), batch, now, hs);
      StoredRanked(old(shares), batch, now, rank);
      StoredFacts(old(shares), batch, now);
      ChildrenWithin(old(shares), shares, children);
      StoredBooks(old(Snapshot()), shares, Elems(hs), now);
      received := ReceivedWith(received, Elems(hs), now);
    }

    /** The pass under way has none of the given shares left to judge. */
    ghost predicate Spares(gone: set<Hash>)
      reads this
    {
      pass.Some? ==> forall h :: h in pass.value.todo ==> h !in gone
    }

    /** The tip is kept fine, if works are on the grid. */
    ghost predicate TipValid()
      requires Valid()
      reads this
    {
      Graded(shares, unit, cumWork) && TipFine(shares, shares, rank, RejectedSoFar(), verified, cumWork, tip)
    }

    /** With no pass under way that is: the tip is the one a full scan would choose. */
    lemma QuietTip()
      requires Quiet()
      ensures TipValid() <==> OnGrid(shares, unit) && TipBest(shares, verified, cumWork, tip)
      ensures TotalsExact(shares, rank, cumWork, chainLen)
    {
      TipFineIsBest(shares, rank, verified, cumWork, tip);
      if OnGrid(shares, unit) {
        ExactIsGraded(shares, rank, unit, cumWork, chainLen);
      }
    }

    /** Along every path down: length counts its non-stale shares, and work adds up their difficulties. */
    ghost predicate TotalsCounted()
      requires cumWork.Keys == shares.Keys && chainLen.Keys == shares.Keys
      reads this
    {
      forall h, path {:trigger IsPath(shares, h, path)} :: h in shares && IsPath(shares, h, path) ==>
        chainLen[h] == |NonStale(shares, path)| && cumWork[h] == WorkOf(NonStale(shares, path))
    }

    lemma QuietTotals()
      requires Quiet()
      ensures TotalsCounted()
    {
      forall h, path | h in shares && IsPath(shares, h, path)
        ensures chainLen[h] == |NonStale(shares, path)| && cumWork[h] == WorkOf(NonStale(shares, path))
      {
        EntryMeaning(shares, rank, cumWork, chainLen, h, path);
      }
    }

    /** pruneLocked: drops every share older than the cutoff; a pass may be under way if it has none of them left to judge. */
    method PruneOld(cutoff: int) returns (pruned: nat)
      requires Valid() && Spares(OlderThan(shares, cutoff))
      modifies this`shares, this`verified, this`received, this`cumWork, this`chainLen, this`children, this`tip, this`dirty
      ensures Valid()
      ensures shares == old(shares) - OlderThan(old(shares), cutoff)
      ensures verified == old(verified) - OlderThan(old(shares), cutoff) && pruned == |OlderThan(old(shares), cutoff)|
      ensures old(TipValid()) ==> TipValid()
      ensures MarkedSince(old(Snapshot()))
    {
      var gone := OlderThan(shares, cutoff);
      RemoveSet(gone);
      pruned := |gone|;
    }

    /** Removes a set of shares, listed in any order, unless it is empty. */
    method RemoveSet(gone: set<Hash>)
      requires Valid() && Spares(gone)
      modifies this`shares, this`verified, this`received, this`cumWork, this`chainLen, this`children, this`tip, this`dirty
      ensures Valid()
      ensures shares == old(shares) - gone && verified == old(verified) - gone && received == old(received) - gone
      ensures old(TipValid()) ==> TipValid()
      ensures MarkedSince(old(Snapshot()))
    {
      var hs := ListOf(gone);
      if |hs| > 0 {
        ExactIsValid();
        RemoveShares(hs, RejectedSoFar());
        ExactIsValid();
        BooksAfterRemoval(old(Snapshot()), Snapshot(), gone);
      } else {
        assert gone == {};
        MinusAbsent(shares, {});
        MinusAbsent(received, {});
      }
    }

    /** pruneUnverified: drops the expired unverified shares, then the oldest received beyond the cap; it excludes passes. */
    method PruneUnverified(now: int)
      requires Valid() && pass.None?
      modifies this`shares, this`verified, this`received, this`cumWork, this`chainLen, this`children, this`tip, this`dirty
      ensures Valid() && |received| <= MAX_UNVERIFIED_SHARES
      ensures Snapshot() in UnverifiedPrunes(rank, old(Snapshot()), now)
      ensures old(TipValid()) ==> TipValid()
      ensures MarkedSince(old(Snapshot()))
    {
      var chosen := ChooseExpired(shares, verified, received, now, rank);
      ReceivedAreUnverified(Snapshot(), chosen);
      RemoveSet(chosen);
      UnverifiedPruned(rank, old(Snapshot()), Snapshot(), now, chosen);
    }

    /** recomputeWorkAndTipLocked: rebuilds the index and the tip from scratch. */
    method Recompute()
      requires Keyed(shares) && Acyclic(shares, rank)
      modifies this`children, this`cumWork, this`chainLen, this`tip
      ensures IndexExact()
      ensures OnGrid(shares, unit) ==> Graded(shares, unit, cumWork) && TipBest(shares, verified, cumWork, tip)
    {
      Rebuild();
      if OnGrid(shares, unit) {
        ExactIsGraded(shares, rank, unit, cumWork, chainLen);
      }
      SelectTip();
    }

    /** The index rebuilt from scratch. */
    method Rebuild()
      requires Keyed(shares) && Acyclic(shares, rank)
      modifies this`children, this`cumWork, this`chainLen
      ensures IndexExact()
    {
      children, cumWork, chainLen := map[], map[], map[];
      var hs := ListOf(shares.Keys);
      LinkAll(hs, {});
      assert {} + Elems(hs) == shares.Keys;
      assert forall x :: x in shares ==> x in Elems(hs);
      assert ChangedOnlyAt(shares, shares, Elems(hs));
      var all := UpdateWork(hs, shares, {}, {});
      OutsideNothing(shares, rank, cumWork, chainLen);
    }

    /** NewShareChain */
    constructor (ghost rank: Rank, ghost unit: real, scriptOf: ScriptOf)
      ensures this.rank == rank && this.unit == unit && this.scriptOf == scriptOf
      ensures Quiet() && shares == map[] && disk == map[] && dirty == {} && flight == None && tip == GENESIS
      ensures StoreValid() && (unit > TOLERANCE ==> TipValid())
    {
      this.rank, this.unit, this.scriptOf := rank, unit, scriptOf;
      shares, verified, received, cumWork, chainLen, children := map[], {}, map[], map[], map[], map[];
      tip, dirty, disk, flight, pass := GENESIS, {}, map[], None, None;
    }

    /** Load on a fresh chain: everything in the database becomes held and verified. */
    constructor Load(ghost rank: Rank, ghost unit: real, scriptOf: ScriptOf, stored: ShareMap)
      requires Keyed(stored) && Acyclic(stored, rank)
      ensures this.rank == rank && this.unit == unit && this.scriptOf == scriptOf
      ensures Quiet() && shares == stored && verified == stored.Keys
      ensures OnGrid(shares, unit) ==> TipValid() && TipBest(shares, verified, cumWork, tip)
      ensures disk == stored && dirty == {} && flight == None && StoreValid() && View(shares, verified) == disk
    {
      this.rank, this.unit, this.scriptOf := rank, unit, scriptOf;
      shares, verified, received := stored, stored.Keys, map[];
      cumWork, chainLen, children := map[], map[], map[];
      tip, dirty, disk, flight, pass := GENESIS, {}, stored, None, None;
      new;
      Recompute();
      assert View(shares, verified) == disk;
    }

    /** Every difference between database and verified shares is marked or in flight. */
    ghost predicate StoreValid()
      reads this
    {
      Coherent(View(shares, verified), dirty, disk, flight)
    }

    /** The locked first half of Commit; false if there is nothing to write. */
    method CommitBegin() returns (started: bool)
      requires flight.None? && StoreValid()
      modifies this`dirty, this`flight
      ensures StoreValid() && dirty == {}
      ensures started <==> old(dirty) != {}
      ensures flight == if started then Some(BatchFor(View(shares, verified), old(dirty))) else None
    {
      if dirty == {} {
        return false;
      }
      BeginKeepsCoherent(View(shares, verified), dirty, disk);
      var b := BuildBatch(shares, verified, dirty);
      dirty, flight := {}, Some(b);
      started := true;
    }

    /** The write of Commit, outside the lock, and what follows it; the transaction is all or nothing. */
    method CommitEnd(written: bool)
      requires flight.Some? && StoreValid()
      modifies this`dirty, this`disk, this`flight
      ensures StoreValid() && flight.None?
      ensures written ==> disk == Written(old(disk), old(flight).value) && dirty == old(dirty)
      ensures !written ==> disk == old(disk) && dirty == old(dirty) + old(flight).value.hashes
    {
      if written {
        SuccessKeepsCoherent(View(shares, verified), dirty, disk, flight.value);
        disk := Written(disk, flight.value);
      } else {
        FailureKeepsCoherent(View(shares, verified), dirty, disk, flight.value);
        dirty := dirty + flight.value.hashes;
      }
      flight := None;
    }

    // ---- runs ----

    /** StoreAndIndex, keeping the tip for batches on the grid. */
    method StoreGraded(batch: seq<Share>, now: int)
      requires Valid() && forall s :: s in batch ==> ShareRanked(s.hash, s, rank)
      modifies this`shares, this`received, this`children, this`cumWork, this`chainLen, this`tip
      ensures Valid() && shares == StoredAfter(old(shares), batch, now)
      ensures forall h :: h in received ==> received[h] == if h in old(received) then old(received)[h] else now
      ensures old(TipValid()) && (forall s :: s in batch ==> ShareOnGrid(s, unit)) ==> TipValid()
    {
      if OnGrid(shares, unit) && forall s :: s in batch ==> ShareOnGrid(s, unit) {
        StoredOnGrid(shares, batch, now, unit);
      }
      var screened := StoreAndIndex(batch, now);
    }

    /** The locked first half of AddSharesOutcomes as a step of a run. */
    method StepStore(batch: seq<Share>, now: int)
      requires Valid() && forall s :: s in batch ==> ShareRanked(s.hash, s, rank)
      modifies this`shares, this`received, this`children, this`cumWork, this`chainLen, this`tip
      ensures Valid() && MarkedSince(old(Snapshot()))
      ensures (All(), None) in Effects(rank, scriptOf, StoreOp(batch, now), old(All()))
      ensures old(TipValid()) && (forall s :: s in batch ==> ShareOnGrid(s, unit)) ==> TipValid()
    {
      StoreGraded(batch, now);
      StoredFacts(old(shares), batch, now);
      StoredBrings(old(shares), batch, now);
      AdditionIsMarked(old(shares), shares, verified, dirty);
      HasEffect(rank, scriptOf, StoreOp(batch, now), old(All()), All(), None);
    }

    /** The start of a verify pass: the pending shares, shortest chain first. */
    method PassBegin()
      requires Quiet()
      modifies this`pass
      ensures Valid() && pass.Some? && pass.value.rejected == []
      ensures Elems(pass.value.todo) == shares.Keys - verified && LengthOrder(chainLen, pass.value.todo)
      ensures old(TipValid()) ==> TipValid()
    {
      var pend := PendingInOrder();
      assert forall h :: h in pend ==> h in Elems(pend);
      ExactIsValid();
      pass := Some(Pass(pend, []));
      assert Elems(pass.value.rejected) == {};
    }

    /** A turn on an index that is exact but for shares that build on r. */
    method TurnOn(h: Hash, ghost r: set<Hash>) returns (outcome: Outcome)
      requires IndexValid(r) && Bookkept(Snapshot()) && h in shares && h !in verified
      modifies this`shares, this`verified, this`received, this`cumWork, this`chainLen, this`children, this`tip, this`dirty
      ensures (Turn(h, outcome, old(Snapshot())), Snapshot()) in PossibleTurns(rank, scriptOf, old(Snapshot()))
      ensures IndexValid(RejectedWith(r, h, outcome)) && Bookkept(Snapshot())
      ensures forall x :: x in old(shares) && x !in old(verified) && x != h ==> x in shares && x !in verified
      ensures Graded(old(shares), unit, old(cumWork)) && old(TipFine(shares, shares, rank, r, verified, cumWork, tip)) ==>
        Graded(shares, unit, cumWork) && TipFine(shares, shares, rank, RejectedWith(r, h, outcome), verified, cumWork, tip)
    {
      ghost var s := Snapshot();
      outcome := VerifyOne(h, []);
      assert TurnSound(rank, scriptOf, ([] + [Turn(h, outcome, s)])[0]);
      TurnIsPossible(rank, scriptOf, Turn(h, outcome, s), Snapshot());
      JudgedOutside(rank, r, s, Snapshot(), h, outcome);
      JudgedBooks(s, Snapshot(), h, outcome);
      if Graded(s.shares, unit, s.work) && TipFine(s.shares, s.shares, rank, r, s.verified, s.work, s.tip) {
        JudgedTip(rank, unit, r, s, Snapshot(), h, outcome);
      }
    }

    /** The next turn of the pass under way, whatever has happened since the last one. */
    method PassTurn() returns (outcome: Outcome)
      requires Valid() && pass.Some? && pass.value.todo != []
      modifies this`shares, this`verified, this`received, this`cumWork, this`chainLen, this`children, this`tip, this`dirty
      modifies this`pass
      ensures Valid()
      ensures var h, p := old(pass).value.todo[0], old(pass).value;
        && (Turn(h, outcome, old(Snapshot())), Snapshot()) in PossibleTurns(rank, scriptOf, old(Snapshot()))
        && pass == Some(Pass(p.todo[1..], if outcome.Rejected? then p.rejected + [h] else p.rejected))
      ensures old(TipValid()) ==> TipValid()
    {
      var p := pass.value;
      var h := p.todo[0];
      RejectedGrows(p.rejected, h);
      RestToJudge(p.todo);
      outcome := TurnOn(h, Elems(p.rejected));
      var p' := Pass(p.todo[1..], if outcome.Rejected? then p.rejected + [h] else p.rejected);
      assert Elems(p'.rejected) == RejectedWith(Elems(p.rejected), h, outcome);
      assert PassFits(p');
      pass := Some(p');
    }

    /** The end of the pass under way: the descendants of rejected shares lose their work. */
    method PassEnd()
      requires Valid() && pass.Some? && pass.value.todo == []
      modifies this`cumWork, this`chainLen, this`tip, this`pass
      ensures Quiet()
      ensures old(TipValid()) ==> TipValid()
    {
      var rejected := pass.value.rejected;
      if |rejected| > 0 {
        assert LagsOutside(shares, shares, rank, Elems(rejected), children, cumWork, chainLen);
        DropWork(rejected, false, shares, Elems(rejected), {});
      } else {
        assert Elems(rejected) == {};
      }
      ExactIsValid();
      pass := None;
    }

    /** A whole rebuild as a step of a run. */
    method StepRecompute()
      requires Valid()
      modifies this`children, this`cumWork, this`chainLen, this`tip
      ensures Valid() && TotalsExact(shares, rank, cumWork, chainLen)
      ensures old(TipValid()) ==> TipValid()
    {
      Recompute();
    }

    /** The next turn as a step of a run. */
    method StepTurn() returns (ghost turn: Turn)
      requires Valid() && pass.Some? && pass.value.todo != []
      modifies this`shares, this`verified, this`received, this`cumWork, this`chainLen, this`children, this`tip, this`dirty
      modifies this`pass
      ensures Valid() && MarkedSince(old(Snapshot()))
      ensures (All(), Some(turn)) in Effects(rank, scriptOf, PassTurnOp, old(All()))
      ensures old(TipValid()) ==> TipValid()
    {
      ghost var s, h := Snapshot(), pass.value.todo[0];
      var outcome := PassTurn();
      turn := Turn(h, outcome, s);
      JudgedMarked(s, Snapshot(), h, outcome);
      HasEffect(rank, scriptOf, PassTurnOp, old(All()), All(), Some(turn));
    }

    /** The pass under way, if any, takes its next step. */
    method ChangePass(op: Op) returns (ghost turn: Option<Turn>)
      requires Valid() && (op.PassBeginOp? || op.PassTurnOp? || op.PassEndOp?)
      modifies this`shares, this`verified, this`received, this`cumWork, this`chainLen, this`children, this`tip, this`dirty
      modifies this`pass
      ensures Valid() && MarkedSince(old(Snapshot()))
      ensures (All(), turn) in Effects(rank, scriptOf, op, old(All()))
      ensures old(TipValid()) ==> TipValid()
    {
      turn := None;
      if op.PassTurnOp? && pass.Some? && pass.value.todo != [] {
        ghost var t := StepTurn();
        turn := Some(t);
      } else {
        if op.PassBeginOp? && pass.None? {
          PassBegin();
        } else if op.PassEndOp? && pass.Some? && pass.value.todo == [] {
          PassEnd();
        }
        HasEffect(rank, scriptOf, op, old(All()), All(), None);
      }
    }

    /** A prune by age as a step of a run; one that would remove what a pass has left to judge is not taken. */
    method StepPruneOld(cutoff: int)
      requires Valid()
      modifies this`shares, this`verified, this`received, this`cumWork, this`chainLen, this`children, this`tip, this`dirty
      ensures Valid() && MarkedSince(old(Snapshot()))
      ensures (All(), None) in Effects(rank, scriptOf, PruneOldOp(cutoff), old(All()))
      ensures old(TipValid()) ==> TipValid()
    {
      if pass.None? || Elems(pass.value.todo) !! OlderThan(shares, cutoff) {
        assert PruneFits(All(), cutoff) by {
          if pass.Some? { assert forall h :: h in pass.value.todo ==> h in Elems(pass.value.todo); }
        }
        var pruned := PruneOld(cutoff);
      } else {
        assert !PruneFits(All(), cutoff);
      }
      HasEffect(rank, scriptOf, PruneOldOp(cutoff), old(All()), All(), None);
    }

    /** A prune of unverified shares as a step of a run; it waits for a pass under way. */
    method StepPruneUnverified(now: int)
      requires Valid()
      modifies this`shares, this`verified, this`received, this`cumWork, this`chainLen, this`children, this`tip, this`dirty
      ensures Valid() && MarkedSince(old(Snapshot()))
      ensures (All(), None) in Effects(rank, scriptOf, PruneUnverifiedOp(now), old(All()))
      ensures old(TipValid()) ==> TipValid()
    {
      if pass.None? {
        PruneUnverified(now);
      }
      HasEffect(rank, scriptOf, PruneUnverifiedOp(now), old(All()), All(), None);
    }

    /** An operation on the shares. */
    method Change(op: Op) returns (ghost turn: Option<Turn>)
      requires Valid() && OpRanked(op, rank) && !op.CommitBeginOp? && !op.CommitEndOp?
      modifies this`shares, this`verified, this`received, this`cumWork, this`chainLen, this`children, this`tip, this`dirty
      modifies this`pass
      ensures Valid() && MarkedSince(old(Snapshot()))
      ensures (All(), turn) in Effects(rank, scriptOf, op, old(All()))
      ensures old(TipValid()) && OpOnGrid(op, unit) ==> TipValid()
    {
      turn := None;
      if op.StoreOp? {
        StepStore(op.batch, op.now);
      } else if op.PruneOldOp? {
        StepPruneOld(op.cutoff);
      } else if op.PruneUnverifiedOp? {
        StepPruneUnverified(op.now);
      } else if op.RecomputeOp? {
        StepRecompute();
        HasEffect(rank, scriptOf, op, old(All()), All(), None);
      } else {
        turn := ChangePass(op);
      }
    }

    /** A step of a commit; one that is not possible is not taken. */
    method CommitStep(op: Op)
      requires Valid() && StoreValid() && (op.CommitBeginOp? || op.CommitEndOp?)
      modifies this`dirty, this`disk, this`flight
      ensures Valid() && StoreValid()
      ensures (All(), None) in Effects(rank, scriptOf, op, old(All()))
      ensures old(TipValid()) ==> TipValid()
    {
      if op.CommitBeginOp? && flight.None? {
        var started := CommitBegin();
      } else if op.CommitEndOp? && flight.Some? {
        CommitEnd(op.written);
      }
      HasEffect(rank, scriptOf, op, old(All()), All(), None);
    }

    /** One operation. */
    method Perform(op: Op) returns (ghost turn: Option<Turn>)
      requires Valid() && StoreValid() && OpRanked(op, rank)
      modifies this
      ensures Valid() && StoreValid()
      ensures (All(), turn) in Effects(rank, scriptOf, op, old(All()))
      ensures old(TipValid()) && OpOnGrid(op, unit) ==> TipValid()
    {
      turn := None;
      if op.CommitBeginOp? || op.CommitEndOp? {
        CommitStep(op);
      } else {
        ghost var s0 := Snapshot();
        turn := Change(op);
        MarkedKeepsCoherent(View(s0.shares, s0.verified), s0.dirty, View(shares, verified), dirty, disk, flight);
      }
    }

    /**
     * Any run of operations, with passes and commits under way at any time and batches stored between
     * their steps. Throughout, the index is exact but for shares that build on those a pass under way
     * has rejected, the database is coherent with the verified shares, and on the grid the tip is the
     * best or is about to be rescanned. When no pass is under way the index is exact and the tip is what
     * a full scan would choose. The trace says that every operation brought about what it should.
     */
    method Run(ops: seq<Op>) returns (ghost trace: seq<Step>)
      requires Valid() && StoreValid() && forall i :: 0 <= i < |ops| ==> OpRanked(ops[i], rank)
      modifies this
      ensures Valid() && StoreValid()
      ensures pass.None? ==> TotalsExact(shares, rank, cumWork, chainLen) && TotalsCounted()
      ensures old(TipValid()) && (forall i :: 0 <= i < |ops| ==> OpOnGrid(ops[i], unit)) ==>
        TipValid() && (pass.None? ==> TipBest(shares, verified, cumWork, tip))
      ensures |trace| == |ops| && (forall i :: 0 <= i < |ops| ==> trace[i].op == ops[i])
      ensures Trace(rank, scriptOf, old(All()), trace, All())
    {
      trace := RunSteps(ops);
      if pass.None? {
        QuietTip();
        QuietTotals();
      }
    }

    /** The loop over the operations. */
    method RunSteps(ops: seq<Op>) returns (ghost trace: seq<Step>)
      requires Valid() && StoreValid() && forall i :: 0 <= i < |ops| ==> OpRanked(ops[i], rank)
      modifies this
      ensures Valid() && StoreValid()
      ensures old(TipValid()) && (forall i :: 0 <= i < |ops| ==> OpOnGrid(ops[i], unit)) ==> TipValid()
      ensures |trace| == |ops| && (forall i :: 0 <= i < |ops| ==> trace[i].op == ops[i])
      ensures Trace(rank, scriptOf, old(All()), trace, All())
    {
      trace := [];
      for i := 0 to |ops|
        invariant Valid() && StoreValid()
        invariant old(TipValid()) && (forall k :: 0 <= k < i ==> OpOnGrid(ops[k], unit)) ==> TipValid()
        invariant |trace| == i && forall k :: 0 <= k < i ==> trace[k].op == ops[k]
        invariant Trace(rank, scriptOf, old(All()), trace, All())
      {
        ghost var before := All();
        ghost var turn := Perform(ops[i]);
        TraceGrows(rank, scriptOf, old(All()), trace, Step(ops[i], before, All(), turn));
        trace := trace + [Step(ops[i], before, All(), turn)];
      }
    }
  }

  lemma TraceGrows(rank: Rank, scriptOf: ScriptOf, s0: World, steps: seq<Step>, st: Step)
    requires Trace(rank, scriptOf, s0, steps, st.before) && Performed(rank, scriptOf, st)
    ensures Trace(rank, scriptOf, s0, steps + [st], st.after)
  {
    forall i: nat | i < |steps + [st]|
      ensures StepFits(rank, scriptOf, steps + [st], i)
    {
      assert i < |steps| ==> StepFits(rank, scriptOf, steps, i);
    }
  }
}
