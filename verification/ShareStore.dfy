/**
 * The commit protocol between the verified shares in memory and the database. A commit
 * takes the set of changed hashes under the lock, writes outside it, and puts the set
 * back if the write fails; changes may happen in between.
 */
module ShareStore {
  import opened Shares
  import opened Admission

  /** What the database should hold: the held and verified shares. */
  function View(m: ShareMap, verified: set<Hash>): ShareMap {
    map h | h in m && h in verified :: m[h]
  }

  /** Two stores agree on a hash. */
  predicate Agree(a: ShareMap, b: ShareMap, h: Hash) {
    (h in a <==> h in b) && (h in a ==> a[h] == b[h])
  }

  /** The writes of a commit in flight, decided when it took the changed hashes. */
  datatype Batch = Batch(hashes: set<Hash>, puts: ShareMap, dels: set<Hash>)

  /** The database after the batch's transaction: puts, then deletes. */
  function Written(disk: ShareMap, b: Batch): ShareMap {
    (disk + b.puts) - b.dels
  }

  function BatchFor(view: ShareMap, dirty: set<Hash>): Batch {
    Batch(dirty, map h | h in dirty && h in view :: view[h], set h | h in dirty && h !in view)
  }

  /**
   * Every hash on which database and memory disagree is marked as changed or is in the commit
   * in flight, and that commit will put right every hash not changed since.
   */
  ghost predicate Coherent(view: ShareMap, dirty: set<Hash>, disk: ShareMap, flight: Option<Batch>) {
    && (forall h :: !Agree(disk, view, h) ==> h in dirty || (flight.Some? && h in flight.value.hashes))
    && (flight.Some? ==> forall h :: h in flight.value.hashes && h !in dirty ==> Agree(Written(disk, flight.value), view, h))
    && (flight.Some? ==> flight.value.puts.Keys <= flight.value.hashes && flight.value.dels <= flight.value.hashes)
  }

  /** All changes of the view from v to v' are marked. */
  ghost predicate Marked(v: ShareMap, dirty: set<Hash>, v': ShareMap, dirty': set<Hash>) {
    dirty <= dirty' && forall h :: !Agree(v, v', h) ==> h in dirty'
  }

  lemma MarkedKeepsCoherent(v: ShareMap, dirty: set<Hash>, v': ShareMap, dirty': set<Hash>, disk: ShareMap, flight: Option<Batch>)
    requires Coherent(v, dirty, disk, flight) && Marked(v, dirty, v', dirty')
    ensures Coherent(v', dirty', disk, flight)
  {
    forall h | !Agree(disk, v', h) ensures h in dirty' || (flight.Some? && h in flight.value.hashes) {
      assert h !in dirty' ==> Agree(v, v', h);
    }
    if flight.Some? {
      forall h | h in flight.value.hashes && h !in dirty' ensures Agree(Written(disk, flight.value), v', h) {
        assert Agree(v, v', h) && Agree(Written(disk, flight.value), v, h);
      }
    }
  }

  lemma MarkedTrans(v: ShareMap, d: set<Hash>, v1: ShareMap, d1: set<Hash>, v2: ShareMap, d2: set<Hash>)
    requires Marked(v, d, v1, d1) && Marked(v1, d1, v2, d2)
    ensures Marked(v, d, v2, d2)
  {
    forall h | !Agree(v, v2, h) ensures h in d2 {
      assert Agree(v, v1, h) && Agree(v1, v2, h) ==> Agree(v, v2, h);
    }
  }

  /** Verifying marks what it adds to the view; removing unverified shares does not touch it. */
  lemma PassIsMarked(m: ShareMap, verified: set<Hash>, dirty: set<Hash>, accepted: set<Hash>, rejected: set<Hash>)
    requires rejected !! verified
    ensures Marked(View(m, verified), dirty, View(m - rejected, verified + accepted), dirty + (accepted + rejected))
  {
  }

  /** Removing marks what it takes from the view. */
  lemma RemovalIsMarked(m: ShareMap, verified: set<Hash>, dirty: set<Hash>, gone: set<Hash>)
    ensures Marked(View(m, verified), dirty, View(m - gone, verified - gone), dirty + (gone * m.Keys))
  {
  }

  /** Adding unverified shares does not touch the view. */
  lemma AdditionIsMarked(m: ShareMap, m': ShareMap, verified: set<Hash>, dirty: set<Hash>)
    requires Extends(m, m') && verified <= m.Keys
    ensures Marked(View(m, verified), dirty, View(m', verified), dirty)
  {
  }

  /** Taking the changed hashes into a batch. */
  lemma BeginKeepsCoherent(view: ShareMap, dirty: set<Hash>, disk: ShareMap)
    requires Coherent(view, dirty, disk, None)
    ensures Coherent(view, {}, disk, Some(BatchFor(view, dirty)))
  {
    var b := BatchFor(view, dirty);
    forall h | h in dirty ensures Agree(Written(disk, b), view, h) {
    }
  }

  /** A write that succeeded. */
  lemma SuccessKeepsCoherent(view: ShareMap, dirty: set<Hash>, disk: ShareMap, b: Batch)
    requires Coherent(view, dirty, disk, Some(b))
    ensures Coherent(view, dirty, Written(disk, b), None)
  {
    forall h | !Agree(Written(disk, b), view, h) ensures h in dirty {
      assert h !in b.hashes ==> Agree(Written(disk, b), disk, h);
    }
  }

  /** A write that failed: the hashes are marked again. */
  lemma FailureKeepsCoherent(view: ShareMap, dirty: set<Hash>, disk: ShareMap, b: Batch)
    requires Coherent(view, dirty, disk, Some(b))
    ensures Coherent(view, dirty + b.hashes, disk, None)
  {
  }

  /** With nothing marked and nothing in flight the database holds exactly the verified shares. */
  lemma SettledIsExact(view: ShareMap, disk: ShareMap)
    requires Coherent(view, {}, disk, None)
    ensures disk == view
  {
    forall h: Hash ensures (h in disk <==> h in view) && (h in disk ==> disk[h] == view[h]) {
      assert Agree(disk, view, h);
    }
  }

  /** The loop of Commit that sorts the changed hashes into puts and deletes. */
  method BuildBatch(m: ShareMap, verified: set<Hash>, dirty: set<Hash>) returns (b: Batch)
    ensures b == BatchFor(View(m, verified), dirty)
  {
    var puts: ShareMap, dels: set<Hash> := map[], {};
    var todo := dirty;
    ghost var spec := BatchFor(View(m, verified), dirty);
    while todo != {}
      invariant todo <= dirty
      invariant puts == map h | h in spec.puts && h !in todo :: spec.puts[h]
      invariant dels == set h | h in spec.dels && h !in todo
      decreases todo
    {
      var h :| h in todo;
      if h in m && h in verified {
        puts := puts[h := m[h]];
      } else {
        dels := dels + {h};
      }
      todo := todo - {h};
    }
    b := Batch(dirty, puts, dels);
    assert puts == spec.puts && dels == spec.dels;
  }

  // ---- runs ----

  /** Memory and database, with at most one commit in flight. */
  datatype Store = Store(shares: ShareMap, verified: set<Hash>, dirty: set<Hash>, disk: ShareMap, flight: Option<Batch>)

  datatype Event = Add(s: Share) | Verify(h: Hash) | Remove(h: Hash) | Begin | Succeed | Fail

  predicate Enabled(s: Store, e: Event) {
    match e
    case Add(x) => x.hash !in s.shares
    case Verify(h) => h in s.shares
    case Remove(h) => h in s.shares
    case Begin => s.flight.None?
    case Succeed => s.flight.Some?
    case Fail => s.flight.Some?
  }

  /** What each locked section does: adding does not mark, verifying and removing do. */
  function After(s: Store, e: Event): Store {
    match e
    case Add(x) => s.(shares := s.shares[x.hash := x])
    case Verify(h) => s.(verified := s.verified + {h}, dirty := s.dirty + {h})
    case Remove(h) => s.(shares := s.shares - {h}, verified := s.verified - {h}, dirty := s.dirty + {h})
    case Begin => s.(dirty := {}, flight := Some(BatchFor(View(s.shares, s.verified), s.dirty)))
    case Succeed => if s.flight.Some? then s.(disk := Written(s.disk, s.flight.value), flight := None) else s
    case Fail => if s.flight.Some? then s.(dirty := s.dirty + s.flight.value.hashes, flight := None) else s
  }

  ghost predicate Safe(s: Store) {
    s.verified <= s.shares.Keys && Coherent(View(s.shares, s.verified), s.dirty, s.disk, s.flight)
  }

  lemma StepSafe(s: Store, e: Event)
    requires Safe(s) && Enabled(s, e)
    ensures Safe(After(s, e))
  {
    var s' := After(s, e);
    var v, v' := View(s.shares, s.verified), View(s'.shares, s'.verified);
    match e {
      case Add(x) => assert v == v';
      case Verify(h) => MarkedKeepsCoherent(v, s.dirty, v', s'.dirty, s.disk, s.flight);
      case Remove(h) => MarkedKeepsCoherent(v, s.dirty, v', s'.dirty, s.disk, s.flight);
      case Begin => BeginKeepsCoherent(v, s.dirty, s.disk);
      case Succeed => SuccessKeepsCoherent(v, s.dirty, s.disk, s.flight.value);
      case Fail => FailureKeepsCoherent(v, s.dirty, s.disk, s.flight.value);
    }
  }

  /** The state after a run, None if some event was not possible. */
  function RunFrom(s: Store, run: seq<Event>): Option<Store>
    decreases |run|
  {
    if run == [] then Some(s)
    else if Enabled(s, run[0]) then RunFrom(After(s, run[0]), run[1..])
    else None
  }

  /** In every interleaving of changes with commits that succeed or fail the store stays safe. */
  lemma {:induction false} RunSafe(s: Store, run: seq<Event>)
    requires Safe(s)
    ensures RunFrom(s, run).Some? ==> Safe(RunFrom(s, run).value)
    decreases |run|
  {
    if run != [] && Enabled(s, run[0]) {
      StepSafe(s, run[0]);
      RunSafe(After(s, run[0]), run[1..]);
    }
  }

  /** A commit that succeeds with nothing in between leaves exactly the verified shares, and loading restores them. */
  lemma QuietCommitIsExact(s: Store)
    requires Safe(s) && s.flight.None?
    ensures var r := RunFrom(s, [Begin, Succeed]);
      && r.Some? && r.value.disk == View(s.shares, s.verified)
      && r.value.shares == s.shares && r.value.verified == s.verified
      && View(r.value.disk, r.value.disk.Keys) == View(s.shares, s.verified)
      && (forall h :: h in r.value.disk <==> h in s.shares && h in s.verified)
      && (forall h :: h in r.value.disk ==> r.value.disk[h] == s.shares[h])
  {
    var s1 := After(s, Begin);
    var s2 := After(s1, Succeed);
    assert RunFrom(s2, []) == Some(s2);
    assert [Begin, Succeed][1..] == [Succeed] && [Succeed][1..] == [];
    assert RunFrom(s1, [Succeed]) == RunFrom(s2, []);
    assert RunFrom(s, [Begin, Succeed]) == RunFrom(s1, [Succeed]);
    StepSafe(s, Begin);
    StepSafe(s1, Succeed);
    SettledIsExact(View(s.shares, s.verified), s2.disk);
  }

  /** The one thing the protocol rests on: marking a share verified is safe exactly if the share is held. */
  lemma MarkSafeExactly(s: Store, h: Hash)
    requires Safe(s)
    ensures Safe(After(s, Verify(h))) <==> h in s.shares
  {
    if h in s.shares {
      StepSafe(s, Verify(h));
    }
  }

  /** A share arrives: it is stored if it passes the screen at the time its batch was taken in hand. */
  function Arrive(s: Store, x: Share, now: int): Store {
    if Screen(s.shares, x, now) == SharePending then After(s, Add(x)) else s
  }

  /** x is pruned, marked verified all the same, committed, and arrives once more. */
  function LateMark(s: Store, x: Share, now: int): Store {
    var marked := After(After(s, Remove(x.hash)), Verify(x.hash));
    Arrive(After(After(marked, Begin), Succeed), x, now)
  }

  /** Held and verified in memory, missing from the database, and not marked. */
  predicate Lost(s: Store, h: Hash) {
    h in View(s.shares, s.verified) && h !in s.disk && h !in s.dirty && s.flight.None?
  }

  /**
   * What a mark that comes too late costs: a share pruned for age between its judgement and its mark
   * is lost for the database exactly if it arrives again in a batch whose clock still admits it.
   * With one timestamp in both places that is from the timestamp less the tolerated future to the
   * timestamp plus the retention time; the prune, at its own time, had the share past that.
   */
  lemma LateMarkLosesShare(s: Store, x: Share, pruned: int, now: int)
    requires Safe(s) && s.flight.None? && x.hash in s.shares && s.shares[x.hash] == x && x.hash !in s.verified
    requires x.selfValid && MeetsTargetFloor(x) && x.timestamp < pruned - MAX_SHARE_AGE_SECS
    ensures Lost(LateMark(s, x, now), x.hash) <==> TimeAcceptable(x, now)
    ensures Lost(LateMark(s, x, now), x.hash) ==> !Safe(LateMark(s, x, now)) && now < pruned
    ensures x.headerTime == x.timestamp ==>
      (Lost(LateMark(s, x, now), x.hash) <==> x.timestamp - MAX_SHARE_TIME_FUTURE_SECS <= now <= x.timestamp + MAX_SHARE_AGE_SECS)
  {
    var h := x.hash;
    var marked := After(After(s, Remove(h)), Verify(h));
    var begun := After(marked, Begin);
    var settled := After(begun, Succeed);
    assert h in begun.flight.value.dels && h !in settled.disk && h !in settled.shares;
    var late := LateMark(s, x, now);
    if TimeAcceptable(x, now) {
      assert h in View(late.shares, late.verified);
      assert !Agree(late.disk, View(late.shares, late.verified), h);
    }
  }
}
