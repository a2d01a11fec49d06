/**
 * The two generators of the proof-of-space graph, one recursive and one with an explicit stack,
 * writing node hashes to a file; both are proved to perform exactly the writes of the layout.
 */
module XiGenerators {

  import opened Powers
  import opened XiLayout
  import opened XiParents
  import opened XiFile

  // ---- tasks on an explicit stack ----

  /** The writes of a task (index, stage) started at a given node, and how many nodes it fills. */
  type Tasks = (nat, nat, int) -> seq<Write>
  type Sizes = (nat, nat) -> nat

  /** The writes that the lowest n tasks of two parallel stacks stand for, the topmost starting at c. */
  function Pending(task: Tasks, size: Sizes, ks: seq<nat>, gs: seq<nat>, n: nat, c: int): seq<Write>
    requires n <= |ks| && n <= |gs|
  {
    if n == 0 then []
    else task(ks[n - 1], gs[n - 1], c) + Pending(task, size, ks, gs, n - 1, c + size(ks[n - 1], gs[n - 1]))
  }

  lemma {:induction false} PendingSame(task: Tasks, size: Sizes, ks: seq<nat>, gs: seq<nat>, ls: seq<nat>, hs: seq<nat>, n: nat, c: int)
    requires n <= |ks| && n <= |gs| && n <= |ls| && n <= |hs|
    requires forall i :: 0 <= i < n ==> ks[i] == ls[i] && gs[i] == hs[i]
    ensures Pending(task, size, ks, gs, n, c) == Pending(task, size, ls, hs, n, c)
  {
    if n > 0 {
      PendingSame(task, size, ks, gs, ls, hs, n - 1, c + size(ks[n - 1], gs[n - 1]));
    }
  }

  lemma PendingTop(task: Tasks, size: Sizes, ks: seq<nat>, gs: seq<nat>, n: nat, k: nat, g: nat, c: int)
    requires n < |ks| && n < |gs| && ks[n] == k && gs[n] == g
    ensures Pending(task, size, ks, gs, n + 1, c) == task(k, g, c) + Pending(task, size, ks, gs, n, c + size(k, g))
  {
  }

  lemma Regroup(a: seq<Write>, b: seq<Write>, c: seq<Write>, d: seq<Write>, e: seq<Write>, f: seq<Write>)
    ensures a + (b + (c + (d + (e + f)))) == (a + (b + (c + (d + e)))) + f
  {
  }

  /** Five tasks of one index on top of the stacks, their starting nodes given. */
  lemma PendingFive(task: Tasks, size: Sizes, ks: seq<nat>, gs: seq<nat>, n: nat, k: nat,
                    c: int, c1: int, c2: int, c3: int, c4: int, end: int)
    requires n + 5 <= |ks| && n + 5 <= |gs|
    requires ks[n] == ks[n + 1] == ks[n + 2] == ks[n + 3] == ks[n + 4] == k
    requires gs[n] == 4 && gs[n + 1] == 3 && gs[n + 2] == 2 && gs[n + 3] == 1 && gs[n + 4] == 0
    requires c1 == c + size(k, 0) && c2 == c1 + size(k, 1) && c3 == c2 + size(k, 2)
    requires c4 == c3 + size(k, 3) && end == c4 + size(k, 4)
    ensures Pending(task, size, ks, gs, n + 5, c) ==
      (task(k, 0, c) + (task(k, 1, c1) + (task(k, 2, c2) + (task(k, 3, c3) + task(k, 4, c4))))) +
      Pending(task, size, ks, gs, n, end)
  {
    PendingTop(task, size, ks, gs, n, k, 4, c4);
    PendingTop(task, size, ks, gs, n + 1, k, 3, c3);
    PendingTop(task, size, ks, gs, n + 2, k, 2, c2);
    PendingTop(task, size, ks, gs, n + 3, k, 1, c1);
    PendingTop(task, size, ks, gs, n + 4, k, 0, c);
    Regroup(task(k, 0, c), task(k, 1, c1), task(k, 2, c2), task(k, 3, c3), task(k, 4, c4), Pending(task, size, ks, gs, n, end));
  }

  // ---- the stages of the graph as stack entries ----

  function Task(k: nat, g: nat, c: int): seq<Write> {
    if k < 2 then []
    else if g == 0 then FirstStage(k, c)
    else if g <= 2 then XiStage(k, c)
    else if g == 3 then FourthStage(k, c)
    else Sinks(Pow2(k - 1), c, c + Pow2(k) - NumXi(k))
  }

  function TaskSize(k: nat, g: nat): nat {
    if k < 2 then 0
    else if g == 0 || g == 3 then NumButterfly(k - 1)
    else if g <= 2 then NumXi(k - 1)
    else Pow2(k)
  }

  /** The writes that the stacks of the generator still stand for. */
  function Remaining(ks: seq<nat>, gs: seq<nat>, c: int): seq<Write>
    requires |ks| == |gs|
  {
    Pending(Task, TaskSize, ks, gs, |ks|, c)
  }

  const STAGES: seq<nat> := [4, 3, 2, 1, 0]

  function Five(k: nat): seq<nat> {
    [k, k, k, k, k]
  }

  lemma TaskStages(k: nat, c: int)
    requires k >= 2
    ensures Task(k, 0, c) == FirstStage(k, c) && Task(k, 1, c) == XiStage(k, c) && Task(k, 2, c) == XiStage(k, c)
    ensures Task(k, 3, c) == FourthStage(k, c) && Task(k, 4, c) == Sinks(Pow2(k - 1), c, c + Pow2(k) - NumXi(k))
  {
  }

  lemma TaskStarts(k: nat, c: int)
    requires k >= 2
    ensures c + TaskSize(k, 0) == FirstXi(k, c) && FirstXi(k, c) + TaskSize(k, 1) == SecondXi(k, c)
    ensures SecondXi(k, c) + TaskSize(k, 2) == SecondButter(k, c) && SecondButter(k, c) + TaskSize(k, 3) == FirstSink(k, c)
    ensures FirstSink(k, c) + TaskSize(k, 4) == c + NumXi(k) - Pow2(k)
    ensures FirstSink(k, c) + Pow2(k) - NumXi(k) == c - Pow2(k)
  {
    OffsetsAdvance(k, c);
  }

  lemma SinksTask(k: nat, start: int, c: int, c4: int)
    requires k >= 2 && c == start + Pow2(k) && c4 == FirstSink(k, c)
    ensures Task(k, 4, c4) == Sinks(Pow2(k - 1), c4, start)
  {
    TaskStarts(k, c);
    TaskStages(k, c4);
  }

  lemma TasksAreBody(k: nat, start: int, c: int, c1: int, c2: int, c3: int, c4: int)
    requires k >= 2 && c == start + Pow2(k)
    requires c1 == FirstXi(k, c) && c2 == SecondXi(k, c) && c3 == SecondButter(k, c) && c4 == FirstSink(k, c)
    ensures Task(k, 0, c) + (Task(k, 1, c1) + (Task(k, 2, c2) + (Task(k, 3, c3) + Task(k, 4, c4)))) == Body(k, c)
  {
    assert Task(k, 0, c) == FirstStage(k, c) by { TaskStages(k, c); }
    assert Task(k, 1, c1) == XiStage(k, c1) by { TaskStages(k, c1); }
    assert Task(k, 2, c2) == XiStage(k, c2) by { TaskStages(k, c2); }
    assert Task(k, 3, c3) == FourthStage(k, c3) by { TaskStages(k, c3); }
    SinksTask(k, start, c, c4);
    BodyUnfolds(k, start, c);
  }

  lemma FiveStagesPending(ks: seq<nat>, gs: seq<nat>, n: nat, k: nat, c: int)
    requires n + 5 <= |ks| && n + 5 <= |gs| && k >= 2
    requires ks[n] == ks[n + 1] == ks[n + 2] == ks[n + 3] == ks[n + 4] == k
    requires gs[n] == 4 && gs[n + 1] == 3 && gs[n + 2] == 2 && gs[n + 3] == 1 && gs[n + 4] == 0
    ensures Pending(Task, TaskSize, ks, gs, n + 5, c) ==
      Body(k, c) + Pending(Task, TaskSize, ks, gs, n, c + NumXi(k) - Pow2(k))
  {
    var c1, c2, c3, c4 := FirstXi(k, c), SecondXi(k, c), SecondButter(k, c), FirstSink(k, c);
    TaskStarts(k, c);
    TasksAreBody(k, c - Pow2(k), c, c1, c2, c3, c4);
    PendingFive(Task, TaskSize, ks, gs, n, k, c, c1, c2, c3, c4, c + NumXi(k) - Pow2(k));
  }

  /** The five tasks of one index are the graph of that index. */
  lemma FiveTasks(ks: seq<nat>, gs: seq<nat>, k: nat, c: int)
    requires |ks| == |gs| && k >= 2
    ensures Remaining(ks + Five(k), gs + STAGES, c) == Body(k, c) + Remaining(ks, gs, c + NumXi(k) - Pow2(k))
  {
    var ls, hs, n := ks + Five(k), gs + STAGES, |ks|;
    FiveStagesPending(ls, hs, n, k, c);
    PendingSame(Task, TaskSize, ks, gs, ls, hs, n, c + NumXi(k) - Pow2(k));
  }

  // ---- one task, step by step ----

  /** The row of new nodes a task starts with. */
  function RowOf(k: nat, g: nat, c: int): seq<Write>
    requires k >= 2
  {
    var h := Pow2(k - 1);
    if g == 0 then Merge(h, c) else if g <= 3 then Ladder(h, c) else Sinks(h, c, c + Pow2(k) - NumXi(k))
  }

  /** What follows the row: a butterfly, a smaller graph, or nothing. */
  function RestOf(k: nat, g: nat, c: int): seq<Write>
    requires k >= 2
  {
    if g == 0 || g == 3 then Butterfly(k - 1, 1, c) else if g <= 2 then Body(k - 1, c) else []
  }

  lemma TaskParts(k: nat, g: nat, c: int, at: int)
    requires k >= 2 && at == c + |RowOf(k, g, c)|
    ensures Task(k, g, c) == RowOf(k, g, c) + RestOf(k, g, at)
  {
  }

  lemma TaskFills(k: nat, g: nat, c: int)
    requires k >= 2
    ensures |Task(k, g, c)| == TaskSize(k, g)
  {
    if g == 0 {
      FirstStageGenerates(k, c - Pow2(k), c);
    } else if g <= 2 {
      XiStageGenerates(k, c - Pow2(k - 1), c);
    } else if g == 3 {
      FourthStageGenerates(k, c - Pow2(k - 1), c);
    }
  }

  predicate Stacked(ks: seq<nat>, gs: seq<nat>) {
    |ks| == |gs| && forall i :: 0 <= i < |ks| ==> ks[i] >= 2
  }

  lemma RowCases(k: nat, g: nat, c: int, h: nat, sources: int)
    requires k >= 2 && h == Pow2(k - 1) && sources == c + Pow2(k) - NumXi(k)
    ensures RowOf(k, g, c) == if g == 0 then Merge(h, c) else if g <= 3 then Ladder(h, c) else Sinks(h, c, sources)
  {
  }

  lemma RestCases(k: nat, g: nat, c: int)
    requires k >= 2
    ensures g == 0 || g == 3 || (g <= 2 && k == 2) ==> RestOf(k, g, c) == Butterfly(k - 1, 1, c)
    ensures g == 1 || g == 2 ==> RestOf(k, g, c) == Body(k - 1, c)
    ensures g > 3 ==> RestOf(k, g, c) == []
  {
  }

  lemma RowNotEmpty(k: nat, g: nat, c: int)
    requires k >= 2
    ensures |RowOf(k, g, c)| > 0
  {
  }

  /** A task's row and what follows it, in front of what is below on the stacks. */
  lemma TaskJoined(a: seq<Write>, k: nat, g: nat, c: int, at: int, ks: seq<nat>, gs: seq<nat>, end: int)
    requires k >= 2 && |ks| == |gs| && at == c + |RowOf(k, g, c)| && end == c + |Task(k, g, c)|
    ensures end == at + |RestOf(k, g, at)|
    ensures a + RowOf(k, g, c) + (RestOf(k, g, at) + Remaining(ks, gs, end)) == a + (Task(k, g, c) + Remaining(ks, gs, end))
  {
    TaskParts(k, g, c, at);
    RestJoined(a, RowOf(k, g, c), RestOf(k, g, at), Remaining(ks, gs, end));
  }

  /** The entry on top of the stacks, and what is below it. */
  lemma RemainingTop(ks: seq<nat>, gs: seq<nat>, n: nat, k: nat, g: nat, c: int, end: int)
    requires |ks| == |gs| == n + 1 && k == ks[n] >= 2 && g == gs[n] && end == c + |Task(k, g, c)|
    ensures Remaining(ks, gs, c) == Task(k, g, c) + Remaining(ks[..n], gs[..n], end)
  {
    TaskFills(k, g, c);
    PendingTop(Task, TaskSize, ks, gs, n, k, g, c);
    PendingSame(Task, TaskSize, ks, gs, ks[..n], gs[..n], n, end);
  }

  /** Pushing the five tasks of a graph puts its writes in front. */
  lemma RemainingPushed(ks: seq<nat>, gs: seq<nat>, k: nat, at: int, end: int)
    requires |ks| == |gs| && k >= 2 && end == at + |Body(k, at)|
    ensures Remaining(ks + Five(k), gs + STAGES, at) == Body(k, at) + Remaining(ks, gs, end)
  {
    FiveTasks(ks, gs, k, at);
    BodyFills(k, at);
  }

  // ---- the generators ----

  lemma OneMore(a: seq<Write>, ws: seq<Write>, i: nat)
    requires i < |ws|
    ensures a + ws[..i] + [ws[i]] == a + ws[..i + 1]
  {
  }

  lemma NextSource(a: seq<Write>, n: nat, c: int, i: nat, id: int)
    requires i < n && id == c + i
    ensures a + Sources(n, c)[..i] + [Write(id, [])] == a + Sources(n, c)[..i + 1]
  {
    OneMore(a, Sources(n, c), i);
  }

  lemma NextMerge(a: seq<Write>, h: nat, c: int, i: nat, id: int, first: int, second: int)
    requires i < h && id == c + i && first == c - 2 * h + i && second == c - h + i
    ensures a + Merge(h, c)[..i] + [Write(id, [first, second])] == a + Merge(h, c)[..i + 1]
  {
    OneMore(a, Merge(h, c), i);
  }

  lemma NextRung(a: seq<Write>, h: nat, c: int, i: nat)
    requires i < h
    ensures a + Ladder(h, c)[..i] + [Write(c + i, [c - h + i])] == a + Ladder(h, c)[..i + 1]
  {
    OneMore(a, Ladder(h, c), i);
  }

  lemma WholeRow(a: seq<Write>, ws: seq<Write>, n: nat)
    requires n == |ws|
    ensures a + ws[..0] == a && a + ws[..n] == a + ws
  {
    assert ws[..0] == [] && ws[..n] == ws;
  }

  lemma SinkPair(a: seq<Write>, h: nat, c: int, sources: int, i: nat)
    requires i < h
    ensures a + Sinks(h, c, sources)[..2 * i] + [Write(c + i, [c - h + i, sources + i])] +
      [Write(c + i + h, [c - h + i, sources + i + h])] == a + Sinks(h, c, sources)[..2 * (i + 1)]
  {
    var ws := Sinks(h, c, sources);
    SinkAt(h, c, sources, 2 * i);
    SinkAt(h, c, sources, 2 * i + 1);
    OneMore(a, ws, 2 * i);
    OneMore(a, ws, 2 * i + 1);
    assert ws[2 * i] == Write(c + i, [c - h + i, sources + i]);
    assert ws[2 * i + 1] == Write(c + i + h, [c - h + i, sources + i + h]);
  }

  /** The generator's own arithmetic for a butterfly node names the parents of the layout. */
  lemma LevelAt(n: nat, level: nat, begin: int, c: int, i: nat)
    requires 1 <= level && c == begin + level * Pow2(n) && i < Pow2(n)
    ensures var shift := if level > n then level - n else n - level;
      var prev := if i / Pow2(shift) % 2 == 0 then i + Pow2(shift) else i - Pow2(shift);
      Level(n, level, c)[i] == Write(c + i, [begin + (level - 1) * Pow2(n) + prev, c + i - Pow2(n)])
  {
    assert (level - 1) * Pow2(n) == level * Pow2(n) - Pow2(n);
  }

  lemma NextLevel(a: seq<Write>, n: nat, level: nat, c: int)
    requires level < 2 * n
    ensures a + Level(n, level, c) + Butterfly(n, level + 1, c + Pow2(n)) == a + Butterfly(n, level, c)
  {
  }

  lemma Joined(a: seq<Write>, b: seq<Write>, c: seq<Write>)
    ensures a + b + c == a + (b + c)
  {
  }

  lemma JoinedWhole(a: seq<Write>, k: nat, c: int, at: int)
    requires k >= 1 && at == c + Pow2(k)
    ensures a + Sources(Pow2(k), c) + Body(k, at) == a + Whole(k, c)
  {
    WholeParts(k, c, at);
    Joined(a, Sources(Pow2(k), c), Body(k, at));
  }

  lemma JoinedFirstStage(a: seq<Write>, k: nat, c: int, at: int)
    requires k >= 2 && at == c + Pow2(k - 1)
    ensures a + Merge(Pow2(k - 1), c) + Butterfly(k - 1, 1, at) == a + FirstStage(k, c)
  {
    StageParts(k, c, at);
    Joined(a, Merge(Pow2(k - 1), c), Butterfly(k - 1, 1, at));
  }

  lemma JoinedXiStage(a: seq<Write>, k: nat, c: int, at: int)
    requires k >= 2 && at == c + Pow2(k - 1)
    ensures a + Ladder(Pow2(k - 1), c) + Body(k - 1, at) == a + XiStage(k, c)
  {
    StageParts(k, c, at);
    Joined(a, Ladder(Pow2(k - 1), c), Body(k - 1, at));
  }

  lemma JoinedFourthStage(a: seq<Write>, k: nat, c: int, at: int)
    requires k >= 2 && at == c + Pow2(k - 1)
    ensures a + Ladder(Pow2(k - 1), c) + Butterfly(k - 1, 1, at) == a + FourthStage(k, c)
  {
    StageParts(k, c, at);
    Joined(a, Ladder(Pow2(k - 1), c), Butterfly(k - 1, 1, at));
  }

  lemma JoinedFive(a: seq<Write>, s0: seq<Write>, s1: seq<Write>, s2: seq<Write>, s3: seq<Write>, s4: seq<Write>)
    ensures a + s0 + s1 + s2 + s3 + s4 == a + (s0 + (s1 + (s2 + (s3 + s4))))
  {
  }

  lemma RestJoined(a: seq<Write>, row: seq<Write>, rest: seq<Write>, after: seq<Write>)
    ensures a + row + (rest + after) == a + ((row + rest) + after)
  {
  }

  lemma Shrinks(a: seq<Write>, left: seq<Write>, b: seq<Write>, less: seq<Write>)
    requires a + left == b + less && |b| > |a|
    ensures |less| < |left|
  {
    assert |a + left| == |b + less|;
  }

  lemma StartStacks(k: nat, c: int)
    requires k >= 2
    ensures Remaining(Five(k), STAGES, c) == Body(k, c)
  {
    FiveTasks([], [], k, c);
    assert [] + Five(k) == Five(k) && [] + STAGES == STAGES;
  }

  lemma ButterflyFills(n: nat, c: int)
    requires n >= 1
    ensures |Butterfly(n, 1, c)| == LevelsSize(n, 1)
  {
    ButterflyGenerates(n, 1, c);
  }

  /** The offsets computed beforehand are where the stages start. */
  lemma StagesFill(k: nat, c: int, c1: int, c2: int, c3: int, c4: int)
    requires k >= 2 && c1 == FirstXi(k, c) && c2 == SecondXi(k, c) && c3 == SecondButter(k, c) && c4 == FirstSink(k, c)
    ensures c <= c1 <= c2 <= c3 <= c4
    ensures c1 == c + |FirstStage(k, c)| && c2 == c1 + |XiStage(k, c1)|
    ensures c3 == c2 + |XiStage(k, c2)| && c4 == c3 + |FourthStage(k, c3)|
    ensures Body(k, c) == FirstStage(k, c) + (XiStage(k, c1) + (XiStage(k, c2) + (
      FourthStage(k, c3) + Sinks(Pow2(k - 1), c4, c - Pow2(k)))))
  {
    assert |FirstStage(k, c)| == NumButterfly(k - 1) by { FirstStageGenerates(k, c - Pow2(k), c); }
    assert |XiStage(k, c1)| == NumXi(k - 1) by { XiStageGenerates(k, c1 - Pow2(k - 1), c1); }
    assert |XiStage(k, c2)| == NumXi(k - 1) by { XiStageGenerates(k, c2 - Pow2(k - 1), c2); }
    assert |FourthStage(k, c3)| == NumButterfly(k - 1) by { FourthStageGenerates(k, c3 - Pow2(k - 1), c3); }
    BodyUnfolds(k, c - Pow2(k), c);
  }

  lemma BodyFills(k: nat, c: int)
    requires k >= 1
    ensures |Body(k, c)| == NumXi(k) - Pow2(k)
  {
    BodyGenerates(k, c - Pow2(k), c);
  }

  /** One more write is one more step. */
  ghost predicate Follows(run: seq<Write> -> Disk, pow2: nat, hash: NodeHash)
    requires pow2 >= 1
  {
    forall ws, w {:trigger run(ws + [w])} :: run(ws + [w]) == Put(run(ws), pow2, hash, w)
  }

  lemma RunFollows(pow2: nat, hash: NodeHash)
    requires pow2 >= 1
    ensures Follows(ws => Run(pow2, hash, ws), pow2, hash)
  {
    forall ws: seq<Write>, w: Write
      ensures Run(pow2, hash, ws + [w]) == Put(Run(pow2, hash, ws), pow2, hash, w)
    {
      assert (ws + [w])[..|ws|] == ws;
    }
  }

  class Graph {
    const pow2: nat
    const hash: NodeHash
    var nodes: map<int, nat>
    var failed: bool
    ghost var log: seq<Write>

    /** What a sequence of writes leaves in a new file: Run, for this graph's bit and hash. */
    ghost const run: seq<Write> -> Disk

    /** The file is what the writes so far leave in a new one. */
    ghost predicate Valid()
      reads this
    {
      pow2 >= 1 && Follows(run, pow2, hash) && Disk(nodes, failed) == run(log)
    }

    /** An empty file, for ids that carry the bit of `bit`. */
    constructor (bit: nat, h: NodeHash)
      requires bit >= 1
      ensures Valid() && pow2 == bit && hash == h && log == []
      ensures forall ws :: run(ws) == Run(bit, h, ws)
    {
      RunFollows(bit, h);
      pow2, hash, run := bit, h, ws => Run(bit, h, ws);
      nodes, failed, log := map[], false, [];
    }

    /** GetNode: a miss is a panic in the program. */
    method GetNode(id: int) returns (h: nat)
      requires pow2 >= 1
      modifies this`failed
      ensures h == Fetch(Disk(nodes, failed), pow2, id)
      ensures failed == (old(failed) || Place(pow2, id) !in nodes)
    {
      h := 0;
      if Place(pow2, id) in nodes {
        h := nodes[Place(pow2, id)];
      } else {
        failed := true;
      }
    }

    /** Reads the parents, hashes them with the id, and writes the node. */
    method NewNode(id: int, parents: seq<int>)
      requires Valid()
      modifies this
      ensures Valid() && log == old(log) + [Write(id, parents)]
    {
      var hs: seq<nat> := [];
      for i := 0 to |parents|
        invariant nodes == old(nodes) && log == old(log)
        invariant |hs| == i && forall j :: 0 <= j < i ==> hs[j] == Fetch(Disk(nodes, old(failed)), pow2, parents[j])
        invariant failed == (old(failed) || exists j :: 0 <= j < i && Place(pow2, parents[j]) !in nodes)
      {
        var h := GetNode(parents[i]);
        hs := hs + [h];
      }
      assert hs == FetchAll(Disk(old(nodes), old(failed)), pow2, parents);
      nodes := nodes[Place(pow2, id) := hash(id, hs)];
      log := log + [Write(id, parents)];
    }

    method AddSources(n: nat, count: int) returns (next: int)
      requires Valid()
      modifies this
      ensures Valid() && log == old(log) + Sources(n, count) && next == count + n
    {
      next := count;
      WholeRow(log, Sources(n, count), n);
      for i := 0 to n
        invariant Valid() && next == count + i && log == old(log) + Sources(n, count)[..i]
      {
        NextSource(old(log), n, count, i, next);
        NewNode(next, []);
        next := next + 1;
      }
    }

    /** A row of h nodes, each from two nodes among the 2h nodes at `sources`. */
    method AddMerge(h: nat, sources: int, count: int) returns (next: int)
      requires Valid() && sources == count - 2 * h
      modifies this
      ensures Valid() && log == old(log) + Merge(h, count) && next == count + h
    {
      next := count;
      WholeRow(log, Merge(h, count), h);
      for i := 0 to h
        invariant Valid() && next == count + i && log == old(log) + Merge(h, count)[..i]
      {
        NextMerge(old(log), h, count, i, next, sources + i, sources + i + h);
        NewNode(next, [sources + i, sources + i + h]);
        next := next + 1;
      }
    }

    /** A row of h nodes from `first` on, each from the node h before; the counter moves along. */
    method AddLadder(h: nat, first: int, count: int) returns (next: int)
      requires Valid()
      modifies this
      ensures Valid() && log == old(log) + Ladder(h, first) && next == count + h
    {
      next := count;
      WholeRow(log, Ladder(h, first), h);
      for i := 0 to h
        invariant Valid() && next == count + i && log == old(log) + Ladder(h, first)[..i]
      {
        NextRung(old(log), h, first, i);
        NewNode(first + i, [first - h + i]);
        next := next + 1;
      }
    }

    /** The pairs of sinks from `first` on. */
    method AddSinks(h: nat, first: int, sources: int, count: int) returns (next: int)
      requires Valid()
      modifies this
      ensures Valid() && log == old(log) + Sinks(h, first, sources) && next == count + 2 * h
    {
      next := count;
      WholeRow(log, Sinks(h, first, sources), 2 * h);
      for i := 0 to h
        invariant Valid() && next == count + 2 * i && log == old(log) + Sinks(h, first, sources)[..2 * i]
      {
        SinkPair(old(log), h, first, sources, i);
        NewNode(first + i, [first - h + i, sources + i]);
        NewNode(first + i + h, [first - h + i, sources + i + h]);
        next := next + 2;
      }
    }

    /** Node i of a level that starts at `first`. */
    method AddLevelNode(index: nat, level: nat, begin: int, ghost first: int, count: int, i: nat)
      requires Valid() && 1 <= level && first == begin + level * Pow2(index) && i < Pow2(index) && count == first + i
      modifies this
      ensures Valid() && log == old(log) + [Level(index, level, first)[i]]
    {
      var perLevel := Pow2(index);
      var shift := if level > index then level - index else index - level;
      var prev := if i / Pow2(shift) % 2 == 0 then i + Pow2(shift) else i - Pow2(shift);
      LevelAt(index, level, begin, first, i);
      NewNode(count, [begin + (level - 1) * perLevel + prev, count - perLevel]);
    }

    /** One level of a butterfly whose level zero is at begin. */
    method AddLevel(index: nat, level: nat, begin: int, count: int) returns (next: int)
      requires Valid() && index >= 1 && 1 <= level < 2 * index && count == begin + level * Pow2(index)
      modifies this
      ensures Valid() && log == old(log) + Level(index, level, count) && next == count + Pow2(index)
    {
      var perLevel := Pow2(index);
      next := count;
      ghost var ws := Level(index, level, count);
      assert old(log) + ws[..0] == old(log);
      for i := 0 to perLevel
        invariant Valid() && next == count + i && log == old(log) + ws[..i]
      {
        AddLevelNode(index, level, begin, count, next, i);
        next := next + 1;
        OneMore(old(log), ws, i);
      }
      assert ws[..perLevel] == ws;
    }

    /** ButterflyGraph: the levels after level zero, which was written before. */
    method ButterflyGraph(index: nat, count: int) returns (next: int)
      requires Valid()
      modifies this
      ensures var n := if index == 0 then 1 else index;
        Valid() && log == old(log) + Butterfly(n, 1, count) && next == count + |Butterfly(n, 1, count)|
    {
      var n := if index == 0 then 1 else index;
      var numLevel, perLevel := 2 * n, Pow2(n);
      var begin := count - perLevel;
      next := count;
      var level := 1;
      while level < numLevel
        invariant 1 <= level <= numLevel
        invariant Valid() && next == begin + level * perLevel
        invariant log + Butterfly(n, level, next) == old(log) + Butterfly(n, 1, count)
      {
        ghost var before := log;
        NextLevel(before, n, level, next);
        assert (level + 1) * perLevel == level * perLevel + perLevel;
        next := AddLevel(n, level, begin, next);
        level := level + 1;
      }
      ButterflyFills(n, count);
      LevelsSizeFormula(n, 1);
      assert numLevel * perLevel - perLevel == (numLevel - 1) * perLevel;
    }

    /** XiGraph: the recursive generator; the first call also writes the sources. */
    method XiGraph(index: nat, count: int) returns (next: int)
      requires Valid() && index >= 1 && count >= pow2
      modifies this
      ensures Valid()
      ensures count == pow2 ==> log == old(log) + Whole(index, count)
      ensures count > pow2 ==> log == old(log) + Body(index, count)
      ensures next == count + |log| - |old(log)|
      decreases index, 1
    {
      var n := Pow2(index);
      if count == pow2 {
        next := AddSources(n, count);
        ghost var at := next;
        next := XiBody(index, next);
        JoinedWhole(old(log), index, count, at);
      } else {
        next := XiBody(index, count);
      }
    }

    /** XiGraph after its sources, with the offsets that the program computes beforehand. */
    method XiBody(index: nat, count: int) returns (next: int)
      requires Valid() && index >= 1 && count > pow2
      modifies this
      ensures Valid() && log == old(log) + Body(index, count)
      ensures next == count + |log| - |old(log)|
      decreases index, 0
    {
      if index == 1 {
        next := ButterflyGraph(1, count);
      } else {
        var sources := count - Pow2(index);
        var firstButter := sources + Pow2(index);
        var firstXi := firstButter + NumButterfly(index - 1);
        var secondXi := firstXi + NumXi(index - 1);
        var secondButter := secondXi + NumXi(index - 1);
        var sinks := secondButter + NumButterfly(index - 1);
        StagesFill(index, count, firstXi, secondXi, secondButter, sinks);
        next := AddStages(index, sources, firstXi, secondXi, secondButter, sinks, count);
      }
    }

    /** The five stages; every offset computed beforehand is where the counter has got to. */
    method AddStages(index: nat, sources: int, firstXi: int, secondXi: int, secondButter: int, sinks: int, count: int)
      returns (next: int)
      requires Valid() && index >= 2 && count > pow2 && sources == count - Pow2(index)
      requires firstXi == count + |FirstStage(index, count)| && secondXi == firstXi + |XiStage(index, firstXi)|
      requires secondButter == secondXi + |XiStage(index, secondXi)|
      requires sinks == secondButter + |FourthStage(index, secondButter)|
      requires Body(index, count) == FirstStage(index, count) + (XiStage(index, firstXi) + (XiStage(index, secondXi) + (
        FourthStage(index, secondButter) + Sinks(Pow2(index - 1), sinks, sources))))
      modifies this
      ensures Valid() && log == old(log) + Body(index, count)
      ensures next == count + |log| - |old(log)|
      decreases index - 1, 3
    {
      JoinedFive(log, FirstStage(index, count), XiStage(index, firstXi), XiStage(index, secondXi),
                 FourthStage(index, secondButter), Sinks(Pow2(index - 1), sinks, sources));
      next := AddFirstStage(index, sources, count);
      assert next == firstXi;
      next := AddXiStage(index, firstXi, next);
      assert next == secondXi;
      next := AddXiStage(index, secondXi, next);
      assert next == secondButter;
      next := AddFourthStage(index, secondButter, next);
      assert next == sinks;
      next := AddSinks(Pow2(index - 1), sinks, sources, next);
    }

    method AddFirstStage(index: nat, sources: int, count: int) returns (next: int)
      requires Valid() && index >= 2 && sources == count - Pow2(index)
      modifies this
      ensures Valid() && log == old(log) + FirstStage(index, count) && next == count + |FirstStage(index, count)|
    {
      var h := Pow2(index - 1);
      next := AddMerge(h, sources, count);
      ghost var at := next;
      next := ButterflyGraph(index - 1, next);
      JoinedFirstStage(old(log), index, count, at);
    }

    method AddFourthStage(index: nat, first: int, count: int) returns (next: int)
      requires Valid() && index >= 2 && first == count
      modifies this
      ensures Valid() && log == old(log) + FourthStage(index, count) && next == count + |FourthStage(index, count)|
    {
      var h := Pow2(index - 1);
      next := AddLadder(h, first, count);
      ghost var at := next;
      next := ButterflyGraph(index - 1, next);
      JoinedFourthStage(old(log), index, count, at);
    }

    method AddXiStage(index: nat, first: int, count: int) returns (next: int)
      requires Valid() && index >= 2 && first == count && count > pow2
      modifies this
      ensures Valid() && log == old(log) + XiStage(index, count) && next == count + |XiStage(index, count)|
      decreases index - 1, 2
    {
      var h := Pow2(index - 1);
      next := AddLadder(h, first, count);
      ghost var mid, at := log, next;
      next := XiGraph(index - 1, next);
      assert log == mid + Body(index - 1, at) && mid == old(log) + Ladder(h, count);
      JoinedXiStage(old(log), index, count, at);
    }

    /** The row of new nodes of one stage of one index. */
    method AddRow(k: nat, g: nat, count: int) returns (next: int)
      requires Valid() && k >= 2
      modifies this
      ensures Valid() && log == old(log) + RowOf(k, g, count) && next == count + |RowOf(k, g, count)|
    {
      var n, h := Pow2(k), Pow2(k - 1);
      var sources := count + n - NumXi(k);
      RowCases(k, g, count, h, sources);
      if g == 0 {
        next := AddMerge(h, count - n, count);
      } else if g <= 3 {
        next := AddLadder(h, count, count);
      } else {
        next := AddSinks(h, count, sources, count);
      }
    }

    /** What follows the row: a butterfly now, or five more tasks for later. */
    method FollowRow(k: nat, g: nat, count: int, ks: seq<nat>, gs: seq<nat>, ghost rest: seq<Write>, ghost end: int)
      returns (next: int, ls: seq<nat>, hs: seq<nat>)
      requires Valid() && k >= 2 && Stacked(ks, gs) && rest == RestOf(k, g, count) && end == count + |rest|
      modifies this
      ensures Valid() && Stacked(ls, hs) && |log| >= |old(log)|
      ensures log + Remaining(ls, hs, next) == old(log) + (rest + Remaining(ks, gs, end))
    {
      ls, hs, next := ks, gs, count;
      RestCases(k, g, count);
      if (g == 0 || g == 3) || ((g == 1 || g == 2) && k == 2) {
        Joined(log, rest, Remaining(ks, gs, end));
        next := ButterflyGraph(k - 1, next);
        assert next == end;
      } else if g == 1 || g == 2 {
        ls, hs := ks + Five(k - 1), gs + STAGES;
        RemainingPushed(ks, gs, k - 1, count, end);
      } else {
        assert next == end && rest + Remaining(ks, gs, end) == Remaining(ks, gs, end);
      }
    }

    /** One turn of the stack loop. */
    method DoTask(k: nat, g: nat, count: int, ks: seq<nat>, gs: seq<nat>, ghost end: int)
      returns (next: int, ls: seq<nat>, hs: seq<nat>)
      requires Valid() && k >= 2 && Stacked(ks, gs) && end == count + |Task(k, g, count)|
      modifies this
      ensures Valid() && Stacked(ls, hs) && |log| > |old(log)|
      ensures log + Remaining(ls, hs, next) == old(log) + (Task(k, g, count) + Remaining(ks, gs, end))
    {
      next := AddRow(k, g, count);
      TaskJoined(old(log), k, g, count, next, ks, gs, end);
      RowNotEmpty(k, g, count);
      next, ls, hs := FollowRow(k, g, next, ks, gs, RestOf(k, g, next), end);
    }

    /** The stack loop: what is written and what the stacks stand for is always the whole graph. */
    method StackLoop(index: nat, start: int)
      requires Valid() && index >= 2
      modifies this
      ensures Valid() && log == old(log) + Body(index, start)
    {
      var count, stack, graphStack := start, Five(index), STAGES;
      StartStacks(index, start);
      ghost var whole := log + Body(index, start);
      while |stack| != 0 && |graphStack| != 0
        invariant Valid() && Stacked(stack, graphStack)
        invariant log + Remaining(stack, graphStack, count) == whole
        decreases |Remaining(stack, graphStack, count)|
      {
        var n := |stack| - 1;
        var k, g := stack[n], graphStack[n];
        ghost var end := count + |Task(k, g, count)|;
        RemainingTop(stack, graphStack, n, k, g, count, end);
        ghost var left := Remaining(stack, graphStack, count);
        ghost var before := log;
        count, stack, graphStack := DoTask(k, g, count, stack[..n], graphStack[..n], end);
        Shrinks(before, left, log, Remaining(stack, graphStack, count));
      }
      assert Remaining(stack, graphStack, count) == [];
    }

    /** XiGraphIter: the generator with an explicit stack. */
    method XiGraphIter(index: nat)
      requires Valid() && index >= 1
      modifies this
      ensures Valid() && log == old(log) + Whole(index, pow2)
    {
      var count := AddSources(Pow2(index), pow2);
      JoinedWhole(old(log), index, pow2, count);
      if index == 1 {
        count := ButterflyGraph(index, count);
      } else {
        StackLoop(index, count);
      }
    }
  }

  /** The ids start at the first power of two above the size, so that one bit tells them apart. */
  method IdBit(index: nat) returns (bit: nat)
    ensures exists n: nat :: bit == Pow2(n)
    ensures NumXi(index) < bit && (index >= 1 ==> bit <= 2 * NumXi(index))
  {
    var log2 := Log2(NumXi(index));
    bit := Pow2(log2 + 1);
  }

  /** There is one power of two above a size and at most twice it. */
  lemma OneIdBit(size: nat, a: nat, b: nat)
    requires size < Pow2(a) <= 2 * size && size < Pow2(b) <= 2 * size
    ensures a == b
  {
    if a < b {
      PowersApart(a, b);
      assert false;
    }
    if b < a {
      PowersApart(b, a);
      assert false;
    }
  }

  lemma PowersApart(a: nat, b: nat)
    requires a < b
    ensures 2 * Pow2(a) <= Pow2(b)
  {
    Pow2Monotone(a + 1, b);
  }

  /** NewGraph on a new file: generation ends with every node's hash in its place. */
  method NewGraph(index: nat, hash: NodeHash) returns (g: Graph)
    requires index >= 1
    ensures fresh(g) && g.Valid() && g.hash == hash && !g.failed
    ensures (exists n: nat :: g.pow2 == Pow2(n)) && NumXi(index) < g.pow2 <= 2 * NumXi(index)
    ensures g.log == Whole(index, g.pow2)
    ensures forall n :: n in g.nodes <==> 0 <= n < NumXi(index)
    ensures forall n: nat :: n < NumXi(index) ==> g.nodes[n] == Label(index, g.pow2, hash, n)
  {
    var bit := IdBit(index);
    g := new Graph(bit, hash);
    g.XiGraphIter(index);
    assert [] + Whole(index, bit) == Whole(index, bit);
    GenerationMeaning(index, bit, hash);
  }

  /** The two generators, each on a new file: the same writes in the same order, the same file. */
  method BothGenerators(index: nat, bit: nat, hash: NodeHash) returns (iterative: Graph, recursive: Graph)
    requires index >= 1 && bit >= 1
    ensures iterative.log == recursive.log == Whole(index, bit)
    ensures iterative.nodes == recursive.nodes && iterative.failed == recursive.failed
  {
    iterative := new Graph(bit, hash);
    iterative.XiGraphIter(index);
    recursive := new Graph(bit, hash);
    var _ := recursive.XiGraph(index, bit);
    assert [] + Whole(index, bit) == Whole(index, bit);
  }
}
