/**
 * The closed form: the parents of a node computed from its number alone, and the proof that they
 * are the parents the layout gives it, in the same order.
 */
module XiParents {

  import opened Powers
  import opened XiLayout

  /** ButterflyParents: the two parents of a node of the butterfly below index k that starts at begin. */
  function ButterflyParents(begin: int, node: int, k: nat): (int, int)
    requires k >= 2 && begin <= node
  {
    var h := Pow2(k - 1);
    var level := (node - begin) / h;
    var shift := if level > k - 1 then level - (k - 1) else k - 1 - level;
    var i := (node - begin) % h;
    var prev := if i / Pow2(shift) % 2 == 0 then i + Pow2(shift) else i - Pow2(shift);
    (begin + (level - 1) * h + prev, node - h)
  }

  /** GetGraph: how far back the parents of a node of the graph of index k lie, zero for none. */
  function Offsets(node: int, k: nat): (int, int)
    requires k >= 1
    decreases k
  {
    if k == 1 && node < 2 then (2, 0)
    else if k == 1 && node == 2 then (1, 2)
    else if k == 1 && node == 3 then (3, 2)
    else
      var n, h := Pow2(k), Pow2(k - 1);
      var firstButter := n + NumButterfly(k - 1);
      var firstXi := firstButter + NumXi(k - 1);
      var secondXi := firstXi + NumXi(k - 1);
      var secondButter := secondXi + NumButterfly(k - 1);
      var sinks := secondButter + n;
      if node < n then (n, 0)
      else if node < firstButter then
        if node < n + h then (n, h)
        else var p := ButterflyParents(n, node, k); (node - p.0, node - p.1)
      else if node < firstXi then Offsets(node - firstButter, k - 1)
      else if node < secondXi then Offsets(node - firstXi, k - 1)
      else if node < secondButter then
        if node < secondXi + h then (h, 0)
        else var p := ButterflyParents(secondXi, node, k); (node - p.0, node - p.1)
      else if node < sinks then
        var offset := (node - secondButter) % h;
        var parent := sinks - NumXi(k) + offset;
        if offset + secondButter == node then (h, node - parent) else (n, node - parent - h)
      else (0, 0)
  }

  /** The nodes at the given offsets, leaving out a zero offset. */
  function Back(node: int, o: (int, int)): seq<int> {
    (if o.0 != 0 then [node - o.0] else []) + (if o.1 != 0 then [node - o.1] else [])
  }

  /** GetParents */
  function GetParents(node: int, k: nat): seq<int>
    requires k >= 1
  {
    if node < Pow2(k) then [] else Back(node, Offsets(node, k))
  }

  /** A write of the given node whose parents are those of the closed form. */
  predicate AgreesAt(w: Write, node: int, k: nat)
    requires k >= 1
  {
    w.parents == Back(w.id, Offsets(node, k))
  }

  /** Every write of ws agrees with the closed form of a graph of index k at base. */
  ghost predicate AllAgree(ws: seq<Write>, base: int, k: nat)
    requires k >= 1
  {
    forall p: nat, node: int {:trigger AgreesAt(ws[p], node, k)} ::
      p < |ws| && ws[p].id == base + node ==> AgreesAt(ws[p], node, k)
  }

  lemma AllAgreeAppend(a: seq<Write>, b: seq<Write>, base: int, k: nat)
    requires k >= 1 && AllAgree(a, base, k) && AllAgree(b, base, k)
    ensures AllAgree(a + b, base, k)
  {
    var ws := a + b;
    forall p: nat, node: int | p < |ws| && ws[p].id == base + node
      ensures AgreesAt(ws[p], node, k)
    {
      if p < |a| {
        assert AgreesAt(a[p], node, k);
      } else {
        assert AgreesAt(b[p - |a|], node, k);
      }
    }
  }

  // ---- where a node falls ----

  /** The ends of the stages of the graph of index k, relative to its first node. */
  datatype Ends = Ends(n: nat, h: nat, c1: nat, c2: nat, c3: nat, c4: nat)

  predicate EndsOf(k: nat, e: Ends)
    requires k >= 2
  {
    && e.n == Pow2(k) && e.h == Pow2(k - 1)
    && e.c1 == e.n + NumButterfly(k - 1)
    && e.c2 == e.c1 + NumXi(k - 1)
    && e.c3 == e.c2 + NumXi(k - 1)
    && e.c4 == e.c3 + NumButterfly(k - 1)
  }

  lemma EndsAdvance(k: nat, e: Ends)
    requires k >= 2 && EndsOf(k, e)
    ensures e.n == 2 * e.h && e.h >= 1 && e.n + e.n <= e.c1 && e.c1 + e.n <= e.c2 && e.c2 + e.n <= e.c3 && e.c3 + e.n <= e.c4
    ensures e.c4 + e.n == NumXi(k)
  {
  }

  function MakeEnds(k: nat): (e: Ends)
    requires k >= 2
    ensures EndsOf(k, e)
  {
    var n, c1 := Pow2(k), Pow2(k) + NumButterfly(k - 1);
    var c2 := c1 + NumXi(k - 1);
    var c3 := c2 + NumXi(k - 1);
    Ends(n, Pow2(k - 1), c1, c2, c3, c3 + NumButterfly(k - 1))
  }

  // The closed form in each stage, with the stage ends named.

  lemma FirstStageOffsets(k: nat, e: Ends, node: int)
    requires k >= 2 && EndsOf(k, e) && e.n <= node < e.c1
    ensures Offsets(node, k) ==
      if node < e.n + e.h then (e.n, e.h) else var p := ButterflyParents(e.n, node, k); (node - p.0, node - p.1)
  {
  }

  lemma NestedOffsets(k: nat, e: Ends, node: int)
    requires k >= 2 && EndsOf(k, e) && e.c1 <= node < e.c3
    ensures Offsets(node, k) == if node < e.c2 then Offsets(node - e.c1, k - 1) else Offsets(node - e.c2, k - 1)
  {
    EndsAdvance(k, e);
  }

  lemma FourthStageOffsets(k: nat, e: Ends, node: int)
    requires k >= 2 && EndsOf(k, e) && e.c3 <= node < e.c4
    ensures Offsets(node, k) ==
      if node < e.c3 + e.h then (e.h, 0) else var p := ButterflyParents(e.c3, node, k); (node - p.0, node - p.1)
  {
    EndsAdvance(k, e);
  }

  lemma SinkOffsets(k: nat, e: Ends, node: int, i: int)
    requires k >= 2 && EndsOf(k, e) && e.c4 <= node < e.c4 + e.n && e.h >= 1 && i == (node - e.c4) % e.h
    ensures Offsets(node, k) == if node == e.c4 + i then (e.h, node - i) else (e.n, node - i - e.h)
  {
    EndsAdvance(k, e);
  }

  // ---- butterflies ----

  /** The closed form of a butterfly node from its level and its place in the level. */
  lemma ButterflyParentsAt(begin: int, k: nat, h: nat, level: nat, first: int, i: nat, node: int)
    requires k >= 2 && h == Pow2(k - 1) && 1 <= level && i < h && first == begin + level * h && node == first + i
    ensures begin <= node
    ensures ButterflyParents(begin, node, k) == (first - h + Flip(i, Turn(k - 1, level)), first - h + i)
  {
    assert (level + 1) * h == level * h + h && (level - 1) * h == level * h - h;
    assert level * h >= 0;
    DivUnique(level * h + i, h, level);
  }

  /** Whether a level lies within its butterfly. */
  lemma ButterflyRoom(k: nat, h: nat, level: nat)
    requires k >= 2 && h == Pow2(k - 1) && 1 <= level < 2 * (k - 1)
    ensures h <= level * h && level * h + h <= NumButterfly(k - 1)
  {
    MulMonotone(1, level, h);
    MulMonotone(level + 1, 2 * (k - 1), h);
    NumButterflyFormula(k - 1);
    assert (level + 1) * h == level * h + h;
    assert (2 * (k - 1)) * h == 2 * h * (k - 1);
  }

  /** A butterfly whose level zero is at `begin` relative to the graph: one of the two. */
  predicate IsButterfly(k: nat, e: Ends, begin: int)
    requires k >= 2
  {
    begin == e.n || begin == e.c3
  }

  lemma ButterflyOffsets(k: nat, e: Ends, begin: int, node: int)
    requires k >= 2 && EndsOf(k, e) && IsButterfly(k, e, begin) && begin + e.h <= node < begin + NumButterfly(k - 1)
    ensures Offsets(node, k) == (node - ButterflyParents(begin, node, k).0, node - ButterflyParents(begin, node, k).1)
  {
    EndsAdvance(k, e);
    if begin == e.n {
      FirstStageOffsets(k, e, node);
    } else {
      FourthStageOffsets(k, e, node);
    }
  }

  /** Two parents at positive offsets. */
  lemma BackTwo(id: int, a: int, b: int)
    requires a > 0 && b > 0
    ensures Back(id, (a, b)) == [id - a, id - b]
  {
  }

  lemma BackOne(id: int, a: int)
    requires a > 0
    ensures Back(id, (a, 0)) == [id - a]
  {
  }

  lemma LevelNodeAgrees(k: nat, e: Ends, begin: int, base: int, level: nat, c: int, i: nat, node: int)
    requires k >= 2 && EndsOf(k, e) && IsButterfly(k, e, begin) && 1 <= level < 2 * (k - 1) && i < e.h
    requires c == base + begin + level * e.h && base + node == c + i
    ensures AgreesAt(Level(k - 1, level, c)[i], node, k)
  {
    var h, first := e.h, begin + level * e.h;
    ButterflyRoom(k, h, level);
    ButterflyParentsAt(begin, k, h, level, first, i, node);
    ButterflyOffsets(k, e, begin, node);
    var f := Flip(i, Turn(k - 1, level));
    FlipInRange(i, Turn(k - 1, level), k - 1);
    BackTwo(c + i, node - (first - h + f), h);
  }

  lemma LevelAgrees(k: nat, e: Ends, begin: int, base: int, level: nat, c: int)
    requires k >= 2 && EndsOf(k, e) && IsButterfly(k, e, begin) && 1 <= level < 2 * (k - 1)
    requires c == base + begin + level * e.h
    ensures AllAgree(Level(k - 1, level, c), base, k)
  {
    var ws := Level(k - 1, level, c);
    forall p: nat, node: int | p < |ws| && ws[p].id == base + node
      ensures AgreesAt(ws[p], node, k)
    {
      LevelNodeAgrees(k, e, begin, base, level, c, p, node);
    }
  }

  lemma {:induction false} ButterflyAgrees(k: nat, e: Ends, begin: int, base: int, level: nat, c: int)
    requires k >= 2 && EndsOf(k, e) && IsButterfly(k, e, begin) && 1 <= level <= 2 * (k - 1)
    requires c == base + begin + level * e.h
    ensures AllAgree(Butterfly(k - 1, level, c), base, k)
    decreases 2 * k - level
  {
    if level < 2 * (k - 1) {
      var next := c + e.h;
      assert (level + 1) * e.h == level * e.h + e.h;
      LevelAgrees(k, e, begin, base, level, c);
      ButterflyAgrees(k, e, begin, base, level + 1, next);
      AllAgreeAppend(Level(k - 1, level, c), Butterfly(k - 1, level + 1, next), base, k);
      LevelFirst(k - 1, level, c, next);
    }
  }

  lemma LevelFirst(n: nat, level: nat, c: int, next: int)
    requires level < 2 * n && next == c + Pow2(n)
    ensures Butterfly(n, level, c) == Level(n, level, c) + Butterfly(n, level + 1, next)
  {
  }

  /** A row that agrees and the butterfly it starts. */
  lemma RowAndButterflyAgree(row: seq<Write>, k: nat, e: Ends, begin: int, base: int, at: int)
    requires k >= 2 && EndsOf(k, e) && IsButterfly(k, e, begin) && AllAgree(row, base, k) && at == base + begin + e.h
    ensures AllAgree(row + Butterfly(k - 1, 1, at), base, k)
  {
    ButterflyAgrees(k, e, begin, base, 1, at);
    AllAgreeAppend(row, Butterfly(k - 1, 1, at), base, k);
  }

  // ---- stage by stage ----

  lemma MergeNodeAgrees(k: nat, e: Ends, base: int, c: int, i: nat, node: int)
    requires k >= 2 && EndsOf(k, e) && c == base + e.n && i < e.h && base + node == c + i
    ensures AgreesAt(Merge(e.h, c)[i], node, k)
  {
    EndsAdvance(k, e);
    FirstStageOffsets(k, e, node);
    BackTwo(c + i, e.n, e.h);
  }

  lemma FirstStageAgrees(k: nat, e: Ends, base: int, c: int)
    requires k >= 2 && EndsOf(k, e) && c == base + e.n
    ensures AllAgree(FirstStage(k, c), base, k)
  {
    var row, at := Merge(e.h, c), c + e.h;
    forall p: nat, node: int | p < |row| && row[p].id == base + node
      ensures AgreesAt(row[p], node, k)
    {
      MergeNodeAgrees(k, e, base, c, p, node);
    }
    RowAndButterflyAgree(row, k, e, e.n, base, at);
    StageParts(k, c, at);
  }

  lemma RungAgrees(k: nat, e: Ends, base: int, c: int, i: nat, node: int)
    requires k >= 2 && EndsOf(k, e) && c == base + e.c3 && i < e.h && base + node == c + i
    ensures AgreesAt(Ladder(e.h, c)[i], node, k)
  {
    EndsAdvance(k, e);
    FourthStageOffsets(k, e, node);
    BackOne(c + i, e.h);
  }

  lemma FourthStageAgrees(k: nat, e: Ends, base: int, c: int)
    requires k >= 2 && EndsOf(k, e) && c == base + e.c3
    ensures AllAgree(FourthStage(k, c), base, k)
  {
    var row, at := Ladder(e.h, c), c + e.h;
    forall p: nat, node: int | p < |row| && row[p].id == base + node
      ensures AgreesAt(row[p], node, k)
    {
      RungAgrees(k, e, base, c, p, node);
    }
    RowAndButterflyAgree(row, k, e, e.c3, base, at);
    StageParts(k, c, at);
  }

  /** Where a sink lies in its half of the row. */
  lemma SinkPlace(h: nat, i: nat, d: nat)
    requires i < h && (d == i || d == i + h)
    ensures d % h == i
  {
    DivUnique(d, h, if d == i then 0 else 1);
  }

  lemma SinkAgrees(k: nat, e: Ends, base: int, w: Write, i: nat, d: nat, node: int)
    requires k >= 2 && EndsOf(k, e) && i < e.h && (d == i || d == i + e.h) && node == e.c4 + d
    requires w == Write(base + node, [base + e.c4 - e.h + i, base + d])
    ensures AgreesAt(w, node, k)
  {
    EndsAdvance(k, e);
    SinkPlace(e.h, i, d);
    SinkOffsets(k, e, node, i);
    if d == i {
      BackTwo(w.id, e.h, node - i);
    } else {
      BackTwo(w.id, e.n, node - i - e.h);
    }
  }

  lemma SinksAgree(k: nat, e: Ends, base: int, c: int)
    requires k >= 2 && EndsOf(k, e) && c == base + e.c4
    ensures AllAgree(Sinks(e.h, c, base), base, k)
  {
    var ws := Sinks(e.h, c, base);
    forall p: nat, node: int | p < |ws| && ws[p].id == base + node
      ensures AgreesAt(ws[p], node, k)
    {
      SinkAt(e.h, c, base, p);
      SinkAgrees(k, e, base, ws[p], p / 2, p / 2 + if p % 2 == 0 then 0 else e.h, node);
    }
  }

  // ---- nested graphs ----

  lemma NestedNodeAgrees(w: Write, k: nat, e: Ends, inner: int, node: int)
    requires k >= 2 && EndsOf(k, e) && (inner == e.c1 || inner == e.c2) && inner <= node < inner + NumXi(k - 1)
    requires AgreesAt(w, node - inner, k - 1)
    ensures AgreesAt(w, node, k)
  {
    EndsAdvance(k, e);
    NestedOffsets(k, e, node);
  }

  /** A graph of index k - 1 at one of the two nested places agrees with the closed form of index k. */
  lemma NestedAgrees(ws: seq<Write>, k: nat, e: Ends, base: int, c: int, inner: int)
    requires k >= 2 && EndsOf(k, e) && (inner == e.c1 || inner == e.c2) && c == base + inner
    requires AllAgree(ws, c, k - 1)
    requires forall p: nat :: p < |ws| ==> c <= ws[p].id < c + NumXi(k - 1)
    ensures AllAgree(ws, base, k)
  {
    forall p: nat, node: int | p < |ws| && ws[p].id == base + node
      ensures AgreesAt(ws[p], node, k)
    {
      assert AgreesAt(ws[p], node - inner, k - 1);
      NestedNodeAgrees(ws[p], k, e, inner, node);
    }
  }

  lemma SourcesBack(k: nat, n: nat, node: int)
    requires k >= 1 && n == Pow2(k) && node < n
    ensures Offsets(node, k) == (n, 0)
  {
  }

  /** The row that feeds a nested graph is that graph's row of sources. */
  lemma LadderAgrees(k: nat, n: nat, c: int)
    requires k >= 1 && n == Pow2(k)
    ensures AllAgree(Ladder(n, c), c, k)
  {
    var ws := Ladder(n, c);
    forall p: nat, node: int | p < |ws| && ws[p].id == c + node
      ensures AgreesAt(ws[p], node, k)
    {
      SourcesBack(k, n, node);
      BackOne(c + node, n);
    }
  }

  lemma XiStageIds(k: nat, c: int)
    requires k >= 2
    ensures forall p: nat :: p < |XiStage(k, c)| ==> c <= XiStage(k, c)[p].id < c + NumXi(k - 1)
  {
    XiStageGenerates(k, c - Pow2(k - 1), c);
  }

  lemma {:induction false} InnerAgrees(k: nat, c: int, at: int)
    requires k >= 1 && at == c + Pow2(k)
    ensures AllAgree(Ladder(Pow2(k), c) + Body(k, at), c, k)
    decreases k, 2
  {
    LadderAgrees(k, Pow2(k), c);
    BodyAgrees(k, c, at);
    AllAgreeAppend(Ladder(Pow2(k), c), Body(k, at), c, k);
  }

  lemma {:induction false} XiStageAgrees(k: nat, e: Ends, base: int, c: int, inner: int)
    requires k >= 2 && EndsOf(k, e) && (inner == e.c1 || inner == e.c2) && c == base + inner
    ensures AllAgree(XiStage(k, c), base, k)
    decreases k - 1, 3
  {
    var at := c + Pow2(k - 1);
    XiStageIds(k, c);
    InnerAgrees(k - 1, c, at);
    StageParts(k, c, at);
    NestedAgrees(XiStage(k, c), k, e, base, c, inner);
  }

  lemma FiveAgree(s0: seq<Write>, s1: seq<Write>, s2: seq<Write>, s3: seq<Write>, s4: seq<Write>, base: int, k: nat)
    requires k >= 1 && AllAgree(s0, base, k) && AllAgree(s1, base, k) && AllAgree(s2, base, k)
    requires AllAgree(s3, base, k) && AllAgree(s4, base, k)
    ensures AllAgree(s0 + (s1 + (s2 + (s3 + s4))), base, k)
  {
    AllAgreeAppend(s3, s4, base, k);
    AllAgreeAppend(s2, s3 + s4, base, k);
    AllAgreeAppend(s1, s2 + (s3 + s4), base, k);
    AllAgreeAppend(s0, s1 + (s2 + (s3 + s4)), base, k);
  }

  lemma {:induction false} StagesAgree(k: nat, base: int, c: int, c1: int, c2: int, c3: int, c4: int)
    requires k >= 2 && c == base + Pow2(k)
    requires c1 == FirstXi(k, c) && c2 == SecondXi(k, c) && c3 == SecondButter(k, c) && c4 == FirstSink(k, c)
    ensures AllAgree(Body(k, c), base, k)
    decreases k, 0
  {
    var e := MakeEnds(k);
    FirstStageAgrees(k, e, base, c);
    XiStageAgrees(k, e, base, c1, e.c1);
    XiStageAgrees(k, e, base, c2, e.c2);
    FourthStageAgrees(k, e, base, c3);
    SinksAgree(k, e, base, c4);
    FiveAgree(FirstStage(k, c), XiStage(k, c1), XiStage(k, c2), FourthStage(k, c3), Sinks(e.h, c4, base), base, k);
    BodyUnfolds(k, base, c);
  }

  /** Every write of the layout has exactly the parents of the closed form, in its order. */
  lemma {:induction false} BodyAgrees(k: nat, base: int, c: int)
    requires k >= 1 && c == base + Pow2(k)
    ensures AllAgree(Body(k, c), base, k)
    decreases k, 1
  {
    if k == 1 {
      SmallestAgrees(base, c);
    } else {
      StagesAgree(k, base, c, FirstXi(k, c), SecondXi(k, c), SecondButter(k, c), FirstSink(k, c));
    }
  }

  lemma SmallestAgrees(base: int, c: int)
    requires c == base + 2
    ensures AllAgree(Body(1, c), base, 1)
  {
    assert Butterfly(1, 2, c + 2) == [];
    var ws := Level(1, 1, c);
    assert Body(1, c) == ws + [];
    assert Flip(0, 0) == 1 && Flip(1, 0) == 0;
    assert AgreesAt(ws[0], 2, 1) && AgreesAt(ws[1], 3, 1);
  }

  // ---- the whole graph ----

  /** base + each of the nodes */
  function Shifted(nodes: seq<int>, base: int): (r: seq<int>)
    ensures |r| == |nodes|
  {
    seq(|nodes|, j requires 0 <= j < |nodes| => base + nodes[j])
  }

  lemma BackShifted(node: int, base: int, id: int, o: (int, int))
    requires id == base + node
    ensures Back(id, o) == Shifted(Back(node, o), base)
  {
  }

  /**
   * For every index and every node of the graph: the generated writes contain exactly one write of
   * it, and that write's parents are those the closed form computes, in the same order.
   */
  lemma ClosedFormIsLayout(k: nat, base: int, id: int, node: int)
    requires k >= 1 && id == base + node && 0 <= node < NumXi(k)
    ensures exists p: nat :: WritesAt(Whole(k, base), p, id)
    ensures forall p: nat :: WritesAt(Whole(k, base), p, id) ==>
      Whole(k, base)[p] == Write(id, Shifted(GetParents(node, k), base))
    ensures forall p: nat, q: nat :: WritesAt(Whole(k, base), p, id) && WritesAt(Whole(k, base), q, id) ==> p == q
  {
    var ws := Whole(k, base);
    WholeGenerates(k, base);
    assert WrittenBefore(ws, |ws|, id);
    forall p: nat | WritesAt(ws, p, id)
      ensures ws[p] == Write(id, Shifted(GetParents(node, k), base))
    {
      WriteAgrees(k, base, p, node);
    }
  }

  lemma ParentsAreBack(node: int, k: nat)
    requires k >= 1 && node >= Pow2(k)
    ensures GetParents(node, k) == Back(node, Offsets(node, k))
  {
  }

  lemma BodyWriteAgrees(k: nat, base: int, c: int, p: nat, node: int)
    requires k >= 1 && c == base + Pow2(k) && p < |Body(k, c)| && Body(k, c)[p].id == base + node
    ensures Body(k, c)[p].parents == Shifted(GetParents(node, k), base)
  {
    var ws := Body(k, c);
    assert node >= Pow2(k) by { BodyGenerates(k, base, c); }
    assert AgreesAt(ws[p], node, k) by { BodyAgrees(k, base, c); }
    ParentsAreBack(node, k);
    BackShifted(node, base, ws[p].id, Offsets(node, k));
  }

  lemma WriteAgrees(k: nat, base: int, p: nat, node: int)
    requires k >= 1 && p < |Whole(k, base)| && Whole(k, base)[p].id == base + node
    ensures Whole(k, base)[p].parents == Shifted(GetParents(node, k), base)
  {
    var n, c := Pow2(k), base + Pow2(k);
    WholeParts(k, base, c);
    if p < n {
      assert Whole(k, base)[p] == Sources(n, base)[p];
    } else {
      assert Whole(k, base)[p] == Body(k, c)[p - n];
      BodyWriteAgrees(k, base, c, p - n, node);
    }
  }
}
