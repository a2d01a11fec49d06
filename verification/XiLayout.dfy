/**
 * The layout of the proof-of-space graph: which node is written when, and from which parents. The
 * generators are proved to perform exactly these writes; the closed form is proved to name
 * exactly these parents.
 */
module XiLayout {

  import opened Powers

  /** One node written, from the hashes of the given parents in that order. */
  datatype Write = Write(id: int, parents: seq<int>)

  // ---- sizes ----

  /** The nodes of a graph: sources and sinks, two butterflies, two smaller graphs. */
  function NumXi(k: nat): nat {
    if k == 0 then 0 else 2 * Pow2(k) + 2 * NumButterfly(k - 1) + 2 * NumXi(k - 1)
  }

  /** The nodes of a butterfly: 2k levels of 2^k. */
  function NumButterfly(k: nat): nat {
    if k == 0 then 0 else 2 * NumButterfly(k - 1) + 2 * Pow2(k)
  }

  /** The product that numButterfly computes. */
  lemma {:induction false} NumButterflyFormula(k: nat)
    ensures NumButterfly(k) == 2 * Pow2(k) * k
  {
    if k > 0 {
      NumButterflyFormula(k - 1);
      var h := Pow2(k - 1);
      assert 2 * h * (k - 1) == 2 * h * k - 2 * h;
    }
  }

  /** The product that numXi computes. */
  lemma {:induction false} NumXiFormula(k: nat)
    ensures NumXi(k) == Pow2(k) * (k + 1) * k
  {
    if k > 0 {
      NumXiFormula(k - 1);
      NumButterflyFormula(k - 1);
      XiProduct(Pow2(k - 1), k);
    }
  }

  lemma XiProduct(h: nat, k: nat)
    requires k >= 1
    ensures 2 * (2 * h) + 2 * (2 * h * (k - 1)) + 2 * (h * k * (k - 1)) == 2 * h * (k + 1) * k
  {
    var q := h * k;
    assert 2 * h * (k - 1) == 2 * q - 2 * h;
    assert h * k * (k - 1) == q * k - q;
    assert 2 * h * (k + 1) * k == 2 * ((k + 1) * q) == 2 * (q * k + q);
  }

  // ---- stages ----

  /** Roots, with no parent. */
  function Sources(n: nat, c: int): (ws: seq<Write>)
    ensures |ws| == n
  {
    seq(n, i => Write(c + i, []))
  }

  /** Each of h nodes from two nodes of the 2h before them. */
  function Merge(h: nat, c: int): (ws: seq<Write>)
    ensures |ws| == h
  {
    seq(h, i => Write(c + i, [c - 2 * h + i, c - h + i]))
  }

  /** Each of h nodes from its counterpart in the h before them. */
  function Ladder(h: nat, c: int): (ws: seq<Write>)
    ensures |ws| == h
  {
    seq(h, i => Write(c + i, [c - h + i]))
  }

  /** The sinks, written in pairs: one from each half, from the row before and a source each. */
  function Sinks(h: nat, c: int, sources: int): (ws: seq<Write>)
    ensures |ws| == 2 * h
  {
    seq(2 * h, j requires j >= 0 =>
      if j % 2 == 0 then Write(c + j / 2, [c - h + j / 2, sources + j / 2])
      else Write(c + h + j / 2, [c - h + j / 2, sources + h + j / 2]))
  }

  /** Which bit a butterfly level flips: down to bit zero, then up again. */
  function Turn(n: nat, level: nat): (s: nat)
    ensures n >= 1 && 1 <= level < 2 * n ==> s < n
  {
    if level > n then level - n else n - level
  }

  function Level(n: nat, level: nat, c: int): (ws: seq<Write>)
    ensures |ws| == Pow2(n)
  {
    var p := Pow2(n);
    seq(p, i requires i >= 0 => Write(c + i, [c - p + Flip(i, Turn(n, level)), c - p + i]))
  }

  /** The levels of a butterfly of 2n levels from the given one on, the first starting at c. */
  function Butterfly(n: nat, level: nat, c: int): seq<Write>
    decreases 2 * n - level
  {
    if level >= 2 * n then [] else Level(n, level, c) + Butterfly(n, level + 1, c + Pow2(n))
  }

  // ---- the five stages of a graph ----

  /** The first node after each stage of the graph of index k whose sources end at c. */
  function FirstXi(k: nat, c: int): int
    requires k >= 1
  {
    c + NumButterfly(k - 1)
  }

  function SecondXi(k: nat, c: int): int
    requires k >= 1
  {
    FirstXi(k, c) + NumXi(k - 1)
  }

  function SecondButter(k: nat, c: int): int
    requires k >= 1
  {
    SecondXi(k, c) + NumXi(k - 1)
  }

  function FirstSink(k: nat, c: int): int
    requires k >= 1
  {
    SecondButter(k, c) + NumButterfly(k - 1)
  }

  function FirstStage(k: nat, c: int): seq<Write>
    requires k >= 2
  {
    Merge(Pow2(k - 1), c) + Butterfly(k - 1, 1, c + Pow2(k - 1))
  }

  function XiStage(k: nat, c: int): seq<Write>
    requires k >= 2
    decreases k, 0
  {
    Ladder(Pow2(k - 1), c) + Body(k - 1, c + Pow2(k - 1))
  }

  function FourthStage(k: nat, c: int): seq<Write>
    requires k >= 2
  {
    Ladder(Pow2(k - 1), c) + Butterfly(k - 1, 1, c + Pow2(k - 1))
  }

  /** All writes of the graph of index k after its sources, which are the 2^k nodes before c. */
  function Body(k: nat, c: int): seq<Write>
    requires k >= 1
    decreases k, 1
  {
    if k == 1 then Butterfly(1, 1, c)
    else
      FirstStage(k, c) + (XiStage(k, FirstXi(k, c)) + (XiStage(k, SecondXi(k, c)) + (
      FourthStage(k, SecondButter(k, c)) + Sinks(Pow2(k - 1), FirstSink(k, c), c - Pow2(k)))))
  }

  lemma BodyUnfolds(k: nat, start: int, c: int)
    requires k >= 2 && c == start + Pow2(k)
    ensures Body(k, c) ==
      FirstStage(k, c) + (XiStage(k, FirstXi(k, c)) + (XiStage(k, SecondXi(k, c)) + (
      FourthStage(k, SecondButter(k, c)) + Sinks(Pow2(k - 1), FirstSink(k, c), start))))
  {
  }

  /** The whole graph from its first node. */
  function Whole(k: nat, start: int): seq<Write>
    requires k >= 1
  {
    Sources(Pow2(k), start) + Body(k, start + Pow2(k))
  }

  // ---- every node once, after its parents ----

  predicate WritesAt(ws: seq<Write>, p: nat, id: int) {
    p < |ws| && ws[p].id == id
  }

  /** Some write before position p produces id. */
  predicate WrittenBefore(ws: seq<Write>, p: nat, id: int) {
    exists q: nat :: q < p && WritesAt(ws, q, id)
  }

  /** The parents of every write have lower ids, and are nodes of [low, first) or written earlier in ws. */
  predicate ReadsWritten(ws: seq<Write>, low: int, first: int) {
    forall p: nat, j: nat :: p < |ws| && j < |ws[p].parents| ==>
      var id := ws[p].parents[j]; id < ws[p].id && (low <= id < first || WrittenBefore(ws, p, id))
  }

  /** ws writes each of [first, next) exactly once. */
  predicate EachOnce(ws: seq<Write>, first: int, next: int) {
    && |ws| == next - first
    && (forall p: nat :: p < |ws| ==> first <= ws[p].id < next)
    && (forall p: nat, q: nat :: p < q < |ws| ==> ws[p].id != ws[q].id)
    && (forall id :: first <= id < next ==> WrittenBefore(ws, |ws|, id))
  }

  predicate Generates(ws: seq<Write>, low: int, first: int, next: int) {
    low <= first && EachOnce(ws, first, next) && ReadsWritten(ws, low, first)
  }

  lemma WrittenEarlier(a: seq<Write>, b: seq<Write>, p: nat, id: int)
    ensures p <= |a| && WrittenBefore(a, p, id) ==> WrittenBefore(a + b, p, id)
    ensures p <= |b| && WrittenBefore(b, p, id) ==> WrittenBefore(a + b, |a| + p, id)
  {
    if p <= |a| && WrittenBefore(a, p, id) {
      var q: nat :| q < p && WritesAt(a, q, id);
      assert WritesAt(a + b, q, id);
    }
    if p <= |b| && WrittenBefore(b, p, id) {
      var q: nat :| q < p && WritesAt(b, q, id);
      assert WritesAt(a + b, |a| + q, id);
    }
  }

  lemma LaterStillWritten(ws: seq<Write>, p: nat, q: nat, id: int)
    requires p <= q && WrittenBefore(ws, p, id)
    ensures WrittenBefore(ws, q, id)
  {
    var r: nat :| r < p && WritesAt(ws, r, id);
    assert WritesAt(ws, r, id);
  }

  lemma EachOnceAppends(a: seq<Write>, b: seq<Write>, first: int, mid: int, next: int)
    requires EachOnce(a, first, mid) && EachOnce(b, mid, next)
    ensures EachOnce(a + b, first, next)
  {
    forall id | first <= id < next
      ensures WrittenBefore(a + b, |a + b|, id)
    {
      if id < mid {
        WrittenEarlier(a, b, |a|, id);
        LaterStillWritten(a + b, |a|, |a + b|, id);
      } else {
        WrittenEarlier(a, b, |b|, id);
      }
    }
  }

  lemma ReadsAppend(a: seq<Write>, b: seq<Write>, low: int, first: int, mid: int, next: int)
    requires Generates(a, low, first, mid) && EachOnce(b, mid, next) && ReadsWritten(b, low, mid)
    ensures ReadsWritten(a + b, low, first)
  {
    var ws := a + b;
    forall p: nat, j: nat | p < |ws| && j < |ws[p].parents|
      ensures var id := ws[p].parents[j]; id < ws[p].id && (low <= id < first || WrittenBefore(ws, p, id))
    {
      var id := ws[p].parents[j];
      if p < |a| {
        WrittenEarlier(a, b, p, id);
      } else if first <= id < mid {
        WrittenEarlier(a, b, |a|, id);
        LaterStillWritten(ws, |a|, p, id);
      } else {
        WrittenEarlier(a, b, p - |a|, id);
      }
    }
  }

  lemma GeneratesAppend(a: seq<Write>, b: seq<Write>, low: int, first: int, inner: int, mid: int, next: int)
    requires Generates(a, low, first, mid) && Generates(b, inner, mid, next) && low <= inner
    ensures Generates(a + b, low, first, next)
  {
    assert mid >= first;
    EachOnceAppends(a, b, first, mid, next);
    assert ReadsWritten(b, low, mid);
    ReadsAppend(a, b, low, first, mid, next);
  }

  /** A row of consecutive nodes whose parents all come before it. */
  lemma RowGenerates(ws: seq<Write>, low: int, first: int)
    requires low <= first
    requires forall p: nat :: p < |ws| ==> ws[p].id == first + p
    requires forall p: nat, j: nat :: p < |ws| && j < |ws[p].parents| ==> low <= ws[p].parents[j] < first
    ensures Generates(ws, low, first, first + |ws|)
  {
    forall id | first <= id < first + |ws|
      ensures WrittenBefore(ws, |ws|, id)
    {
      assert WritesAt(ws, id - first, id);
    }
  }

  lemma SinkAt(h: nat, c: int, sources: int, j: nat)
    requires j < 2 * h
    ensures Sinks(h, c, sources)[j].id == c + j / 2 + (if j % 2 == 0 then 0 else h)
    ensures Sinks(h, c, sources)[j].parents == [c - h + j / 2, sources + j / 2 + (if j % 2 == 0 then 0 else h)]
  {
  }

  lemma SinksOnce(h: nat, c: int, sources: int)
    ensures EachOnce(Sinks(h, c, sources), c, c + 2 * h)
  {
    var ws := Sinks(h, c, sources);
    forall p: nat | p < |ws|
      ensures c <= ws[p].id < c + 2 * h
    {
      SinkAt(h, c, sources, p);
    }
    forall p: nat, q: nat | p < q < |ws|
      ensures ws[p].id != ws[q].id
    {
      SinkAt(h, c, sources, p);
      SinkAt(h, c, sources, q);
      assert p == 2 * (p / 2) + p % 2 && q == 2 * (q / 2) + q % 2;
    }
    forall id | c <= id < c + 2 * h
      ensures WrittenBefore(ws, |ws|, id)
    {
      var p := if id < c + h then 2 * (id - c) else 2 * (id - c - h) + 1;
      SinkAt(h, c, sources, p);
      assert WritesAt(ws, p, id);
    }
  }

  lemma SinksGenerate(h: nat, c: int, sources: int)
    requires sources + 2 * h <= c - h
    ensures Generates(Sinks(h, c, sources), sources, c, c + 2 * h)
  {
    var ws := Sinks(h, c, sources);
    SinksOnce(h, c, sources);
    forall p: nat, j: nat | p < |ws| && j < |ws[p].parents|
      ensures sources <= ws[p].parents[j] < c
    {
      SinkAt(h, c, sources, p);
    }
  }

  lemma LevelGenerates(n: nat, level: nat, c: int)
    requires n >= 1 && 1 <= level < 2 * n
    ensures Generates(Level(n, level, c), c - Pow2(n), c, c + Pow2(n))
  {
    var ws := Level(n, level, c);
    forall p: nat, j: nat | p < |ws| && j < |ws[p].parents|
      ensures c - Pow2(n) <= ws[p].parents[j] < c
    {
      FlipInRange(p, Turn(n, level), n);
    }
    RowGenerates(ws, c - Pow2(n), c);
  }

  /** How many nodes the levels of a butterfly from the given one on have. */
  function LevelsSize(n: nat, level: nat): nat
    decreases 2 * n - level
  {
    if level >= 2 * n then 0 else Pow2(n) + LevelsSize(n, level + 1)
  }

  lemma {:induction false} LevelsSizeFormula(n: nat, level: nat)
    requires level <= 2 * n
    ensures LevelsSize(n, level) == (2 * n - level) * Pow2(n)
    decreases 2 * n - level
  {
    if level < 2 * n {
      LevelsSizeFormula(n, level + 1);
      var p, m := Pow2(n), 2 * n - level - 1;
      assert (m + 1) * p == m * p + p;
    }
  }

  /** Cross edges pair the nodes of a level: the cross parent of i's partner is the straight parent of i. */
  lemma CrossEdgesPair(n: nat, level: nat, c: int, i: nat)
    requires 1 <= level < 2 * n && i < Pow2(n)
    ensures var j := Flip(i, Turn(n, level));
      && j < Pow2(n) && j != i
      && Level(n, level, c)[j].parents == [Level(n, level, c)[i].parents[1], Level(n, level, c)[i].parents[0]]
  {
    FlipInRange(i, Turn(n, level), n);
    FlipTwice(i, Turn(n, level));
  }

  lemma {:induction false} ButterflyGenerates(n: nat, level: nat, c: int)
    requires n >= 1 && 1 <= level <= 2 * n
    ensures Generates(Butterfly(n, level, c), c - Pow2(n), c, c + LevelsSize(n, level))
    decreases 2 * n - level
  {
    var p := Pow2(n);
    if level == 2 * n {
      RowGenerates([], c - p, c);
    } else {
      LevelGenerates(n, level, c);
      ButterflyGenerates(n, level + 1, c + p);
      GeneratesAppend(Level(n, level, c), Butterfly(n, level + 1, c + p), c - p, c, c, c + p, c + LevelsSize(n, level));
    }
  }

  /** A row of nodes and the butterfly it starts. */
  lemma RowAndButterfly(row: seq<Write>, k: nat, low: int, c: int, at: int)
    requires k >= 2 && at == c + Pow2(k - 1) && Generates(row, low, c, at)
    ensures Generates(row + Butterfly(k - 1, 1, at), low, c, c + NumButterfly(k - 1))
  {
    ButterflyGenerates(k - 1, 1, at);
    ButterflySize(k);
    GeneratesAppend(row, Butterfly(k - 1, 1, at), low, c, c, at, c + NumButterfly(k - 1));
  }

  lemma ButterflySize(k: nat)
    requires k >= 2
    ensures Pow2(k - 1) + LevelsSize(k - 1, 1) == NumButterfly(k - 1)
  {
    var m := k - 1;
    LevelsSizeFormula(m, 0);
    NumButterflyFormula(m);
    assert (2 * m) * Pow2(m) == 2 * Pow2(m) * m;
  }

  /** The stages as a row and what follows it, the latter's first node named. */
  lemma StageParts(k: nat, c: int, at: int)
    requires k >= 2 && at == c + Pow2(k - 1)
    ensures FirstStage(k, c) == Merge(Pow2(k - 1), c) + Butterfly(k - 1, 1, at)
    ensures XiStage(k, c) == Ladder(Pow2(k - 1), c) + Body(k - 1, at)
    ensures FourthStage(k, c) == Ladder(Pow2(k - 1), c) + Butterfly(k - 1, 1, at)
  {
  }

  lemma WholeParts(k: nat, start: int, c: int)
    requires k >= 1 && c == start + Pow2(k)
    ensures Whole(k, start) == Sources(Pow2(k), start) + Body(k, c)
  {
  }

  lemma FirstStageGenerates(k: nat, low: int, c: int)
    requires k >= 2 && low == c - Pow2(k)
    ensures Generates(FirstStage(k, c), low, c, c + NumButterfly(k - 1))
  {
    var h, at := Pow2(k - 1), c + Pow2(k - 1);
    RowGenerates(Merge(h, c), low, c);
    RowAndButterfly(Merge(h, c), k, low, c, at);
    StageParts(k, c, at);
  }

  lemma FourthStageGenerates(k: nat, low: int, c: int)
    requires k >= 2 && low <= c - Pow2(k - 1)
    ensures Generates(FourthStage(k, c), low, c, c + NumButterfly(k - 1))
  {
    var h, at := Pow2(k - 1), c + Pow2(k - 1);
    RowGenerates(Ladder(h, c), low, c);
    RowAndButterfly(Ladder(h, c), k, low, c, at);
    StageParts(k, c, at);
  }

  lemma {:induction false} XiStageGenerates(k: nat, low: int, c: int)
    requires k >= 2 && low <= c - Pow2(k - 1)
    ensures Generates(XiStage(k, c), low, c, c + NumXi(k - 1))
    decreases k - 1, 2
  {
    var h, at := Pow2(k - 1), c + Pow2(k - 1);
    RowGenerates(Ladder(h, c), low, c);
    BodyGenerates(k - 1, c, at);
    GeneratesAppend(Ladder(h, c), Body(k - 1, at), low, c, c, at, c + NumXi(k - 1));
    StageParts(k, c, at);
  }

  lemma FiveStages(s0: seq<Write>, s1: seq<Write>, s2: seq<Write>, s3: seq<Write>, s4: seq<Write>, low: int,
                   c: int, c1: int, c2: int, c3: int, c4: int, end: int)
    requires Generates(s0, low, c, c1) && Generates(s1, low, c1, c2) && Generates(s2, low, c2, c3)
    requires Generates(s3, low, c3, c4) && Generates(s4, low, c4, end)
    ensures Generates(s0 + (s1 + (s2 + (s3 + s4))), low, c, end)
  {
    GeneratesAppend(s3, s4, low, c3, low, c4, end);
    GeneratesAppend(s2, s3 + s4, low, c2, low, c3, end);
    GeneratesAppend(s1, s2 + (s3 + s4), low, c1, low, c2, end);
    GeneratesAppend(s0, s1 + (s2 + (s3 + s4)), low, c, low, c1, end);
  }

  /**
   * The writes after the sources produce each following node of the graph exactly once, and read
   * only sources and nodes written before.
   */
  lemma {:induction false} BodyGenerates(k: nat, start: int, c: int)
    requires k >= 1 && c == start + Pow2(k)
    ensures Generates(Body(k, c), start, c, start + NumXi(k))
    decreases k, 1
  {
    if k == 1 {
      ButterflyGenerates(1, 1, c);
    } else {
      StagesGenerate(k, start, c);
    }
  }

  lemma {:induction false} StagesGenerate(k: nat, start: int, c: int)
    requires k >= 2 && c == start + Pow2(k)
    ensures Generates(Body(k, c), start, c, start + NumXi(k))
    decreases k, 0
  {
    var c1, c2, c3, c4 := FirstXi(k, c), SecondXi(k, c), SecondButter(k, c), FirstSink(k, c);
    OffsetsAdvance(k, c);
    FirstStageGenerates(k, start, c);
    assert Generates(XiStage(k, c1), start, c1, c2) by { XiStageGenerates(k, start, c1); }
    assert Generates(XiStage(k, c2), start, c2, c3) by { XiStageGenerates(k, start, c2); }
    assert Generates(FourthStage(k, c3), start, c3, c4) by { FourthStageGenerates(k, start, c3); }
    SinksGenerate(Pow2(k - 1), c4, start);
    FiveStages(FirstStage(k, c), XiStage(k, c1), XiStage(k, c2), FourthStage(k, c3), Sinks(Pow2(k - 1), c4, start),
               start, c, c1, c2, c3, c4, start + NumXi(k));
    BodyUnfolds(k, start, c);
  }

  /** The explicit offsets are in order, and the sinks end the graph. */
  lemma OffsetsAdvance(k: nat, c: int)
    requires k >= 2
    ensures c + Pow2(k) <= FirstXi(k, c) && FirstXi(k, c) + Pow2(k) <= SecondXi(k, c)
    ensures SecondXi(k, c) + Pow2(k) <= SecondButter(k, c) && SecondButter(k, c) + Pow2(k) <= FirstSink(k, c)
    ensures FirstSink(k, c) + Pow2(k) == c + NumXi(k) - Pow2(k)
  {
  }

  /** The whole graph is written node by node, each once, each after its parents. */
  lemma WholeGenerates(k: nat, start: int)
    requires k >= 1
    ensures Generates(Whole(k, start), start, start, start + NumXi(k))
  {
    var n, c := Pow2(k), start + Pow2(k);
    RowGenerates(Sources(n, start), start, start);
    BodyGenerates(k, start, c);
    GeneratesAppend(Sources(n, start), Body(k, c), start, start, start, c, start + NumXi(k));
    WholeParts(k, start, c);
  }

  // ---- the order of writing ----

  predicate Ascending(ws: seq<Write>) {
    forall p: nat, q: nat :: p < q < |ws| ==> ws[p].id < ws[q].id
  }

  lemma DescendingSuffix(a: seq<Write>, b: seq<Write>)
    requires !Ascending(b)
    ensures !Ascending(a + b)
  {
    var p: nat, q: nat :| p < q < |b| && b[p].id >= b[q].id;
    assert (a + b)[|a| + p] == b[p] && (a + b)[|a| + q] == b[q];
  }

  lemma DescendingLast(s0: seq<Write>, s1: seq<Write>, s2: seq<Write>, s3: seq<Write>, s4: seq<Write>)
    requires !Ascending(s4)
    ensures !Ascending(s0 + (s1 + (s2 + (s3 + s4))))
  {
    DescendingSuffix(s3, s4);
    DescendingSuffix(s2, s3 + s4);
    DescendingSuffix(s1, s2 + (s3 + s4));
    DescendingSuffix(s0, s1 + (s2 + (s3 + s4)));
  }

  /** The second pair of sinks goes back to the first half of the row. */
  lemma SinksGoBack(h: nat, c: int, sources: int)
    requires h >= 2
    ensures !Ascending(Sinks(h, c, sources))
  {
    SinkAt(h, c, sources, 1);
    SinkAt(h, c, sources, 2);
  }

  /** The ids are written in increasing order for index one and for no other index. */
  lemma AscendingExactlyAtOne(k: nat, start: int)
    requires k >= 1
    ensures Ascending(Whole(k, start)) <==> k == 1
  {
    if k == 1 {
      SmallestAscends(start);
    } else {
      var c := start + Pow2(k);
      BodyGoesBack(k, start, c);
      DescendingSuffix(Sources(Pow2(k), start), Body(k, c));
      WholeParts(k, start, c);
    }
  }

  lemma BodyGoesBack(k: nat, start: int, c: int)
    requires k >= 2 && c == start + Pow2(k)
    ensures !Ascending(Body(k, c))
  {
    SinksGoBack(Pow2(k - 1), FirstSink(k, c), start);
    DescendingLast(FirstStage(k, c), XiStage(k, FirstXi(k, c)), XiStage(k, SecondXi(k, c)),
                   FourthStage(k, SecondButter(k, c)), Sinks(Pow2(k - 1), FirstSink(k, c), start));
    BodyUnfolds(k, start, c);
  }

  lemma SmallestAscends(start: int)
    ensures Ascending(Whole(1, start))
  {
    assert Butterfly(1, 2, start + 4) == [];
    assert Butterfly(1, 1, start + 2) == Level(1, 1, start + 2) + [];
    var ws := Whole(1, start);
    assert |ws| == 4;
    assert forall p: nat :: p < |ws| ==> ws[p].id == start + p;
  }
}
