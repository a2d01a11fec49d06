/** The node file behind the graph: where a node is stored, and what a run of writes leaves in it. */
module XiFile {

  import opened Powers
  import opened XiLayout
  import opened XiParents

  /** The hash of a node from its id and the hashes of its parents; the key is part of it. */
  type NodeHash = (int, seq<nat>) -> nat

  /** The stored hashes by place, and whether a read ever missed. */
  datatype Disk = Disk(nodes: map<int, nat>, failed: bool)

  /** bfsToPost: the id with the bit of pow2 cleared. */
  function Place(pow2: nat, id: int): int
    requires pow2 >= 1
  {
    if id / pow2 % 2 == 1 then id - pow2 else id
  }

  /** On the ids in use, clearing the bit is subtracting it. */
  lemma PlaceIsOffset(pow2: nat, id: int)
    requires pow2 >= 1 && pow2 <= id < 2 * pow2
    ensures Place(pow2, id) == id - pow2
  {
    DivUnique(id, pow2, 1);
  }

  function Places(pow2: nat, size: nat): set<int>
    requires pow2 >= 1
  {
    set id | pow2 <= id < pow2 + size :: Place(pow2, id)
  }

  /** Places map the ids of a graph of any size up to pow2 one-to-one onto the first places. */
  lemma PlaceBijective(pow2: nat, size: nat)
    requires pow2 >= 1 && size <= pow2
    ensures forall a, b :: pow2 <= a < b < pow2 + size ==> Place(pow2, a) != Place(pow2, b)
    ensures forall n :: n in Places(pow2, size) <==> 0 <= n < size
  {
    forall id | pow2 <= id < pow2 + size
      ensures Place(pow2, id) == id - pow2
    {
      PlaceIsOffset(pow2, id);
    }
    forall n | 0 <= n < size
      ensures n in Places(pow2, size)
    {
      assert Place(pow2, n + pow2) == n;
    }
  }

  function Fetch(d: Disk, pow2: nat, id: int): nat
    requires pow2 >= 1
  {
    if Place(pow2, id) in d.nodes then d.nodes[Place(pow2, id)] else 0
  }

  function FetchAll(d: Disk, pow2: nat, ids: seq<int>): (r: seq<nat>)
    requires pow2 >= 1
    ensures |r| == |ids|
  {
    seq(|ids|, j requires 0 <= j < |ids| => Fetch(d, pow2, ids[j]))
  }

  predicate Stored(d: Disk, pow2: nat, ids: seq<int>)
    requires pow2 >= 1
  {
    forall j :: 0 <= j < |ids| ==> Place(pow2, ids[j]) in d.nodes
  }

  function Put(d: Disk, pow2: nat, hash: NodeHash, w: Write): Disk
    requires pow2 >= 1
  {
    Disk(d.nodes[Place(pow2, w.id) := hash(w.id, FetchAll(d, pow2, w.parents))], d.failed || !Stored(d, pow2, w.parents))
  }

  /** The disk after a sequence of writes to a new file. */
  function Run(pow2: nat, hash: NodeHash, ws: seq<Write>): Disk
    requires pow2 >= 1
  {
    var n := |ws| - 1;
    if n < 0 then Disk(map[], false) else Put(Run(pow2, hash, ws[..n]), pow2, hash, ws[n])
  }

  // ---- what generation leaves in the file ----

  /** The closed form names only nodes of the graph before the node itself. */
  lemma ParentsBelow(k: nat, node: nat)
    requires k >= 1 && node < NumXi(k)
    ensures forall j :: 0 <= j < |GetParents(node, k)| ==> 0 <= GetParents(node, k)[j] < node
  {
    var ws, ps := Whole(k, 0), GetParents(node, k);
    WholeGenerates(k, 0);
    ClosedFormIsLayout(k, 0, node, node);
    var p: nat :| WritesAt(ws, p, node);
    forall j | 0 <= j < |ps|
      ensures 0 <= ps[j] < node
    {
      assert ws[p].parents[j] == ps[j];
      EarlierInRange(ws, 0, NumXi(k), p, j);
    }
  }

  lemma EarlierInRange(ws: seq<Write>, first: int, next: int, p: nat, j: nat)
    requires Generates(ws, first, first, next) && p < |ws| && j < |ws[p].parents|
    ensures first <= ws[p].parents[j] < ws[p].id && WrittenBefore(ws, p, ws[p].parents[j])
  {
    var id := ws[p].parents[j];
    assert WrittenBefore(ws, p, id);
    var q: nat :| q < p && WritesAt(ws, q, id);
    assert ws[q].id == id;
  }

  /** The hash of a node by the closed form alone: from the hashes of its parents. */
  function Label(k: nat, pow2: nat, hash: NodeHash, node: nat): nat
    requires k >= 1 && node < NumXi(k)
    decreases node
  {
    var ps := GetParents(node, k);
    ParentsBelow(k, node);
    hash(pow2 + node, seq(|ps|, j requires 0 <= j < |ps| => Label(k, pow2, hash, ps[j])))
  }

  // ---- running a generation ----

  /** A value for every node that fits every write: the hash of the values of its parents. */
  predicate Fits(ws: seq<Write>, pow2: nat, hash: NodeHash, value: int -> nat) {
    forall p: nat :: p < |ws| ==>
      value(ws[p].id - pow2) == hash(ws[p].id, Values(ws[p].parents, pow2, value))
  }

  function Values(ids: seq<int>, pow2: nat, value: int -> nat): (r: seq<nat>)
    ensures |r| == |ids|
  {
    seq(|ids|, j requires 0 <= j < |ids| => value(ids[j] - pow2))
  }

  /** After m writes: no read missed, and the file holds the values of exactly the nodes written. */
  ghost predicate Filled(d: Disk, ws: seq<Write>, pow2: nat, value: int -> nat, m: nat) {
    && !d.failed
    && (forall n :: n in d.nodes ==> WrittenBefore(ws, m, n + pow2) && d.nodes[n] == value(n))
    && (forall id :: WrittenBefore(ws, m, id) ==> id - pow2 in d.nodes)
  }

  lemma WrittenStep(ws: seq<Write>, m: nat, id: int)
    requires m < |ws|
    ensures WrittenBefore(ws, m + 1, id) <==> WrittenBefore(ws, m, id) || id == ws[m].id
  {
    if WrittenBefore(ws, m + 1, id) {
      var q: nat :| q < m + 1 && WritesAt(ws, q, id);
      assert WritesAt(ws, q, id);
    }
    if WrittenBefore(ws, m, id) {
      LaterStillWritten(ws, m, m + 1, id);
    }
    if id == ws[m].id {
      assert WritesAt(ws, m, id);
    }
  }

  lemma ParentsStored(d: Disk, ws: seq<Write>, pow2: nat, size: nat, value: int -> nat, m: nat)
    requires pow2 >= 1 && size <= pow2 && m < |ws| && Generates(ws, pow2, pow2, pow2 + size)
    requires Filled(d, ws, pow2, value, m)
    ensures Stored(d, pow2, ws[m].parents)
    ensures FetchAll(d, pow2, ws[m].parents) == Values(ws[m].parents, pow2, value)
  {
    var ps := ws[m].parents;
    forall j | 0 <= j < |ps|
      ensures Place(pow2, ps[j]) in d.nodes && Fetch(d, pow2, ps[j]) == value(ps[j] - pow2)
    {
      EarlierInRange(ws, pow2, pow2 + size, m, j);
      PlaceIsOffset(pow2, ps[j]);
    }
  }

  lemma PutStores(d: Disk, ws: seq<Write>, pow2: nat, size: nat, hash: NodeHash, value: int -> nat, m: nat)
    requires pow2 >= 1 && size <= pow2 && m < |ws| && Generates(ws, pow2, pow2, pow2 + size)
    requires Filled(d, ws, pow2, value, m) && Fits(ws, pow2, hash, value)
    ensures Put(d, pow2, hash, ws[m]) == Disk(d.nodes[ws[m].id - pow2 := value(ws[m].id - pow2)], false)
  {
    ParentsStored(d, ws, pow2, size, value, m);
    PlaceIsOffset(pow2, ws[m].id);
  }

  lemma StoreFills(d: Disk, ws: seq<Write>, pow2: nat, value: int -> nat, m: nat, next: nat, node: int)
    requires m < |ws| && next == m + 1 && node == ws[m].id - pow2 && Filled(d, ws, pow2, value, m)
    ensures Filled(Disk(d.nodes[node := value(node)], false), ws, pow2, value, next)
  {
    var e := Disk(d.nodes[node := value(node)], false);
    forall n | n in e.nodes
      ensures WrittenBefore(ws, next, n + pow2) && e.nodes[n] == value(n)
    {
      WrittenStep(ws, m, n + pow2);
    }
    forall id | WrittenBefore(ws, next, id)
      ensures id - pow2 in e.nodes
    {
      WrittenStep(ws, m, id);
    }
  }

  lemma {:induction false} RunFills(ws: seq<Write>, pow2: nat, size: nat, hash: NodeHash, value: int -> nat, m: nat)
    requires pow2 >= 1 && size <= pow2 && m <= |ws| && Generates(ws, pow2, pow2, pow2 + size)
    requires Fits(ws, pow2, hash, value)
    ensures Filled(Run(pow2, hash, ws[..m]), ws, pow2, value, m)
  {
    if m > 0 {
      RunFills(ws, pow2, size, hash, value, m - 1);
      assert ws[..m][..m - 1] == ws[..m - 1];
      PutStores(Run(pow2, hash, ws[..m - 1]), ws, pow2, size, hash, value, m - 1);
      StoreFills(Run(pow2, hash, ws[..m - 1]), ws, pow2, value, m - 1, m, ws[m - 1].id - pow2);
    }
  }

  function LabelOf(k: nat, pow2: nat, hash: NodeHash): int -> nat
    requires k >= 1
  {
    n => if 0 <= n < NumXi(k) then Label(k, pow2, hash, n) else 0
  }

  lemma LabelsFit(k: nat, pow2: nat, hash: NodeHash)
    requires k >= 1
    ensures Fits(Whole(k, pow2), pow2, hash, LabelOf(k, pow2, hash))
  {
    var ws, value := Whole(k, pow2), LabelOf(k, pow2, hash);
    forall p: nat | p < |ws|
      ensures value(ws[p].id - pow2) == hash(ws[p].id, Values(ws[p].parents, pow2, value))
    {
      LabelFitsAt(k, pow2, hash, p);
    }
  }

  lemma LabelFitsAt(k: nat, pow2: nat, hash: NodeHash, p: nat)
    requires k >= 1 && p < |Whole(k, pow2)|
    ensures var w := Whole(k, pow2)[p];
      LabelOf(k, pow2, hash)(w.id - pow2) == hash(w.id, Values(w.parents, pow2, LabelOf(k, pow2, hash)))
  {
    var w := Whole(k, pow2)[p];
    var node := w.id - pow2;
    assert 0 <= node < NumXi(k) by { WholeGenerates(k, pow2); }
    WriteAgrees(k, pow2, p, node);
    LabelFits(k, pow2, hash, w, node);
  }

  lemma LabelFits(k: nat, pow2: nat, hash: NodeHash, w: Write, node: nat)
    requires k >= 1 && node < NumXi(k)
    requires w == Write(pow2 + node, Shifted(GetParents(node, k), pow2))
    ensures LabelOf(k, pow2, hash)(node) == hash(w.id, Values(w.parents, pow2, LabelOf(k, pow2, hash)))
  {
    var ps := GetParents(node, k);
    ParentsBelow(k, node);
    var labels := seq(|ps|, j requires 0 <= j < |ps| => Label(k, pow2, hash, ps[j]));
    assert labels == Values(w.parents, pow2, LabelOf(k, pow2, hash));
  }

  /** A generation into a new file, for any values that fit it. */
  lemma RunMeaning(ws: seq<Write>, pow2: nat, size: nat, hash: NodeHash, value: int -> nat)
    requires pow2 >= 1 && size <= pow2 && Generates(ws, pow2, pow2, pow2 + size) && Fits(ws, pow2, hash, value)
    ensures var d := Run(pow2, hash, ws);
      !d.failed && (forall n :: n in d.nodes <==> 0 <= n < size) && (forall n :: n in d.nodes ==> d.nodes[n] == value(n))
  {
    var d := Run(pow2, hash, ws);
    RunFills(ws, pow2, size, hash, value, |ws|);
    assert ws[..|ws|] == ws;
    forall n
      ensures n in d.nodes <==> 0 <= n < size
    {
      WrittenExactly(ws, pow2, pow2 + size, n + pow2);
      assert n + pow2 - pow2 == n;
    }
  }

  /**
   * Generating the graph into a new file never reads a node that is not there, fills exactly the
   * first numXi places, and leaves in each the hash that the closed form gives that node.
   */
  lemma GenerationMeaning(k: nat, pow2: nat, hash: NodeHash)
    requires k >= 1 && pow2 >= 1 && NumXi(k) <= pow2
    ensures var d := Run(pow2, hash, Whole(k, pow2));
      && !d.failed
      && (forall n :: n in d.nodes <==> 0 <= n < NumXi(k))
      && (forall n: nat :: n < NumXi(k) ==> d.nodes[n] == Label(k, pow2, hash, n))
  {
    WholeGenerates(k, pow2);
    LabelsFit(k, pow2, hash);
    RunMeaning(Whole(k, pow2), pow2, NumXi(k), hash, LabelOf(k, pow2, hash));
  }

  lemma WrittenExactly(ws: seq<Write>, first: int, next: int, id: int)
    requires EachOnce(ws, first, next)
    ensures WrittenBefore(ws, |ws|, id) <==> first <= id < next
  {
    if WrittenBefore(ws, |ws|, id) {
      var q: nat :| q < |ws| && WritesAt(ws, q, id);
      assert ws[q].id == id;
    }
  }
}
