/**
 * Light mode: block templates received from peers, the vote on them, and what is installed. Hashes
 * and header checks are parameters; the clock is an argument.
 */
module Templates {

  import opened Shares

  datatype Tx = Tx(data: string, txid: string, hash: string, fee: int, depends: seq<int>)

  datatype Template = Template(
    fullNode: bool, height: int, prev: string, bits: string, coinbase: int, txs: seq<Tx>)

  datatype Vote = Vote(
    peer: string, pinned: bool, prev: string, bits: string, height: int, txs: seq<Tx>, fingerprint: (nat, string), ts: int)

  /** Nanoseconds */
  const MINUTE := 60_000_000_000

  // ---- money ----

  /** x shifted right by n bits. */
  function ShiftRight(x: nat, n: nat): nat {
    if n == 0 then x else ShiftRight(x, n - 1) / 2
  }

  /** Halved every 840,000 blocks. */
  function Subsidy(height: nat): nat {
    ShiftRight(5_000_000_000, height / 840_000)
  }

  /** Fifty coins of a hundred million units at first, half of that every 840,000 blocks, and nothing in the end. */
  lemma SubsidyMeaning(height: nat)
    ensures height < 840_000 ==> Subsidy(height) == 5_000_000_000
    ensures Subsidy(height + 840_000) == Subsidy(height) / 2
    ensures Subsidy(height) == 0 ==> Subsidy(height + 840_000) == 0
  {
    assert (height + 840_000) / 840_000 == height / 840_000 + 1;
  }

  function Fees(txs: seq<Tx>): int {
    if txs == [] then 0 else Fees(txs[..|txs| - 1]) + txs[|txs| - 1].fee
  }

  predicate FeesValid(txs: seq<Tx>) {
    forall i :: 0 <= i < |txs| ==> txs[i].fee >= 0
  }

  /** At most the height's subsidy plus the fees of the transactions kept. */
  predicate ClaimHolds(t: Template) {
    t.height > 0 && FeesValid(t.txs) && 0 <= t.coinbase <= Subsidy(t.height) + Fees(t.txs)
  }

  // ---- identifiers ----

  /** What txSetHash hashes: the count and the concatenated identifiers; the hash itself is taken as injective. */
  function Fingerprint(txs: seq<Tx>): (nat, string) {
    (|txs|, Concatenated(txs))
  }

  function Concatenated(txs: seq<Tx>): string {
    if txs == [] then "" else txs[0].txid + txs[0].hash + Concatenated(txs[1..])
  }

  predicate SameIds(a: Tx, b: Tx) {
    a.txid == b.txid && a.hash == b.hash
  }

  predicate SameWidths(a: Tx, b: Tx) {
    |a.txid| == |b.txid| && |a.hash| == |b.hash|
  }

  predicate AllSameIds(a: seq<Tx>, b: seq<Tx>)
    requires |a| == |b|
  {
    forall i :: 0 <= i < |a| ==> SameIds(a[i], b[i])
  }

  predicate AllSameWidths(a: seq<Tx>, b: seq<Tx>)
    requires |a| == |b|
  {
    forall i :: 0 <= i < |a| ==> SameWidths(a[i], b[i])
  }

  /** The first transaction and the rest, read off the concatenation by their widths. */
  lemma FirstIds(a: seq<Tx>, b: seq<Tx>)
    requires a != [] && b != [] && SameWidths(a[0], b[0]) && Concatenated(a) == Concatenated(b)
    ensures SameIds(a[0], b[0]) && Concatenated(a[1..]) == Concatenated(b[1..])
  {
    var ca, cb, v, w := Concatenated(a), Concatenated(b), |a[0].txid|, |a[0].txid| + |a[0].hash|;
    assert a[0].txid == ca[..v] && b[0].txid == cb[..v];
    assert a[0].hash == ca[v..w] && b[0].hash == cb[v..w];
    assert Concatenated(a[1..]) == ca[w..] && Concatenated(b[1..]) == cb[w..];
  }

  /**
   * Equal fingerprints mean equal identifiers, one by one, exactly if the widths are equal one by
   * one, as those of hexadecimal transaction ids are.
   */
  lemma {:induction false} FingerprintIdentifies(a: seq<Tx>, b: seq<Tx>)
    requires Fingerprint(a) == Fingerprint(b)
    ensures AllSameIds(a, b) <==> AllSameWidths(a, b)
    decreases |a|
  {
    if a != [] && AllSameWidths(a, b) {
      FirstIds(a, b);
      FingerprintIdentifies(a[1..], b[1..]);
      assert forall i :: 0 <= i < |a| - 1 ==> a[1..][i] == a[i + 1] && b[1..][i] == b[i + 1];
      forall i | 0 <= i < |a|
        ensures SameIds(a[i], b[i])
      {
        assert i > 0 ==> SameIds(a[1..][i - 1], b[1..][i - 1]);
      }
    }
  }

  /** The boundary between the two identifiers is not hashed: equal fingerprints, different widths, different ids. */
  lemma FingerprintNeedsWidth()
    ensures var a, b := [Tx("", "ab", "c", 0, [])], [Tx("", "a", "bc", 0, [])];
      Fingerprint(a) == Fingerprint(b) && !SameIds(a[0], b[0])
  {
    var a, b := Tx("", "ab", "c", 0, []), Tx("", "a", "bc", 0, []);
    assert Concatenated([a][1..]) == "" && Concatenated([b][1..]) == "";
    assert "ab" + "c" == "abc" == "a" + "bc";
    assert |a.txid| != |b.txid|;
  }

  // ---- the common transactions of two votes ----

  function Key(tx: Tx): string {
    if tx.txid == "" then tx.hash else tx.txid
  }

  function KeysOf(b: seq<Tx>): set<string> {
    set i | 0 <= i < |b| && Key(b[i]) != "" :: Key(b[i])
  }

  predicate IsCommon(tx: Tx, b: seq<Tx>) {
    Key(tx) in KeysOf(b) && tx.depends == []
  }

  /** The transactions of a, in order, that b knows too and that depend on no other. */
  function Common(a: seq<Tx>, b: seq<Tx>): (r: seq<Tx>)
    ensures forall tx :: tx in r <==> tx in a && IsCommon(tx, b)
  {
    if a == [] then []
    else
      var n := |a| - 1;
      assert a == a[..n] + [a[n]];
      Common(a[..n], b) + if IsCommon(a[n], b) then [a[n]] else []
  }

  lemma FeesAppend(txs: seq<Tx>, tx: Tx)
    ensures Fees(txs + [tx]) == Fees(txs) + tx.fee
  {
    assert (txs + [tx])[..|txs|] == txs;
  }

  lemma CommonAppend(a: seq<Tx>, tx: Tx, b: seq<Tx>)
    ensures Common(a + [tx], b) == Common(a, b) + if IsCommon(tx, b) then [tx] else []
  {
    assert (a + [tx])[..|a|] == a;
  }

  lemma {:induction false} NothingCommon(a: seq<Tx>)
    ensures Common(a, []) == []
  {
    if a != [] {
      NothingCommon(a[..|a| - 1]);
    }
  }

  /** intersectTemplateTxs */
  method IntersectTemplateTxs(a: seq<Tx>, b: seq<Tx>) returns (common: seq<Tx>, fees: int)
    ensures common == Common(a, b) && fees == Fees(common)
  {
    if |a| == 0 || |b| == 0 {
      NothingCommon(a);
      return [], 0;
    }
    var inB := {};
    for i := 0 to |b|
      invariant inB == KeysOf(b[..i])
    {
      var k := Key(b[i]);
      KeysAppend(b[..i], b[i]);
      assert b[..i] + [b[i]] == b[..i + 1];
      if k != "" {
        inB := inB + {k};
      }
    }
    assert b[..|b|] == b;
    common, fees := [], 0;
    for i := 0 to |a|
      invariant common == Common(a[..i], b) && fees == Fees(common)
    {
      var tx := a[i];
      assert a[..i] + [tx] == a[..i + 1];
      CommonAppend(a[..i], tx, b);
      if Key(tx) != "" && Key(tx) in inB && tx.depends == [] {
        FeesAppend(common, tx);
        common := common + [tx];
        fees := fees + tx.fee;
      }
    }
    assert a[..|a|] == a;
  }

  lemma KeysAppend(b: seq<Tx>, tx: Tx)
    ensures KeysOf(b + [tx]) == KeysOf(b) + if Key(tx) == "" then {} else {Key(tx)}
  {
    var c := b + [tx];
    forall k | k in KeysOf(b)
      ensures k in KeysOf(c)
    {
      var i :| 0 <= i < |b| && Key(b[i]) != "" && Key(b[i]) == k;
      assert c[i] == b[i];
    }
    if Key(tx) != "" {
      assert c[|b|] == tx;
    }
  }

  // ---- counting the votes ----

  /** A vote of the last two minutes for the same previous block and bits. */
  predicate Live(v: Vote, now: int, prev: string, bits: string) {
    now - v.ts < 2 * MINUTE && v.prev == prev && v.bits == bits
  }

  /** A vote counts for 120 seconds. */
  lemma LiveMeaning(v: Vote, now: int, prev: string, bits: string)
    ensures Live(v, now, prev, bits) <==> v.prev == prev && v.bits == bits && v.ts > now - 120_000_000_000
  {
  }

  function LiveVoters(votes: map<string, Vote>, among: set<string>, now: int, prev: string, bits: string): set<string> {
    set k | k in among && k in votes && Live(votes[k], now, prev, bits)
  }

  function ExactVoters(votes: map<string, Vote>, among: set<string>, now: int, prev: string, bits: string, th: (nat, string)): set<string> {
    set k | k in LiveVoters(votes, among, now, prev, bits) && k in votes && votes[k].fingerprint == th
  }

  datatype Tally = Tally(exact: nat, header: nat, trustedExact: bool, pinned: Option<Vote>, other: Option<Vote>)

  /** A second vote worth having: one that is not pinned, or a pinned one of another peer. */
  predicate Differs(v: Vote, w: Vote) {
    !v.pinned || (w.pinned && v.peer != w.peer)
  }

  /** The live votes themselves; which voter cast one does not matter for the choice. */
  function LiveVotes(votes: map<string, Vote>, live: set<string>): set<Vote> {
    set k | k in live && k in votes :: votes[k]
  }

  predicate HasPinned(vs: set<Vote>) {
    exists v :: v in vs && v.pinned
  }

  predicate HasTrustedExact(vs: set<Vote>, th: (nat, string)) {
    exists v :: v in vs && v.pinned && v.fingerprint == th
  }

  predicate HasSecond(vs: set<Vote>) {
    exists v, w :: v in vs && w in vs && Differs(v, w)
  }

  /** What the loop finds in a set of live votes: nothing here depends on the order of the loop. */
  predicate Finds(c: Tally, vs: set<Vote>, th: (nat, string)) {
    && (c.trustedExact <==> HasTrustedExact(vs, th))
    && (c.pinned.Some? <==> HasPinned(vs))
    && (c.pinned.Some? ==> c.pinned.value in vs && c.pinned.value.pinned)
    && (c.other.Some? <==> HasSecond(vs))
    && (c.other.Some? ==> c.other.value in vs)
  }

  /** One turn of the loop for a live vote. */
  function CountVote(c: Tally, v: Vote, th: (nat, string)): Tally {
    var pinned := if v.pinned && c.pinned.None? then Some(v) else c.pinned;
    var other :=
      if c.other.None? && (!v.pinned || (c.pinned.Some? && v.peer != c.pinned.value.peer)) then Some(v) else c.other;
    Tally(if v.fingerprint == th then c.exact + 1 else c.exact, c.header + 1,
          c.trustedExact || (v.fingerprint == th && v.pinned), pinned, other)
  }

  lemma CountKeepsFinds(c: Tally, vs: set<Vote>, v: Vote, th: (nat, string))
    requires Finds(c, vs, th)
    ensures Finds(CountVote(c, v, th), vs + {v}, th)
  {
    var d, ws := CountVote(c, v, th), vs + {v};
    assert v in ws;
    assert HasPinned(ws) <==> HasPinned(vs) || v.pinned;
    assert HasTrustedExact(ws, th) <==> HasTrustedExact(vs, th) || (v.fingerprint == th && v.pinned);
    CountKeepsSecond(c, vs, v, th);
  }

  lemma CountKeepsSecond(c: Tally, vs: set<Vote>, v: Vote, th: (nat, string))
    requires Finds(c, vs, th)
    ensures CountVote(c, v, th).other.Some? <==> HasSecond(vs + {v})
  {
    var ws := vs + {v};
    if HasSecond(vs) {
      var a, b :| a in vs && b in vs && Differs(a, b);
      assert a in ws && b in ws;
    } else if !v.pinned {
      assert Differs(v, v) && v in ws;
    } else if c.pinned.Some? {
      var p := c.pinned.value;
      assert forall a :: a in vs ==> !Differs(a, p);
      if v.peer != p.peer {
        assert Differs(v, p) && v in ws && p in ws;
      } else {
        assert forall a :: a in ws ==> a.pinned && a.peer == p.peer;
      }
    } else {
      assert forall a :: a in vs ==> !a.pinned;
      assert forall a :: a in vs ==> !Differs(a, a);
      assert forall a :: a in ws ==> a == v;
    }
  }

  /** The vote loop of the program, over the votes in any order. */
  method CountVotes(votes: map<string, Vote>, now: int, prev: string, bits: string, th: (nat, string)) returns (c: Tally)
    ensures var live := LiveVoters(votes, votes.Keys, now, prev, bits);
      && c.header == |live|
      && c.exact == |ExactVoters(votes, votes.Keys, now, prev, bits, th)|
      && Finds(c, LiveVotes(votes, live), th)
  {
    c := Tally(0, 0, false, None, None);
    var left, done := votes.Keys, {};
    while left != {}
      invariant left + done == votes.Keys && left !! done
      invariant c.header == |LiveVoters(votes, done, now, prev, bits)|
      invariant c.exact == |ExactVoters(votes, done, now, prev, bits, th)|
      invariant Finds(c, LiveVotes(votes, LiveVoters(votes, done, now, prev, bits)), th)
      decreases |left|
    {
      var k :| k in left;
      var v := votes[k];
      OneVoter(votes, done, k, now, prev, bits, th);
      if Live(v, now, prev, bits) {
        CountKeepsFinds(c, LiveVotes(votes, LiveVoters(votes, done, now, prev, bits)), v, th);
        c := CountVote(c, v, th);
      }
      left, done := left - {k}, done + {k};
    }
    assert done == votes.Keys;
  }

  lemma OneVoter(votes: map<string, Vote>, done: set<string>, k: string, now: int, prev: string, bits: string, th: (nat, string))
    requires k in votes && k !in done
    ensures var v, live, next := votes[k], LiveVoters(votes, done, now, prev, bits), LiveVoters(votes, done + {k}, now, prev, bits);
      if Live(v, now, prev, bits) then
        |next| == |live| + 1 && LiveVotes(votes, next) == LiveVotes(votes, live) + {v} &&
        |ExactVoters(votes, done + {k}, now, prev, bits, th)| ==
          |ExactVoters(votes, done, now, prev, bits, th)| + (if v.fingerprint == th then 1 else 0)
      else
        next == live && ExactVoters(votes, done + {k}, now, prev, bits, th) == ExactVoters(votes, done, now, prev, bits, th)
  {
    var v, live, next := votes[k], LiveVoters(votes, done, now, prev, bits), LiveVoters(votes, done + {k}, now, prev, bits);
    if Live(v, now, prev, bits) {
      assert next == live + {k};
      ExactOne(votes, live, k, th);
      VotesOne(votes, live, k);
    } else {
      assert next == live;
    }
  }

  lemma VotesOne(votes: map<string, Vote>, live: set<string>, k: string)
    requires k in votes
    ensures LiveVotes(votes, live + {k}) == LiveVotes(votes, live) + {votes[k]}
  {
    forall v | v in LiveVotes(votes, live) + {votes[k]}
      ensures v in LiveVotes(votes, live + {k})
    {
      if v in LiveVotes(votes, live) {
        var j :| j in live && j in votes && votes[j] == v;
        assert j in live + {k};
      } else {
        assert k in live + {k};
      }
    }
  }

  lemma ExactOne(votes: map<string, Vote>, live: set<string>, k: string, th: (nat, string))
    requires k in votes && k !in live
    ensures (set j | j in live + {k} && j in votes && votes[j].fingerprint == th) ==
      (set j | j in live && j in votes && votes[j].fingerprint == th) + if votes[k].fingerprint == th then {k} else {}
  {
  }

  // ---- deciding ----

  /** The template stands as sent; or with the transactions two votes share; or with none; or not at all. */
  datatype Decision = Exact | Shared(pinned: Vote, other: Vote) | Bare | Refuse

  function Decide(c: Tally, verified: bool, isPinned: bool, voters: nat): Decision {
    if c.exact >= 2 && c.trustedExact then Exact
    else if c.header >= 2 && c.pinned.Some? && c.other.Some? then Shared(c.pinned.value, c.other.value)
    else if c.header >= 2 || (c.header == 1 && verified && (isPinned || voters == 1)) then Bare
    else Refuse
  }

  function Result(t: Template, d: Decision): Template
    requires !d.Refuse? && t.height > 0
  {
    match d
    case Exact => t
    case Shared(p, o) => t.(txs := Common(p.txs, o.txs), coinbase := Subsidy(t.height) + Fees(Common(p.txs, o.txs)))
    case Bare => t.(txs := [], coinbase := Subsidy(t.height))
  }

  /** The kept transactions are the vote's: by fingerprint, or each one of them. */
  predicate Covers(v: Vote, kept: seq<Tx>) {
    Fingerprint(kept) == Fingerprint(v.txs) || forall tx :: tx in kept ==> tx in v.txs
  }

  /** The vote that stands behind an installed template, and when it was installed. */
  datatype Support = Support(vote: Vote, at: int)

  /** A pinned peer's vote, live when the template was installed, for its previous block, bits and transactions. */
  predicate Supports(s: Support, t: Template) {
    s.vote.pinned && Live(s.vote, s.at, t.prev, t.bits) && Covers(s.vote, t.txs)
  }

  predicate VoteValid(v: Vote, trusted: set<string>) {
    FeesValid(v.txs) && v.fingerprint == Fingerprint(v.txs) && (v.pinned <==> v.peer in trusted)
  }

  lemma {:induction false} FeesNonNegative(txs: seq<Tx>)
    requires FeesValid(txs)
    ensures Fees(txs) >= 0
  {
    if txs != [] {
      FeesNonNegative(txs[..|txs| - 1]);
    }
  }

  /** Whatever was decided, the result claims no more than subsidy and the fees it keeps. */
  lemma ResultClaims(t: Template, d: Decision)
    requires !d.Refuse? && t.height > 0 && FeesValid(t.txs) && 0 < t.coinbase <= Subsidy(t.height) + Fees(t.txs)
    requires d.Shared? ==> FeesValid(d.pinned.txs)
    ensures ClaimHolds(Result(t, d))
  {
    match d
    case Exact =>
    case Bare =>
    case Shared(p, o) =>
      var kept := Common(p.txs, o.txs);
      forall i | 0 <= i < |kept|
        ensures kept[i].fee >= 0
      {
        assert kept[i] in p.txs;
      }
      FeesNonNegative(kept);
  }

  /** Whatever was decided and in whatever order the votes were read, a live pinned vote covers what is kept. */
  lemma ResultSupported(t: Template, c: Tally, vs: set<Vote>, d: Decision, now: int) returns (v: Vote)
    requires !d.Refuse? && t.height > 0 && Finds(c, vs, Fingerprint(t.txs))
    requires forall w :: w in vs ==> Live(w, now, t.prev, t.bits) && w.fingerprint == Fingerprint(w.txs)
    requires d.Exact? ==> c.trustedExact
    requires d.Shared? ==> c.pinned == Some(d.pinned)
    ensures Result(t, d).txs != [] ==> v in vs && Supports(Support(v, now), Result(t, d))
  {
    v := Vote("", false, "", "", 0, [], (0, ""), 0);
    if d.Exact? {
      v :| v in vs && v.pinned && v.fingerprint == Fingerprint(t.txs);
    } else if d.Shared? {
      v := d.pinned;
    }
  }

  /** Which way the vote goes does not depend on the order in which the votes were read. */
  lemma DecisionIsOrderFree(c: Tally, e: Tally, vs: set<Vote>, th: (nat, string), verified: bool, isPinned: bool, voters: nat)
    requires Finds(c, vs, th) && Finds(e, vs, th) && c.header == e.header && c.exact == e.exact
    ensures var a, b := Decide(c, verified, isPinned, voters), Decide(e, verified, isPinned, voters);
      (a.Exact? <==> b.Exact?) && (a.Shared? <==> b.Shared?) && (a.Bare? <==> b.Bare?)
  {
  }

  /** What the vote comes to, in terms of the live votes alone. */
  ghost predicate Outcome(t: Template, r: Option<Template>, votes: map<string, Vote>, verified: bool, isPinned: bool, now: int)
    requires t.height > 0
  {
    var th, sub := Fingerprint(t.txs), Subsidy(t.height);
    var live := LiveVoters(votes, votes.Keys, now, t.prev, t.bits);
    var vs := LiveVotes(votes, live);
    if |ExactVoters(votes, votes.Keys, now, t.prev, t.bits, th)| >= 2 && HasTrustedExact(vs, th) then r == Some(t)
    else if |live| >= 2 && HasPinned(vs) && HasSecond(vs) then
      exists p, o :: p in vs && o in vs && p.pinned && r == Some(Result(t, Shared(p, o)))
    else if |live| >= 2 || (|live| == 1 && verified && (isPinned || |votes| == 1)) then
      r == Some(t.(txs := [], coinbase := sub))
    else r == None
  }

  /** All that the vote may come to, over the orders in which the votes can be read. */
  ghost function Outcomes(t: Template, votes: map<string, Vote>, verified: bool, isPinned: bool, now: int): iset<Option<Template>>
    requires t.height > 0
  {
    iset r: Option<Template> | Outcome(t, r, votes, verified, isPinned, now)
  }

  lemma DecisionIsOutcome(t: Template, c: Tally, votes: map<string, Vote>, verified: bool, isPinned: bool, now: int)
    requires t.height > 0
    requires var live := LiveVoters(votes, votes.Keys, now, t.prev, t.bits);
      && c.header == |live|
      && c.exact == |ExactVoters(votes, votes.Keys, now, t.prev, t.bits, Fingerprint(t.txs))|
      && Finds(c, LiveVotes(votes, live), Fingerprint(t.txs))
    ensures var d := Decide(c, verified, isPinned, |votes|);
      Outcome(t, if d.Refuse? then None else Some(Result(t, d)), votes, verified, isPinned, now)
  {
  }

  /**
   * What the support of a template says about its transactions: they are the vote's own, or they have
   * the vote's identifiers one by one exactly if the widths are equal one by one.
   */
  lemma SupportedIds(s: Support, t: Template)
    requires Supports(s, t)
    ensures (forall tx :: tx in t.txs ==> tx in s.vote.txs) ||
      (|t.txs| == |s.vote.txs| && (AllSameIds(t.txs, s.vote.txs) <==> AllSameWidths(t.txs, s.vote.txs)))
  {
    if Fingerprint(t.txs) == Fingerprint(s.vote.txs) {
      FingerprintIdentifies(t.txs, s.vote.txs);
    }
  }

  /** Cuts a template down to what was decided. */
  method Reduce(t: Template, d: Decision) returns (r: Template)
    requires !d.Refuse? && t.height > 0
    ensures r == Result(t, d)
  {
    r := t;
    if d.Shared? {
      var common, fees := IntersectTemplateTxs(d.pinned.txs, d.other.txs);
      r := t.(txs := common, coinbase := Subsidy(t.height) + fees);
    } else if d.Bare? {
      r := t.(txs := [], coinbase := Subsidy(t.height));
    }
  }

  predicate Nameless(tx: Tx) {
    tx.data == "" && tx.txid == "" && tx.hash == ""
  }

  /** A complete template of a full node, with nameable transactions that charge no negative fee, on a checked header. */
  predicate Screened(parsed: Option<Template>, headerOk: bool) {
    && parsed.Some? && headerOk
    && var t := parsed.value;
    && t.fullNode && t.height > 0 && t.prev != "" && t.bits != ""
    && forall i :: 0 <= i < |t.txs| ==> t.txs[i].fee >= 0 && !Nameless(t.txs[i])
  }

  /** The subsidy plus the fees, of which no more than the subsidy counts. */
  function ClaimLimit(t: Template): int
    requires t.height > 0
  {
    var sub := Subsidy(t.height);
    sub + if Fees(t.txs) > sub then sub else Fees(t.txs)
  }

  /** Never more than the subsidy and the fees, nor than twice the subsidy, and one of the two. */
  lemma ClaimLimitMeaning(t: Template)
    requires t.height > 0
    ensures var sub, fees := Subsidy(t.height), Fees(t.txs);
      ClaimLimit(t) <= sub + fees && ClaimLimit(t) <= 2 * sub && (ClaimLimit(t) == sub + fees || ClaimLimit(t) == 2 * sub)
  {
  }

  predicate CoinbaseInRange(t: Template)
    requires t.height > 0
  {
    0 < t.coinbase <= ClaimLimit(t)
  }

  function ScoreOf(scores: map<string, int>, peer: string): int {
    if peer in scores then scores[peer] else 0
  }

  // ---- the node ----

  class LightNode {
    const trusted: set<string>
    var templates: map<string, Template>
    var votes: map<string, Vote>
    var scores: map<string, int>
    var verifiedBlocks: set<string>
    var lastAgreed: int
    ghost var support: map<string, Support>

    /** An installed template honours its claim and is supported. */
    ghost predicate Sound(prev: string)
      requires prev in templates
      reads this
    {
      var t := templates[prev];
      prev != "" && t.prev == prev && ClaimHolds(t) && (t.txs != [] ==> prev in support && Supports(support[prev], t))
    }

    /** At most one template is installed, and it is sound; the votes are as they were checked. */
    ghost predicate Valid()
      reads this
    {
      && (forall p, q :: p in templates && q in templates ==> p == q)
      && (forall p :: p in templates ==> Sound(p))
      && (forall k :: k in votes ==> VoteValid(votes[k], trusted))
    }

    constructor (pinned: set<string>)
      ensures Valid() && trusted == pinned && templates == map[] && votes == map[] && scores == map[]
    {
      trusted := pinned;
      templates, votes, scores, verifiedBlocks, lastAgreed, support := map[], map[], map[], {}, 0, map[];
    }

    /** The highest template installed, as the loop over the map finds it; none once agreement is three minutes old. */
    method Current(now: int) returns (height: int, prev: string, th: Option<(nat, string)>)
      requires Valid()
      ensures height == 0 <==> templates == map[] || now - lastAgreed > 3 * MINUTE
      ensures height == 0 ==> prev == "" && th == None
      ensures height != 0 ==> prev in templates && templates[prev].height == height && th == Some(Fingerprint(templates[prev].txs))
    {
      height, prev, th := 0, "", None;
      var left := templates.Keys;
      while left != {}
        invariant left <= templates.Keys
        invariant height == 0 <==> left == templates.Keys
        invariant height == 0 ==> prev == "" && th == None
        invariant height != 0 ==> prev in templates && prev !in left && height == templates[prev].height
        invariant height != 0 ==> th == Some(Fingerprint(templates[prev].txs))
        decreases |left|
      {
        var k :| k in left;
        assert Sound(k);
        if templates[k].height >= height {
          height, prev, th := templates[k].height, k, Some(Fingerprint(templates[k].txs));
        }
        left := left - {k};
      }
      if height > 0 && now - lastAgreed > 3 * MINUTE {
        height, prev, th := 0, "", None;
      }
    }

    /** Replaces what is installed, unless previous block and transactions are the same. */
    method Install(r: Template, ghost backer: Support, curPrev: string, curTh: Option<(nat, string)>, now: int)
      requires Valid() && r.prev != "" && ClaimHolds(r) && (r.txs != [] ==> Supports(backer, r))
      requires curPrev == "" || (curPrev in templates && curTh == Some(Fingerprint(templates[curPrev].txs)))
      modifies this`templates, this`lastAgreed, this`support
      ensures Valid() && lastAgreed == now && templates.Keys == {r.prev}
      ensures templates == map[r.prev := r] || (templates == old(templates) && Fingerprint(templates[r.prev].txs) == Fingerprint(r.txs))
      ensures r.prev != curPrev || curTh != Some(Fingerprint(r.txs)) ==> templates == map[r.prev := r]
    {
      lastAgreed := now;
      var th := Some(Fingerprint(r.txs));
      if r.prev != curPrev || th != curTh {
        if r.prev != curPrev {
          templates := map[];
        }
        templates := templates[r.prev := r];
        support := support[r.prev := backer];
      }
    }

    /** Counts the votes and works out what to install: nothing, or a template that is sound. */
    method Resolve(t: Template, isPinned: bool, now: int) returns (r: Option<Template>, ghost backer: Support)
      requires Valid() && t.height > 0 && FeesValid(t.txs) && 0 < t.coinbase <= Subsidy(t.height) + Fees(t.txs)
      ensures r.Some? ==> r.value == t.(txs := r.value.txs, coinbase := r.value.coinbase) && ClaimHolds(r.value)
      ensures r.Some? && r.value.txs != [] ==> Supports(backer, r.value) && backer.at == now && backer.vote in votes.Values
      ensures r in Outcomes(t, votes, t.prev in verifiedBlocks, isPinned, now)
    {
      var c := CountVotes(votes, now, t.prev, t.bits, Fingerprint(t.txs));
      DecisionIsOutcome(t, c, votes, t.prev in verifiedBlocks, isPinned, now);
      var d := Decide(c, t.prev in verifiedBlocks, isPinned, |votes|);
      backer := Support(Vote("", false, "", "", 0, [], (0, ""), 0), now);
      if d.Refuse? {
        return None, backer;
      }
      ResultClaims(t, d);
      ghost var vs := LiveVotes(votes, LiveVoters(votes, votes.Keys, now, t.prev, t.bits));
      ghost var v := ResultSupported(t, c, vs, d, now);
      backer := Support(v, now);
      var result := Reduce(t, d);
      r := Some(result);
    }

    /** A height in step with the template installed, which counts for three minutes after the last agreement. */
    ghost predicate InStep(height: int, now: int)
      reads this
    {
      forall p :: p in templates && now - lastAgreed <= 3 * MINUTE ==>
        templates[p].height <= height <= templates[p].height + 100
    }

    /** The vote and the installation, once a template has been accepted as a vote. */
    method Settle(t: Template, isPinned: bool, now: int) returns (ok: bool, ghost chosen: Option<Template>)
      requires Valid() && t.prev != "" && t.height > 0
      requires FeesValid(t.txs) && 0 < t.coinbase <= Subsidy(t.height) + Fees(t.txs)
      modifies this`templates, this`lastAgreed, this`support
      ensures Valid()
      ensures old(InStep(t.height, now)) ==> chosen in Outcomes(t, votes, t.prev in verifiedBlocks, isPinned, now)
      ensures ok <==> old(InStep(t.height, now)) && chosen.Some?
      ensures !ok ==> templates == old(templates) && lastAgreed == old(lastAgreed)
      ensures ok ==> Settled(t.prev, chosen.value, old(templates), now)
    {
      var curH, curPrev, curTh := Current(now);
      if curH > 0 && (t.height < curH || t.height > curH + 100) {
        return false, None;
      }
      var r, backer := Resolve(t, isPinned, now);
      chosen := r;
      if r.None? {
        return false, chosen;
      }
      Install(r.value, backer, curPrev, curTh, now);
      ok := true;
    }

    /** What an agreement leaves: one template, the chosen one unless the one before has its block and transactions. */
    ghost predicate Settled(prev: string, chosen: Template, was: map<string, Template>, now: int)
      reads this
    {
      && lastAgreed == now
      && templates.Keys == {prev}
      && (templates == map[prev := chosen] ||
          (templates == was && Fingerprint(templates[prev].txs) == Fingerprint(chosen.txs)))
    }

    /** Sums the fees; none if a fee is negative or a transaction has neither data nor identifier. */
    method SumFees(txs: seq<Tx>) returns (fees: Option<int>)
      ensures fees.Some? <==> forall i :: 0 <= i < |txs| ==> txs[i].fee >= 0 && !Nameless(txs[i])
      ensures fees.Some? ==> fees.value == Fees(txs)
    {
      var sum := 0;
      for i := 0 to |txs|
        invariant sum == Fees(txs[..i])
        invariant forall j :: 0 <= j < i ==> txs[j].fee >= 0 && !Nameless(txs[j])
      {
        if txs[i].fee < 0 || (txs[i].data == "" && txs[i].txid == "" && txs[i].hash == "") {
          return None;
        }
        FeesAppend(txs[..i], txs[i]);
        assert txs[..i] + [txs[i]] == txs[..i + 1];
        sum := sum + txs[i].fee;
      }
      assert txs[..|txs|] == txs;
      fees := Some(sum);
    }

    /** The checks before the lock is taken; the most the coinbase may claim, none if they fail. */
    method ScreenTemplate(parsed: Option<Template>, headerOk: bool) returns (limit: Option<nat>)
      ensures limit.Some? <==> Screened(parsed, headerOk)
      ensures limit.Some? ==> limit.value == ClaimLimit(parsed.value) <= Subsidy(parsed.value.height) + Fees(parsed.value.txs)
    {
      if parsed.None? {
        return None;
      }
      var t := parsed.value;
      if !t.fullNode || t.height <= 0 || t.prev == "" || t.bits == "" {
        return None;
      }
      var sub := Subsidy(t.height);
      var sum := SumFees(t.txs);
      if sum.None? || !headerOk {
        return None;
      }
      FeesNonNegative(t.txs);
      limit := Some(sub + if sum.value > sub then sub else sum.value);
    }

    /** Takes the template as the voter's vote, or marks the peer down for its coinbase value. */
    method Cast(peer: string, voter: string, t: Template, limit: int, now: int) returns (cast: bool)
      requires Valid() && FeesValid(t.txs)
      modifies this`scores, this`votes
      ensures Valid()
      ensures cast <==> ScoreOf(old(scores), peer) >= -2 && 0 < t.coinbase <= limit
      ensures scores == if ScoreOf(old(scores), peer) >= -2 && !cast
        then old(scores)[peer := ScoreOf(old(scores), peer) - 1] else old(scores)
      ensures votes == if cast && voter != "" then
          old(votes)[voter := Vote(peer, peer in trusted, t.prev, t.bits, t.height, t.txs, Fingerprint(t.txs), now)]
        else old(votes)
    {
      cast := false;
      if ScoreOf(scores, peer) < -2 {
        return;
      }
      if t.coinbase <= 0 || t.coinbase > limit {
        scores := scores[peer := ScoreOf(scores, peer) - 1];
        return;
      }
      if voter != "" {
        votes := votes[voter := Vote(peer, peer in trusted, t.prev, t.bits, t.height, t.txs, Fingerprint(t.txs), now)];
      }
      cast := true;
    }

    /**
     * ApplyRemoteTemplateJSON: parsed is the decoded template, headerOk the outcome of the check of
     * its previous block's header. The template is installed exactly if it passes the checks, its
     * height is in step and the live votes, its own included, agree.
     */
    method ApplyRemoteTemplate(peer: string, voterKey: string, parsed: Option<Template>, headerOk: bool, now: int)
      returns (ok: bool, ghost chosen: Option<Template>)
      requires Valid()
      modifies this
      ensures Valid()
      ensures votes == old(VotesWith(peer, voterKey, parsed, headerOk, now))
      ensures Screened(parsed, headerOk) ==> verifiedBlocks == old(verifiedBlocks) + {parsed.value.prev}
      ensures !Screened(parsed, headerOk) ==> verifiedBlocks == old(verifiedBlocks)
      ensures scores == if Screened(parsed, headerOk) && ScoreOf(old(scores), peer) >= -2 && !CoinbaseInRange(parsed.value)
        then old(scores)[peer := ScoreOf(old(scores), peer) - 1] else old(scores)
      ensures old(Voted(peer, parsed, headerOk)) && old(InStep(parsed.value.height, now)) ==>
        chosen in Outcomes(parsed.value, votes, parsed.value.prev in verifiedBlocks, peer in trusted, now)
      ensures ok <==> old(Voted(peer, parsed, headerOk)) && old(InStep(parsed.value.height, now)) && chosen.Some?
      ensures !ok ==> templates == old(templates) && lastAgreed == old(lastAgreed)
      ensures ok ==> Settled(parsed.value.prev, chosen.value, old(templates), now)
    {
      ok, chosen := false, None;
      var limit := ScreenTemplate(parsed, headerOk);
      if limit.None? {
        return;
      }
      var t := parsed.value;
      verifiedBlocks := verifiedBlocks + {t.prev};
      var cast := Cast(peer, if voterKey == "" then peer else voterKey, t, limit.value, now);
      if cast {
        ok, chosen := Settle(t, peer in trusted, now);
      }
    }

    /** The template passes the checks and its peer may still vote. */
    ghost predicate Voted(peer: string, parsed: Option<Template>, headerOk: bool)
      reads this
    {
      Screened(parsed, headerOk) && ScoreOf(scores, peer) >= -2 && CoinbaseInRange(parsed.value)
    }

    /** The votes with that of this template. */
    ghost function VotesWith(peer: string, voterKey: string, parsed: Option<Template>, headerOk: bool, now: int): map<string, Vote>
      reads this
    {
      var voter := if voterKey == "" then peer else voterKey;
      if Voted(peer, parsed, headerOk) && voter != "" then
        var t := parsed.value;
        votes[voter := Vote(peer, peer in trusted, t.prev, t.bits, t.height, t.txs, Fingerprint(t.txs), now)]
      else votes
    }
  }
}
