/**
 * The PPLNS split of a block reward into coinbase outputs, the coinbase builder, and the
 * check other nodes make of a share's coinbase.
 */
module Payout {
  import opened Shares
  import opened Sequences
  import opened Sorting
  import opened Window

  const SHARE_VERSION_V2 := 24
  const V2_MANDATORY_ACTIVATION_TIME := 1792519200

  datatype PayoutOutput = PayoutOutput(address: Address, amount: int)

  type Weights = map<Address, nat>

  type ScriptOf = Address -> Option<Script>

  predicate IsStandardPayout(ver: nat, n: nat, segwit: bool) {
    if !segwit then n == 20
    else (ver == 0 && (n == 20 || n == 32)) || (ver == 1 && n == 32)
  }

  predicate ShareHasStandardPayout(s: Share) {
    if s.payoutVersion <= 16 then IsStandardPayout(s.payoutVersion, s.payoutLen, true)
    else IsStandardPayout(s.payoutVersion, s.payoutLen, false) && s.payoutVersion in {0x47, 0x05, 0x6f, 0xc4}
  }

  /** The weight a selected share adds to its address: millionths of its credited difficulty, at least 1. */
  function Weight(s: Share): nat {
    if !ShareHasStandardPayout(s) || s.address == NO_ADDRESS || EffectiveDiff(s) <= 0.0 then 0
    else
      var w := (EffectiveDiff(s) * 1000000.0).Floor;
      if w <= 0 then 1 else w
  }

  /**
   * The payouts that count: witness programs of version 0 or 1, and three kinds of key or script hash.
   * The fourth kind the code lists, version 5, is taken for a witness version and does not count.
   */
  lemma StandardPayouts(s: Share)
    ensures ShareHasStandardPayout(s) <==>
      var v, n := s.payoutVersion, s.payoutLen;
      (n == 20 && (v == 0 || v == 71 || v == 111 || v == 196)) || (n == 32 && (v == 0 || v == 1))
  {
  }

  /**
   * The weight of a share: nothing without a standard payout, an address and credit; otherwise the
   * credit in whole millionths, rounded down, but at least one.
   */
  lemma WeightMeaning(s: Share, c: real)
    requires c == EffectiveDiff(s)
    ensures Weight(s) == 0 <==> !ShareHasStandardPayout(s) || s.address == 0 || c == 0.0
    ensures Weight(s) > 0 && 1000000.0 * c >= 1.0 ==> Weight(s) as real <= 1000000.0 * c < Weight(s) as real + 1.0
    ensures Weight(s) > 0 && 1000000.0 * c < 1.0 ==> Weight(s) == 1
  {
    CreditMeaning(s);
    var x := EffectiveDiff(s) * 1000000.0;
    assert x == 1000000.0 * c;
    assert x.Floor as real <= x < x.Floor as real + 1.0;
    assert c > 0.0 ==> x > 0.0;
    assert x > 0.0 ==> x.Floor >= 0;
  }

  function WeightAt(w: Weights, a: Address): nat {
    if a in w then w[a] else 0
  }

  /** The total weight the shares of l give to a. */
  function WeightFor(l: seq<Share>, a: Address): nat {
    if l == [] then 0
    else WeightFor(l[..|l| - 1], a) + (if l[|l| - 1].address == a then Weight(l[|l| - 1]) else 0)
  }

  /** `w` records for exactly the weighted addresses their total weight. */
  ghost predicate WeightsExact(l: seq<Share>, w: Weights) {
    forall a: Address :: WeightAt(w, a) == WeightFor(l, a) && (a in w <==> WeightFor(l, a) > 0)
  }

  /** The weights the selected shares give their addresses. */
  function WeightsOf(l: seq<Share>): Weights {
    if l == [] then map[]
    else AddWeight(WeightsOf(l[..|l| - 1]), l[|l| - 1])
  }

  function AddWeight(w: Weights, s: Share): Weights {
    if Weight(s) == 0 then w else w[s.address := WeightAt(w, s.address) + Weight(s)]
  }

  lemma {:induction false} WeightsOfExact(l: seq<Share>)
    ensures WeightsExact(l, WeightsOf(l))
  {
    if l != [] {
      WeightsOfExact(l[..|l| - 1]);
    }
  }

  lemma {:induction false} WeightForRemove(l: seq<Share>, k: nat, a: Address)
    requires k < |l|
    ensures WeightFor(l, a) == WeightFor(RemoveAt(l, k), a) + (if l[k].address == a then Weight(l[k]) else 0)
  {
    var n := |l| - 1;
    if k == n {
      assert RemoveAt(l, k) == l[..n];
    } else {
      WeightForRemove(l[..n], k, a);
      RemoveBeforeLast(l, k);
      WeightForLast(RemoveAt(l[..n], k), l[n], a);
    }
  }

  lemma RemoveBeforeLast(l: seq<Share>, k: nat)
    requires k < |l| - 1
    ensures RemoveAt(l, k) == RemoveAt(l[..|l| - 1], k) + [l[|l| - 1]]
  {
  }

  lemma WeightForLast(l: seq<Share>, s: Share, a: Address)
    ensures WeightFor(l + [s], a) == WeightFor(l, a) + (if s.address == a then Weight(s) else 0)
  {
    assert (l + [s])[..|l|] == l;
  }

  lemma {:induction false} WeightForOrderFree(l: seq<Share>, l': seq<Share>, a: Address)
    requires multiset(l) == multiset(l')
    ensures WeightFor(l, a) == WeightFor(l', a)
    decreases |l|
  {
    if l == [] {
      assert |multiset(l')| == 0;
    } else {
      var n := |l| - 1;
      assert RemoveAt(l, n) == l[..n];
      RemoveAtMultiset(l, n);
      assert l[n] in multiset(l');
      var k :| 0 <= k < |l'| && l'[k] == l[n];
      RemoveAtMultiset(l', k);
      WeightForOrderFree(l[..n], RemoveAt(l', k), a);
      WeightForRemove(l', k, a);
    }
  }

  /** The weights, and with them the payout, do not depend on the order of the selected shares. */
  lemma WeightsOrderFree(l: seq<Share>, l': seq<Share>)
    requires multiset(l) == multiset(l')
    ensures WeightsOf(l) == WeightsOf(l')
  {
    WeightsOfExact(l);
    WeightsOfExact(l');
    forall a: Address ensures (a in WeightsOf(l) <==> a in WeightsOf(l')) && WeightAt(WeightsOf(l), a) == WeightAt(WeightsOf(l'), a) {
      WeightForOrderFree(l, l', a);
    }
    assert WeightsOf(l).Keys == WeightsOf(l').Keys;
    forall a | a in WeightsOf(l) ensures WeightsOf(l)[a] == WeightsOf(l')[a] {
      assert WeightAt(WeightsOf(l), a) == WeightAt(WeightsOf(l'), a);
    }
  }

  // ---- the total weight ----

  function SumWeights(w: Weights, addrs: seq<Address>): nat {
    if addrs == [] then 0 else WeightAt(w, addrs[0]) + SumWeights(w, addrs[1..])
  }

  ghost function TotalWeight(w: Weights): nat {
    SumWeights(w, Enumerate(w.Keys))
  }

  lemma {:induction false} SumRemove(w: Weights, s: seq<Address>, k: nat)
    requires k < |s|
    ensures SumWeights(w, s) == SumWeights(w, RemoveAt(s, k)) + WeightAt(w, s[k])
  {
    if k == 0 {
      assert RemoveAt(s, k) == s[1..];
    } else {
      SumRemove(w, s[1..], k - 1);
      var r := RemoveAt(s, k);
      assert r[1..] == RemoveAt(s[1..], k - 1) && r[0] == s[0];
    }
  }

  lemma {:induction false} SumOrderFree(w: Weights, s: seq<Address>, t: seq<Address>)
    requires NoDup(s) && NoDup(t) && forall x :: x in s <==> x in t
    ensures SumWeights(w, s) == SumWeights(w, t)
  {
    assert t == [] || t[0] in t;
    if s != [] {
      assert s[0] in t;
      var k :| 0 <= k < |t| && t[k] == s[0];
      var r := RemoveAt(t, k);
      forall x ensures x in s[1..] <==> x in r {
        assert x in s <==> x in t;
        if x in t && x != s[0] {
          var j :| 0 <= j < |t| && t[j] == x;
          assert x == r[if j < k then j else j - 1];
        }
      }
      SumOrderFree(w, s[1..], r);
      SumRemove(w, t, k);
    }
  }

  lemma {:induction false} SumUpdate(w: Weights, a: Address, d: nat, s: seq<Address>)
    requires NoDup(s)
    ensures SumWeights(w[a := WeightAt(w, a) + d], s) == SumWeights(w, s) + (if a in s then d else 0)
  {
    if s != [] {
      SumUpdate(w, a, d, s[1..]);
    }
  }

  lemma TotalAdd(w: Weights, a: Address, d: nat)
    ensures TotalWeight(w[a := WeightAt(w, a) + d]) == TotalWeight(w) + d
  {
    var w' := w[a := WeightAt(w, a) + d];
    var s, s' := Enumerate(w.Keys), Enumerate(w'.Keys);
    assert forall x :: x in s <==> x in Elems(s);
    assert forall x :: x in s' <==> x in Elems(s');
    if a in w {
      assert w'.Keys == w.Keys;
      SumUpdate(w, a, d, s);
    } else {
      SumOrderFree(w', s', [a] + s);
      assert ([a] + s)[1..] == s;
      SumUpdate(w, a, d, s);
    }
  }

  /** The weighing loop of CalculatePPLNSOutputsAtTip. */
  method WeighShares(l: seq<Share>) returns (w: Weights, total: nat)
    ensures w == WeightsOf(l) && total == TotalWeight(w)
  {
    w, total := map[], 0;
    for i := 0 to |l|
      invariant w == WeightsOf(l[..i]) && total == TotalWeight(w)
    {
      assert l[..i + 1][..i] == l[..i];
      if Weight(l[i]) > 0 {
        TotalAdd(w, l[i].address, Weight(l[i]));
        w := AddWeight(w, l[i]);
        total := total + Weight(l[i]);
      }
    }
    assert l[..|l|] == l;
  }

  // ---- the split ----

  function OutputOf(a: Address, amount: int): seq<PayoutOutput> {
    if amount > 0 then [PayoutOutput(a, amount)] else []
  }

  /** Floors for all addresses but the last, which gets what is left. */
  function SplitOver(reward: int, w: Weights, total: nat, addrs: seq<Address>, left: int): seq<PayoutOutput>
    requires total > 0
  {
    if addrs == [] then []
    else if |addrs| == 1 then OutputOf(addrs[0], left)
    else
      var amount := reward * WeightAt(w, addrs[0]) / total;
      OutputOf(addrs[0], amount) + SplitOver(reward, w, total, addrs[1..], left - amount)
  }

  ghost predicate AllWeighted(w: Weights) {
    forall a :: a in w ==> w[a] > 0
  }

  /** The outputs that pay `reward` by weight, or all of it to the fallback address. */
  ghost function Split(reward: int, fallback: Address, w: Weights): seq<PayoutOutput> {
    if reward <= 0 then []
    else if TotalWeight(w) == 0 then [PayoutOutput(fallback, reward)]
    else SplitOver(reward, w, TotalWeight(w), Enumerate(w.Keys), reward)
  }

  function SumAmounts(outs: seq<PayoutOutput>): int {
    if outs == [] then 0 else outs[0].amount + SumAmounts(outs[1..])
  }

  /** What an address is paid; 0 if it has no output. */
  function AmountTo(outs: seq<PayoutOutput>, a: Address): int {
    if outs == [] then 0 else (if outs[0].address == a then outs[0].amount else 0) + AmountTo(outs[1..], a)
  }

  /** Outputs in strictly ascending address order, each paying something. */
  predicate WellFormed(outs: seq<PayoutOutput>) {
    && (forall i :: 0 <= i < |outs| ==> outs[i].amount > 0)
    && (forall i, j :: 0 <= i < j < |outs| ==> outs[i].address < outs[j].address)
  }

  lemma {:induction false} AmountAbsent(outs: seq<PayoutOutput>, a: Address)
    requires forall i :: 0 <= i < |outs| ==> outs[i].address != a
    ensures AmountTo(outs, a) == 0
  {
    if outs != [] {
      AmountAbsent(outs[1..], a);
    }
  }

  /** Prepending the output of the least address. */
  lemma PrependOutput(a: Address, amount: int, rest: seq<PayoutOutput>)
    requires WellFormed(rest) && amount >= 0 && forall i :: 0 <= i < |rest| ==> a < rest[i].address
    ensures var outs := OutputOf(a, amount) + rest;
      && WellFormed(outs) && SumAmounts(outs) == amount + SumAmounts(rest)
      && AmountTo(outs, a) == amount
      && forall b: Address :: b != a ==> AmountTo(outs, b) == AmountTo(rest, b)
  {
    var outs := OutputOf(a, amount) + rest;
    AmountAbsent(rest, a);
    if amount > 0 {
      assert outs[1..] == rest;
    } else {
      assert outs == rest;
    }
  }

  /** A floor takes at most the exact share, and less than one unit less. */
  lemma FloorStep(reward: int, weight: nat, total: nat, rest: nat, left: int, k: nat)
    requires reward >= 0 && total > 0
    requires reward * (weight + rest) <= left * total <= reward * (weight + rest) + k * (total - 1)
    ensures var f := reward * weight / total;
      f >= 0 && reward * rest <= (left - f) * total <= reward * rest + (k + 1) * (total - 1)
  {
    var f := reward * weight / total;
    var x := reward * weight;
    assert x >= 0;
    assert f * total <= x <= f * total + (total - 1);
    assert (left - f) * total == left * total - f * total;
    assert reward * (weight + rest) == x + reward * rest;
    assert (k + 1) * (total - 1) == k * (total - 1) + (total - 1);
  }

  lemma PositiveFactor(x: int, y: int)
    requires y > 0 && x * y > 0
    ensures x > 0
  {
  }

  /** The last output: at least its floor, at most its floor plus the units the others lost. */
  lemma LastBounds(x: int, total: nat, left: int, k: nat)
    requires total > 0 && 0 <= x <= left * total <= x + k * (total - 1)
    ensures x / total <= left <= x / total + k
  {
    var q := x / total;
    assert q * total <= x <= q * total + (total - 1);
    assert (left - q + 1) * total == left * total - q * total + total;
    PositiveFactor(left - q + 1, total);
    assert (q + k + 1 - left) * total == q * total + k * (total - 1) + k + total - left * total;
    PositiveFactor(q + k + 1 - left, total);
  }

  function FloorShare(reward: int, weight: nat, total: nat): int
    requires total > 0
  {
    reward * weight / total
  }

  /**
   * The outputs spend exactly `left`, give every address but the last its floor, and the last a
   * positive amount between its floor and its floor plus `slack`.
   */
  ghost predicate Fair(outs: seq<PayoutOutput>, reward: int, w: Weights, total: nat, addrs: seq<Address>,
                       left: int, slack: nat)
    requires total > 0 && addrs != []
  {
    && WellFormed(outs) && SumAmounts(outs) == left
    && (forall i :: 0 <= i < |outs| ==> outs[i].address in addrs)
    && (forall i :: 0 <= i < |addrs| - 1 ==>
          AmountTo(outs, addrs[i]) == FloorShare(reward, WeightAt(w, addrs[i]), total))
    && var last := addrs[|addrs| - 1];
       var floor := FloorShare(reward, WeightAt(w, last), total);
       0 < AmountTo(outs, last) && floor <= AmountTo(outs, last) <= floor + slack
  }

  lemma FairPrepend(tail: seq<PayoutOutput>, reward: int, w: Weights, total: nat, addrs: seq<Address>,
                    left: int, slack: nat, f: int)
    requires total > 0 && |addrs| >= 2 && Ascending(addrs)
    requires f == FloorShare(reward, WeightAt(w, addrs[0]), total) && f >= 0
    requires Fair(tail, reward, w, total, addrs[1..], left - f, slack)
    ensures Fair(OutputOf(addrs[0], f) + tail, reward, w, total, addrs, left, slack)
  {
    forall i | 0 <= i < |tail| ensures addrs[0] < tail[i].address && tail[i].address in addrs {
      var j :| 0 <= j < |addrs[1..]| && addrs[1..][j] == tail[i].address;
      assert addrs[j + 1] == tail[i].address;
    }
    PrependOutput(addrs[0], f, tail);
    var outs := OutputOf(addrs[0], f) + tail;
    forall i | 0 < i < |addrs| ensures AmountTo(outs, addrs[i]) == AmountTo(tail, addrs[1..][i - 1]) {
      assert addrs[i] == addrs[1..][i - 1] && addrs[0] < addrs[i];
    }
    forall i | 0 <= i < |addrs| - 1
      ensures AmountTo(outs, addrs[i]) == FloorShare(reward, WeightAt(w, addrs[i]), total)
    {
      if i > 0 {
        assert addrs[i] == addrs[1..][i - 1];
      }
    }
    assert addrs[|addrs| - 1] == addrs[1..][|addrs| - 2];
  }

  /** The split over a tail of the addresses is fair if the k floors before it lost less than k units. */
  lemma {:induction false} SplitTail(reward: int, w: Weights, total: nat, addrs: seq<Address>, left: int, k: nat)
    requires reward > 0 && total > 0 && addrs != [] && Ascending(addrs)
    requires forall i :: 0 <= i < |addrs| ==> WeightAt(w, addrs[i]) > 0
    requires var r := reward * SumWeights(w, addrs); r <= left * total <= r + k * (total - 1)
    ensures Fair(SplitOver(reward, w, total, addrs, left), reward, w, total, addrs, left, k + |addrs| - 1)
    decreases |addrs|
  {
    var weight, rest := WeightAt(w, addrs[0]), SumWeights(w, addrs[1..]);
    if |addrs| == 1 {
      assert rest == 0;
      LastBounds(reward * weight, total, left, k);
      assert left * total >= reward * weight > 0;
      PositiveFactor(left, total);
    } else {
      FloorStep(reward, weight, total, rest, left, k);
      var f := FloorShare(reward, weight, total);
      SplitTail(reward, w, total, addrs[1..], left - f, k + 1);
      FairPrepend(SplitOver(reward, w, total, addrs[1..], left - f), reward, w, total, addrs, left, k + |addrs| - 1, f);
    }
  }

  /**
   * The PPLNS payout of a positive reward: the outputs spend it exactly, each is positive, in
   * ascending address order; every weighted address but the last gets the floor of its share,
   * and the last a positive amount between its floor and its floor plus n - 1. Without weights
   * everything goes to the fallback.
   */
  lemma SplitMeaning(reward: int, fallback: Address, w: Weights)
    requires reward > 0 && AllWeighted(w)
    ensures var outs := Split(reward, fallback, w);
      && WellFormed(outs) && SumAmounts(outs) == reward && outs != []
      && (w == map[] ==> outs == [PayoutOutput(fallback, reward)])
      && (w != map[] ==>
            var addrs := Enumerate(w.Keys);
            addrs != [] && TotalWeight(w) > 0 && Fair(outs, reward, w, TotalWeight(w), addrs, reward, |w| - 1))
  {
    var addrs, total := Enumerate(w.Keys), TotalWeight(w);
    assert forall a :: a in addrs <==> a in w;
    assert SumAmounts([]) == 0;
    if w != map[] {
      var a :| a in w;
      assert a in addrs;
      assert total >= WeightAt(w, addrs[0]) > 0;
      SplitTail(reward, w, total, addrs, reward, 0);
      NoDupCard(addrs);
    } else {
      assert Elems(addrs) == {};
      assert |Elems(addrs)| == |addrs| by { NoDupCard(addrs); }
    }
  }

  // ---- CalculatePPLNSOutputsAtTip ----

  function AmountMap(outs: seq<PayoutOutput>): map<Address, int> {
    if outs == [] then map[] else AmountMap(outs[..|outs| - 1])[outs[|outs| - 1].address := outs[|outs| - 1].amount]
  }

  function Addresses(outs: seq<PayoutOutput>): seq<Address> {
    seq(|outs|, i requires 0 <= i < |outs| => outs[i].address)
  }

  lemma {:induction false} AmountMapMeaning(outs: seq<PayoutOutput>)
    requires WellFormed(outs)
    ensures AmountMap(outs).Keys == Elems(Addresses(outs))
    ensures forall i :: 0 <= i < |outs| ==>
      outs[i].address in AmountMap(outs) && AmountMap(outs)[outs[i].address] == outs[i].amount
  {
    if outs != [] {
      var n := |outs| - 1;
      AmountMapMeaning(outs[..n]);
      assert Addresses(outs) == Addresses(outs[..n]) + [outs[n].address];
      assert forall i :: 0 <= i < n ==> outs[..n][i] == outs[i];
    }
  }

  lemma AmountMapAppend(outs: seq<PayoutOutput>, a: Address, amount: int)
    ensures AmountMap(outs + OutputOf(a, amount)) == if amount > 0 then AmountMap(outs)[a := amount] else AmountMap(outs)
  {
    if amount > 0 {
      assert (outs + OutputOf(a, amount))[..|outs|] == outs;
    } else {
      assert outs + OutputOf(a, amount) == outs;
    }
  }

  /** One step of the split from position i on. */
  lemma SplitUnfold(reward: int, w: Weights, total: nat, addrs: seq<Address>, i: nat, left: int, done: seq<PayoutOutput>)
    requires total > 0 && i < |addrs|
    ensures var a := addrs[i];
      var amount := reward * WeightAt(w, a) / total;
      && (reward > 0 ==> amount >= 0)
      && done + SplitOver(reward, w, total, addrs[i..], left) ==
         if i == |addrs| - 1 then done + OutputOf(a, left)
         else (done + OutputOf(a, amount)) + SplitOver(reward, w, total, addrs[i + 1..], left - amount)
  {
    var amount := reward * WeightAt(w, addrs[i]) / total;
    assert addrs[i..][1..] == addrs[i + 1..];
    if reward > 0 {
      PartNonNegative(reward, WeightAt(w, addrs[i]), total);
    }
    if i < |addrs| - 1 {
      AppendOutput(done, OutputOf(addrs[i], amount), SplitOver(reward, w, total, addrs[i + 1..], left - amount));
    }
  }

  lemma PartNonNegative(reward: int, weight: nat, total: nat)
    requires reward > 0 && total > 0
    ensures reward * weight / total >= 0
  {
    assert reward * weight >= 0;
  }

  lemma AppendOutput(done: seq<PayoutOutput>, next: seq<PayoutOutput>, rest: seq<PayoutOutput>)
    ensures done + (next + rest) == (done + next) + rest
  {
  }

  /** The allocation loop: amounts by address, the last weighted address taking the remainder. */
  method Allocate(reward: int, w: Weights, total: nat, addrs: seq<Address>) returns (amounts: map<Address, int>)
    requires reward > 0 && total > 0 && Ascending(addrs)
    ensures amounts == AmountMap(SplitOver(reward, w, total, addrs, reward))
  {
    amounts := map[];
    var given := 0;
    ghost var done: seq<PayoutOutput> := [];
    assert addrs[0..] == addrs;
    for i := 0 to |addrs|
      invariant amounts == AmountMap(done)
      invariant i < |addrs| ==>
        done + SplitOver(reward, w, total, addrs[i..], reward - given) == SplitOver(reward, w, total, addrs, reward)
      invariant i == |addrs| ==> done == SplitOver(reward, w, total, addrs, reward)
    {
      SplitUnfold(reward, w, total, addrs, i, reward - given, done);
      var last := i == |addrs| - 1;
      var amount := if last then reward - given else reward * WeightAt(w, addrs[i]) / total;
      AmountMapAppend(done, addrs[i], amount);
      done := done + OutputOf(addrs[i], amount);
      if amount > 0 {
        amounts := amounts[addrs[i] := amount];
        given := given + amount;
      }
    }
  }

  /** The positive amounts in address order. */
  method Emit(amounts: map<Address, int>, ghost spec: seq<PayoutOutput>) returns (outs: seq<PayoutOutput>)
    requires WellFormed(spec) && amounts == AmountMap(spec)
    ensures outs == spec
  {
    AmountMapMeaning(spec);
    var addrs := SortAscending(amounts.Keys);
    AscendingUnique(addrs, Addresses(spec));
    assert forall i :: 0 <= i < |addrs| ==> addrs[i] == spec[i].address;
    outs := [];
    for i := 0 to |addrs|
      invariant outs == spec[..i]
    {
      if amounts[addrs[i]] > 0 {
        outs := outs + [PayoutOutput(addrs[i], amounts[addrs[i]])];
      }
    }
  }

  /** What the shares selected at an anchor are paid. */
  ghost function ExpectedOutputs(m: ShareMap, rank: Rank, tip: Hash, anchor: Option<Hash>,
                                 reward: int, fallback: Address): seq<PayoutOutput>
    requires Acyclic(m, rank)
  {
    Split(reward, fallback, WeightsOf(PayoutShares(m, rank, tip, anchor, DEFAULT_PPLNS_WINDOW)))
  }

  lemma ExpectedOutputsMeaning(m: ShareMap, rank: Rank, tip: Hash, anchor: Option<Hash>, reward: int, fallback: Address)
    requires Acyclic(m, rank) && reward > 0
    ensures var outs := ExpectedOutputs(m, rank, tip, anchor, reward, fallback);
      WellFormed(outs) && SumAmounts(outs) == reward && outs != []
  {
    var l := PayoutShares(m, rank, tip, anchor, DEFAULT_PPLNS_WINDOW);
    WeightsAllWeighted(l);
    SplitMeaning(reward, fallback, WeightsOf(l));
  }

  lemma WeightsAllWeighted(l: seq<Share>)
    ensures AllWeighted(WeightsOf(l))
  {
    WeightsOfExact(l);
    forall a | a in WeightsOf(l) ensures WeightsOf(l)[a] > 0 {
      assert WeightAt(WeightsOf(l), a) == WeightFor(l, a);
    }
  }

  // ---- what the difficulties are paid ----

  /** A share that is paid, with a credit of k millionths of difficulty. */
  predicate PaidFor(s: Share, k: nat) {
    ShareHasStandardPayout(s) && s.address != 0 && k > 0 && EffectiveDiff(s) * 1000000.0 == k as real
  }

  /** Paid shares of different addresses, with credits of ks millionths of difficulty. */
  predicate OneShareEach(l: seq<Share>, ks: seq<nat>) {
    && |l| == |ks| && (forall i :: 0 <= i < |l| ==> PaidFor(l[i], ks[i]))
    && (forall i, j :: 0 <= i < j < |l| ==> l[i].address != l[j].address)
  }

  lemma WholeWeight(s: Share, k: nat)
    requires PaidFor(s, k)
    ensures Weight(s) == k
  {
    CreditMeaning(s);
    assert (k as real).Floor == k;
  }

  lemma {:induction false} WeightForNobody(l: seq<Share>, a: Address)
    requires forall i :: 0 <= i < |l| ==> l[i].address != a
    ensures WeightFor(l, a) == 0
  {
    if l != [] {
      WeightForNobody(l[..|l| - 1], a);
    }
  }

  /** An address with one share has that share's weight. */
  lemma {:induction false} WeightForOne(l: seq<Share>, i: nat)
    requires i < |l| && forall j :: 0 <= j < |l| && j != i ==> l[j].address != l[i].address
    ensures WeightFor(l, l[i].address) == Weight(l[i])
  {
    var n := |l| - 1;
    if i == n {
      WeightForNobody(l[..n], l[i].address);
    } else {
      WeightForOne(l[..n], i);
    }
  }

  function SumOfWeights(l: seq<Share>): nat {
    if l == [] then 0 else SumOfWeights(l[..|l| - 1]) + Weight(l[|l| - 1])
  }

  lemma NoWeights()
    ensures TotalWeight(map[]) == 0
  {
    var w: Weights := map[];
    assert Elems(Enumerate(w.Keys)) == {};
    NoDupCard(Enumerate(w.Keys));
  }

  /** The total weight is the sum of the shares' weights. */
  lemma {:induction false} TotalIsSum(l: seq<Share>)
    ensures TotalWeight(WeightsOf(l)) == SumOfWeights(l)
  {
    if l == [] {
      NoWeights();
    } else {
      var n := |l| - 1;
      TotalIsSum(l[..n]);
      if Weight(l[n]) > 0 {
        TotalAdd(WeightsOf(l[..n]), l[n].address, Weight(l[n]));
      }
    }
  }

  function Sum(ks: seq<nat>): nat {
    if ks == [] then 0 else Sum(ks[..|ks| - 1]) + ks[|ks| - 1]
  }

  lemma {:induction false} SumIsCredit(l: seq<Share>, ks: seq<nat>)
    requires |l| == |ks| && forall i :: 0 <= i < |l| ==> PaidFor(l[i], ks[i])
    ensures SumOfWeights(l) == Sum(ks)
  {
    if l != [] {
      var n := |l| - 1;
      SumIsCredit(l[..n], ks[..n]);
      WholeWeight(l[n], ks[n]);
    }
  }

  /**
   * The share of the reward by difficulty: the credited difficulty's part of the sum of them, rounded
   * down; the highest address also gets the units that rounding left over, fewer than there are shares.
   */
  predicate PaidByDifficulty(outs: seq<PayoutOutput>, l: seq<Share>, ks: seq<nat>, reward: int, i: nat)
    requires |l| == |ks| && i < |l|
  {
    var amount, total := AmountTo(outs, l[i].address), Sum(ks);
    total > 0 &&
    var part := reward * ks[i] / total;
    && part <= amount <= part + |l| - 1
    && ((exists j :: 0 <= j < |l| && l[j].address > l[i].address) ==> amount == part)
  }

  lemma SplitByDifficulty(l: seq<Share>, ks: seq<nat>, reward: int, fallback: Address, i: nat)
    requires reward > 0 && OneShareEach(l, ks) && i < |l|
    ensures PaidByDifficulty(Split(reward, fallback, WeightsOf(l)), l, ks, reward, i)
  {
    var w, a := WeightsOf(l), l[i].address;
    var outs := Split(reward, fallback, w);
    WeighedAlone(l, ks, i);
    ShareCount(l, ks);
    WeightsAllWeighted(l);
    SplitMeaning(reward, fallback, w);
    PaidFloor(outs, reward, w, a);
    assert (exists j :: 0 <= j < |l| && l[j].address > a) ==> exists b :: b in w && b > a by {
      if j :| 0 <= j < |l| && l[j].address > a {
        WeighedAlone(l, ks, j);
      }
    }
  }

  /** A share alone at its address: what it weighs, in the map and in all. */
  lemma WeighedAlone(l: seq<Share>, ks: seq<nat>, i: nat)
    requires OneShareEach(l, ks) && i < |l|
    ensures l[i].address in WeightsOf(l) && WeightAt(WeightsOf(l), l[i].address) == ks[i]
    ensures TotalWeight(WeightsOf(l)) == Sum(ks)
  {
    WeightsOfExact(l);
    WholeWeight(l[i], ks[i]);
    WeightForOne(l, i);
    TotalIsSum(l);
    SumIsCredit(l, ks);
  }

  /** As many weighted addresses as shares. */
  lemma ShareCount(l: seq<Share>, ks: seq<nat>)
    requires OneShareEach(l, ks)
    ensures |WeightsOf(l)| == |l|
  {
    var addrs := seq(|l|, i requires 0 <= i < |l| => l[i].address);
    WeightsOfExact(l);
    assert NoDup(addrs);
    NoDupCard(addrs);
    forall a
      ensures a in WeightsOf(l) <==> a in addrs
    {
      if a in addrs {
        var i :| 0 <= i < |l| && l[i].address == a;
        WeighedAlone(l, ks, i);
      } else {
        assert forall i :: 0 <= i < |l| ==> addrs[i] == l[i].address;
        WeightForNobody(l, a);
      }
    }
    assert WeightsOf(l).Keys == Elems(addrs);
  }

  /** An address gets its floor, the highest one at most as many units more as there are other addresses. */
  lemma PaidFloor(outs: seq<PayoutOutput>, reward: int, w: Weights, a: Address)
    requires a in w && TotalWeight(w) > 0 && Enumerate(w.Keys) != []
    requires Fair(outs, reward, w, TotalWeight(w), Enumerate(w.Keys), reward, |w| - 1)
    ensures var floor := FloorShare(reward, WeightAt(w, a), TotalWeight(w));
      floor <= AmountTo(outs, a) <= floor + |w| - 1 && ((exists b :: b in w && b > a) ==> AmountTo(outs, a) == floor)
  {
    var addrs := Enumerate(w.Keys);
    assert a in Elems(addrs);
    var k :| 0 <= k < |addrs| && addrs[k] == a;
    if b :| b in w && b > a {
      assert b in Elems(addrs);
      var j :| 0 <= j < |addrs| && addrs[j] == b;
      assert k < |addrs| - 1;
    }
  }

  /** CalculatePPLNSOutputsAtTip */
  method CalculateOutputs(m: ShareMap, tip: Hash, anchor: Option<Hash>, reward: int, fallback: Address, ghost rank: Rank)
    returns (outs: seq<PayoutOutput>)
    requires Acyclic(m, rank)
    ensures outs == ExpectedOutputs(m, rank, tip, anchor, reward, fallback)
    ensures var l := PayoutShares(m, rank, tip, anchor, DEFAULT_PPLNS_WINDOW);
      reward > 0 ==> forall ks: seq<nat>, i: nat :: OneShareEach(l, ks) && i < |l| ==> PaidByDifficulty(outs, l, ks, reward, i)
  {
    if reward <= 0 {
      return [];
    }
    ghost var selected := PayoutShares(m, rank, tip, anchor, DEFAULT_PPLNS_WINDOW);
    forall ks: seq<nat>, i: nat | OneShareEach(selected, ks) && i < |selected|
      ensures PaidByDifficulty(ExpectedOutputs(m, rank, tip, anchor, reward, fallback), selected, ks, reward, i)
    {
      SplitByDifficulty(selected, ks, reward, fallback, i);
    }
    ExpectedOutputsMeaning(m, rank, tip, anchor, reward, fallback);
    ghost var spec := ExpectedOutputs(m, rank, tip, anchor, reward, fallback);
    var l := SharesForPayout(m, tip, anchor, DEFAULT_PPLNS_WINDOW, rank);
    var w, total := WeighShares(l);
    var amounts: map<Address, int>;
    if total > 0 {
      var addrs := SortAscending(w.Keys);
      amounts := Allocate(reward, w, total, addrs);
    } else {
      amounts := map[fallback := reward];
      assert spec[..0] == [];
    }
    outs := Emit(amounts, spec);
  }
}
