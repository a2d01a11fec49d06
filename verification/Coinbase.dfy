/**
 * The coinbase of a share: the outputs the builder emits, and the check every node makes
 * that the outputs pay exactly the PPLNS split.
 */
module Coinbase {
  import opened Shares
  import opened Sequences
  import opened Window
  import opened Payout

  /** Address decoding, an opaque library function; None is a decoding error. */
  predicate Decodes(scriptOf: ScriptOf, exp: seq<PayoutOutput>) {
    forall i :: 0 <= i < |exp| ==> scriptOf(exp[i].address).Some?
  }

  /** Distinct payout addresses have distinct scripts. */
  ghost predicate DistinctScripts(scriptOf: ScriptOf) {
    forall a, b :: a != b && scriptOf(a).Some? ==> scriptOf(a) != scriptOf(b)
  }

  function AsTxOut(scriptOf: ScriptOf, e: PayoutOutput): TxOut {
    TxOut(e.amount, if scriptOf(e.address).Some? then scriptOf(e.address).value else [])
  }

  function AsTxOuts(scriptOf: ScriptOf, exp: seq<PayoutOutput>): seq<TxOut> {
    if exp == [] then [] else AsTxOuts(scriptOf, exp[..|exp| - 1]) + [AsTxOut(scriptOf, exp[|exp| - 1])]
  }

  function Positive(outs: seq<TxOut>): seq<TxOut> {
    if outs == [] then []
    else Positive(outs[..|outs| - 1]) + (if outs[|outs| - 1].value > 0 then [outs[|outs| - 1]] else [])
  }

  function SumValues(outs: seq<TxOut>): int {
    if outs == [] then 0 else SumValues(outs[..|outs| - 1]) + outs[|outs| - 1].value
  }

  /** The total paid to one script. */
  function PaidTo(outs: seq<TxOut>, script: Script): int {
    if outs == [] then 0
    else PaidTo(outs[..|outs| - 1], script) + (if outs[|outs| - 1].script == script then outs[|outs| - 1].value else 0)
  }

  /** The paying outputs are the expected ones, in any order and no others. */
  ghost predicate PaysExactly(outs: seq<TxOut>, exp: seq<PayoutOutput>, scriptOf: ScriptOf) {
    Decodes(scriptOf, exp) && multiset(Positive(outs)) == multiset(AsTxOuts(scriptOf, exp))
  }

  /** The two checks of the code: as many paying outputs as expected, and every amount right. */
  ghost predicate ChecksPass(outs: seq<TxOut>, exp: seq<PayoutOutput>, scriptOf: ScriptOf) {
    |Positive(outs)| == |exp| && Decodes(scriptOf, exp) && PaysAll(Positive(outs), exp, scriptOf)
  }

  predicate Pays(outs: seq<TxOut>, e: PayoutOutput, scriptOf: ScriptOf) {
    PaidTo(outs, AsTxOut(scriptOf, e).script) == e.amount
  }

  /** Every expected script is paid its amount. */
  predicate PaysAll(outs: seq<TxOut>, exp: seq<PayoutOutput>, scriptOf: ScriptOf) {
    forall i {:trigger Pays(outs, exp[i], scriptOf)} :: 0 <= i < |exp| ==> Pays(outs, exp[i], scriptOf)
  }

  // ---- sums over permutations ----

  lemma {:induction false} PaidToRemove(outs: seq<TxOut>, k: nat, script: Script)
    requires k < |outs|
    ensures PaidTo(outs, script) == PaidTo(RemoveAt(outs, k), script) + (if outs[k].script == script then outs[k].value else 0)
  {
    var n := |outs| - 1;
    if k == n {
      assert RemoveAt(outs, k) == outs[..n];
    } else {
      PaidToRemove(outs[..n], k, script);
      var r := RemoveAt(outs, k);
      assert r[..|r| - 1] == RemoveAt(outs[..n], k) && r[|r| - 1] == outs[n];
    }
  }

  lemma {:induction false} PaidToOrderFree(outs: seq<TxOut>, outs': seq<TxOut>, script: Script)
    requires multiset(outs) == multiset(outs')
    ensures PaidTo(outs, script) == PaidTo(outs', script)
    decreases |outs|
  {
    if outs == [] {
      assert |multiset(outs')| == 0;
    } else {
      var n := |outs| - 1;
      assert RemoveAt(outs, n) == outs[..n];
      RemoveAtMultiset(outs, n);
      assert outs[n] in multiset(outs');
      var k :| 0 <= k < |outs'| && outs'[k] == outs[n];
      RemoveAtMultiset(outs', k);
      PaidToOrderFree(outs[..n], RemoveAt(outs', k), script);
      PaidToRemove(outs', k, script);
    }
  }

  lemma {:induction false} PaidToAbsent(outs: seq<TxOut>, script: Script)
    requires forall i :: 0 <= i < |outs| ==> outs[i].script != script
    ensures PaidTo(outs, script) == 0
  {
    if outs != [] {
      PaidToAbsent(outs[..|outs| - 1], script);
    }
  }

  lemma {:induction false} PaidToFound(outs: seq<TxOut>, script: Script) returns (k: nat)
    requires PaidTo(outs, script) != 0
    ensures k < |outs| && outs[k].script == script
  {
    var n := |outs| - 1;
    if outs[n].script == script {
      k := n;
    } else {
      k := PaidToFound(outs[..n], script);
    }
  }

  lemma {:induction false} AsTxOutsAt(scriptOf: ScriptOf, exp: seq<PayoutOutput>, i: nat)
    requires i < |exp|
    ensures |AsTxOuts(scriptOf, exp)| == |exp| && AsTxOuts(scriptOf, exp)[i] == AsTxOut(scriptOf, exp[i])
  {
    var n := |exp| - 1;
    if n > 0 {
      AsTxOutsAt(scriptOf, exp[..n], if i < n then i else 0);
    }
  }

  /** Scripts of different expected outputs differ. */
  lemma ScriptsDiffer(scriptOf: ScriptOf, exp: seq<PayoutOutput>, i: nat, j: nat)
    requires WellFormed(exp) && Decodes(scriptOf, exp) && DistinctScripts(scriptOf) && i < |exp| && j < |exp| && i != j
    ensures AsTxOut(scriptOf, exp[i]).script != AsTxOut(scriptOf, exp[j]).script
  {
    assert exp[i].address != exp[j].address;
  }

  /** No expected output before the last one has the last one's script. */
  lemma LastScriptFresh(scriptOf: ScriptOf, exp: seq<PayoutOutput>)
    requires WellFormed(exp) && Decodes(scriptOf, exp) && DistinctScripts(scriptOf) && exp != []
    ensures var n := |exp| - 1;
      PaidTo(AsTxOuts(scriptOf, exp[..n]), AsTxOut(scriptOf, exp[n]).script) == 0
  {
    var n := |exp| - 1;
    var before := AsTxOuts(scriptOf, exp[..n]);
    forall i | 0 <= i < |before| ensures before[i].script != AsTxOut(scriptOf, exp[n]).script {
      if n > 0 {
        AsTxOutsAt(scriptOf, exp[..n], 0);
        AsTxOutsAt(scriptOf, exp[..n], i);
        ScriptsDiffer(scriptOf, exp, i, n);
      }
    }
    PaidToAbsent(before, AsTxOut(scriptOf, exp[n]).script);
  }

  /** What an expected output's script is paid by the expected outputs is its own amount. */
  lemma {:induction false} ExpectedPaid(scriptOf: ScriptOf, exp: seq<PayoutOutput>, i: nat)
    requires WellFormed(exp) && Decodes(scriptOf, exp) && DistinctScripts(scriptOf) && i < |exp|
    ensures PaidTo(AsTxOuts(scriptOf, exp), AsTxOut(scriptOf, exp[i]).script) == exp[i].amount
  {
    var n := |exp| - 1;
    var outs := AsTxOuts(scriptOf, exp);
    assert outs[..|outs| - 1] == AsTxOuts(scriptOf, exp[..n]);
    if i == n {
      LastScriptFresh(scriptOf, exp);
    } else {
      ExpectedPaid(scriptOf, exp[..n], i);
      ScriptsDiffer(scriptOf, exp, i, n);
    }
  }

  /** The output found for the last script is the last expected one. */
  lemma AddLast(outs: seq<TxOut>, k: nat, before: seq<TxOut>, last: TxOut)
    requires k < |outs| && outs[k].script == last.script && PaidTo(outs, last.script) == last.value
    requires PaidTo(before, last.script) == 0 && multiset(RemoveAt(outs, k)) == multiset(before)
    ensures multiset(outs) == multiset(before + [last])
  {
    PaidToOrderFree(RemoveAt(outs, k), before, last.script);
    PaidToRemove(outs, k, last.script);
    RemoveAtMultiset(outs, k);
    assert outs[k] == last && outs[k] in multiset(outs);
  }

  /** Without the output for the last script, the other scripts are paid as before. */
  lemma OthersStillPaid(outs: seq<TxOut>, exp: seq<PayoutOutput>, scriptOf: ScriptOf, k: nat)
    requires WellFormed(exp) && Decodes(scriptOf, exp) && DistinctScripts(scriptOf)
    requires exp != [] && k < |outs| && outs[k].script == AsTxOut(scriptOf, exp[|exp| - 1]).script
    requires PaysAll(outs, exp, scriptOf)
    ensures PaysAll(RemoveAt(outs, k), exp[..|exp| - 1], scriptOf)
  {
    var n := |exp| - 1;
    forall i | 0 <= i < n
      ensures Pays(RemoveAt(outs, k), exp[..n][i], scriptOf)
    {
      assert Pays(outs, exp[i], scriptOf);
      PaidToRemove(outs, k, AsTxOut(scriptOf, exp[i]).script);
      ScriptsDiffer(scriptOf, exp, i, n);
    }
  }

  /**
   * With n outputs and n expected scripts each paid its amount, the outputs are the expected
   * ones: every script takes at least one output, so none takes two and none is left over.
   */
  lemma {:induction false} CountAndAmountsSuffice(outs: seq<TxOut>, exp: seq<PayoutOutput>, scriptOf: ScriptOf)
    requires WellFormed(exp) && Decodes(scriptOf, exp) && DistinctScripts(scriptOf)
    requires |outs| == |exp| && PaysAll(outs, exp, scriptOf)
    ensures multiset(outs) == multiset(AsTxOuts(scriptOf, exp))
    decreases |exp|
  {
    if exp != [] {
      var n := |exp| - 1;
      var last := AsTxOut(scriptOf, exp[n]);
      assert Pays(outs, exp[n], scriptOf);
      var k := PaidToFound(outs, last.script);
      OthersStillPaid(outs, exp, scriptOf, k);
      CountAndAmountsSuffice(RemoveAt(outs, k), exp[..n], scriptOf);
      LastScriptFresh(scriptOf, exp);
      AddLast(outs, k, AsTxOuts(scriptOf, exp[..n]), last);
    }
  }

  /** The count and amount checks pass exactly when the paying outputs are the expected ones. */
  lemma ChecksAreExact(outs: seq<TxOut>, exp: seq<PayoutOutput>, scriptOf: ScriptOf)
    requires WellFormed(exp) && DistinctScripts(scriptOf)
    ensures ChecksPass(outs, exp, scriptOf) <==> PaysExactly(outs, exp, scriptOf)
  {
    if ChecksPass(outs, exp, scriptOf) {
      CountAndAmountsSuffice(Positive(outs), exp, scriptOf);
    }
    if PaysExactly(outs, exp, scriptOf) {
      var want := AsTxOuts(scriptOf, exp);
      if exp != [] {
        AsTxOutsAt(scriptOf, exp, 0);
      }
      assert |multiset(Positive(outs))| == |Positive(outs)| && |multiset(want)| == |want|;
      forall i | 0 <= i < |exp|
        ensures Pays(Positive(outs), exp[i], scriptOf)
      {
        PaidToOrderFree(Positive(outs), want, AsTxOut(scriptOf, exp[i]).script);
        ExpectedPaid(scriptOf, exp, i);
      }
    }
  }

  // ---- VerifyShareCoinbase ----

  predicate OccursAt(script: Script, needle: Script, k: nat) {
    k + |needle| <= |script| && script[k..k + |needle|] == needle
  }

  predicate Contains(script: Script, needle: Script) {
    exists k: nat :: k <= |script| && OccursAt(script, needle, k)
  }

  /** Everything VerifyShareCoinbase asks of a share apart from who is paid. */
  ghost predicate EnvelopeValid(s: Share, outs: seq<TxOut>) {
    var total := SumValues(Positive(outs));
    && total > 0 && (s.subsidy > 0 ==> total == s.subsidy)
    && (s.headerTime >= V2_MANDATORY_ACTIVATION_TIME ==> s.version >= SHARE_VERSION_V2)
    && (s.version >= SHARE_VERSION_V2 ==>
          s.timestamp == s.headerTime && exists o :: o in outs && o.value == 0 && Contains(o.script, s.commitment))
  }

  /** What the share's own total is expected to be split into. */
  ghost function ExpectedFor(s: Share, outs: seq<TxOut>, m: ShareMap, rank: Rank, tip: Hash): seq<PayoutOutput>
    requires Acyclic(m, rank)
  {
    ExpectedOutputs(m, rank, tip, s.prev, SumValues(Positive(outs)), s.address)
  }

  ghost predicate CoinbaseAccepted(s: Share, m: ShareMap, rank: Rank, tip: Hash, scriptOf: ScriptOf)
    requires Acyclic(m, rank)
  {
    && s.coinbase.Some? && EnvelopeValid(s, s.coinbase.value)
    && ChecksPass(s.coinbase.value, ExpectedFor(s, s.coinbase.value, m, rank, tip), scriptOf)
  }

  /** An accepted coinbase pays exactly the PPLNS split of its own total, and nothing else passes. */
  lemma AcceptedIsExact(s: Share, m: ShareMap, rank: Rank, tip: Hash, scriptOf: ScriptOf)
    requires Acyclic(m, rank) && DistinctScripts(scriptOf)
    ensures CoinbaseAccepted(s, m, rank, tip, scriptOf) <==>
      && s.coinbase.Some? && EnvelopeValid(s, s.coinbase.value)
      && PaysExactly(s.coinbase.value, ExpectedFor(s, s.coinbase.value, m, rank, tip), scriptOf)
  {
    if s.coinbase.Some? && EnvelopeValid(s, s.coinbase.value) {
      var total := SumValues(Positive(s.coinbase.value));
      ExpectedOutputsMeaning(m, rank, tip, s.prev, total, s.address);
      ChecksAreExact(s.coinbase.value, ExpectedFor(s, s.coinbase.value, m, rank, tip), scriptOf);
    }
  }

  /** What the verifier refuses before it looks at who is paid. */
  lemma EnvelopeRefuses(s: Share, m: ShareMap, rank: Rank, tip: Hash, scriptOf: ScriptOf)
    requires Acyclic(m, rank)
    ensures s.coinbase.None? ==> !CoinbaseAccepted(s, m, rank, tip, scriptOf)
    ensures s.coinbase.Some? ==>
      var outs := s.coinbase.value;
      var paid := SumValues(Positive(outs));
      && (paid <= 0 ==> !CoinbaseAccepted(s, m, rank, tip, scriptOf))
      && (s.subsidy > 0 && paid != s.subsidy ==> !CoinbaseAccepted(s, m, rank, tip, scriptOf))
      && (s.headerTime >= 1792519200 && s.version < 24 ==> !CoinbaseAccepted(s, m, rank, tip, scriptOf))
      && (s.version >= 24 && s.timestamp != s.headerTime ==> !CoinbaseAccepted(s, m, rank, tip, scriptOf))
      && (s.version >= 24 && (forall o :: o in outs && o.value == 0 ==> !Contains(o.script, s.commitment)) ==>
            !CoinbaseAccepted(s, m, rank, tip, scriptOf))
  {
  }

  function PaidIn(actual: map<Script, int>, script: Script): int {
    if script in actual then actual[script] else 0
  }

  /** `actual` records by script what the outputs pay. */
  ghost predicate Tallied(actual: map<Script, int>, outs: seq<TxOut>) {
    forall sc: Script {:trigger PaidIn(actual, sc)} :: PaidIn(actual, sc) == PaidTo(outs, sc)
  }

  lemma PositiveNext(outs: seq<TxOut>, i: nat)
    requires i < |outs|
    ensures Positive(outs[..i + 1]) == if outs[i].value > 0 then Positive(outs[..i]) + [outs[i]] else Positive(outs[..i])
  {
    assert outs[..i + 1][..i] == outs[..i];
  }

  lemma TalliedNext(actual: map<Script, int>, outs: seq<TxOut>, o: TxOut)
    requires Tallied(actual, outs)
    ensures Tallied(actual[o.script := PaidIn(actual, o.script) + o.value], outs + [o])
    ensures SumValues(outs + [o]) == SumValues(outs) + o.value
  {
    assert (outs + [o])[..|outs|] == outs;
    var next := actual[o.script := PaidIn(actual, o.script) + o.value];
    forall sc: Script
      ensures PaidIn(next, sc) == PaidTo(outs + [o], sc)
    {
      assert PaidIn(actual, sc) == PaidTo(outs, sc);
    }
  }

  /** The tally of the first i outputs. */
  ghost predicate TallyAt(outs: seq<TxOut>, i: nat, actual: map<Script, int>, total: int, n: nat)
    requires i <= |outs|
  {
    Tallied(actual, Positive(outs[..i])) && total == SumValues(Positive(outs[..i])) && n == |Positive(outs[..i])|
  }

  lemma TallyStep(outs: seq<TxOut>, i: nat, actual: map<Script, int>, total: int, n: nat)
    requires i < |outs| && TallyAt(outs, i, actual, total, n)
    ensures var o := outs[i];
      if o.value > 0
      then TallyAt(outs, i + 1, actual[o.script := PaidIn(actual, o.script) + o.value], total + o.value, n + 1)
      else TallyAt(outs, i + 1, actual, total, n)
  {
    PositiveNext(outs, i);
    if outs[i].value > 0 {
      TalliedNext(actual, Positive(outs[..i]), outs[i]);
    }
  }

  /** The first loop of VerifyShareCoinbase: paying outputs by script, their total and number. */
  method TallyOutputs(outs: seq<TxOut>) returns (actual: map<Script, int>, total: int, n: nat)
    ensures Tallied(actual, Positive(outs))
    ensures total == SumValues(Positive(outs)) && n == |Positive(outs)|
  {
    actual, total, n := map[], 0, 0;
    assert TallyAt(outs, 0, actual, total, n);
    for i := 0 to |outs|
      invariant TallyAt(outs, i, actual, total, n)
    {
      var o := outs[i];
      TallyStep(outs, i, actual, total, n);
      if o.value > 0 {
        actual, total, n := actual[o.script := PaidIn(actual, o.script) + o.value], total + o.value, n + 1;
      }
    }
    assert outs[..|outs|] == outs;
  }

  method HasCommitment(outs: seq<TxOut>, commitment: Script) returns (found: bool)
    ensures found <==> exists o :: o in outs && o.value == 0 && Contains(o.script, commitment)
  {
    found := false;
    for i := 0 to |outs|
      invariant found <==> exists o :: o in outs[..i] && o.value == 0 && Contains(o.script, commitment)
    {
      assert outs[..i + 1] == outs[..i] + [outs[i]];
      if outs[i].value == 0 && Contains(outs[i].script, commitment) {
        found := true;
      }
    }
    assert outs[..|outs|] == outs;
  }

  /** The last loop of VerifyShareCoinbase. */
  method AmountsMatch(actual: map<Script, int>, ghost paid: seq<TxOut>, exp: seq<PayoutOutput>, scriptOf: ScriptOf) returns (ok: bool)
    requires Tallied(actual, paid)
    ensures ok <==> Decodes(scriptOf, exp) && PaysAll(paid, exp, scriptOf)
  {
    for i := 0 to |exp|
      invariant forall j :: 0 <= j < i ==> scriptOf(exp[j].address).Some?
      invariant forall j {:trigger Pays(paid, exp[j], scriptOf)} :: 0 <= j < i ==> Pays(paid, exp[j], scriptOf)
    {
      assert Pays(paid, exp[i], scriptOf) <==> PaidIn(actual, AsTxOut(scriptOf, exp[i]).script) == exp[i].amount;
      if scriptOf(exp[i].address).None? || PaidIn(actual, AsTxOut(scriptOf, exp[i]).script) != exp[i].amount {
        return false;
      }
    }
    ok := true;
  }

  method VerifyShareCoinbase(s: Share, m: ShareMap, tip: Hash, scriptOf: ScriptOf, ghost rank: Rank) returns (ok: bool)
    requires Acyclic(m, rank)
    ensures ok <==> CoinbaseAccepted(s, m, rank, tip, scriptOf)
  {
    if s.coinbase.None? {
      return false;
    }
    var outs := s.coinbase.value;
    var actual, total, n := TallyOutputs(outs);
    if total <= 0 || (s.subsidy > 0 && total != s.subsidy) {
      return false;
    }
    if s.headerTime >= V2_MANDATORY_ACTIVATION_TIME && s.version < SHARE_VERSION_V2 {
      return false;
    }
    if s.version >= SHARE_VERSION_V2 {
      var committed := HasCommitment(outs, s.commitment);
      if s.timestamp != s.headerTime || !committed {
        return false;
      }
    }
    var exp := CalculateOutputs(m, tip, s.prev, total, s.address, rank);
    // The code accepts a coinbase with no expected outputs; the split of a positive total
    // always has one (ExpectedOutputsMeaning), so that escape is never taken.
    if n != |exp| {
      return false;
    }
    ok := AmountsMatch(actual, Positive(outs), exp, scriptOf);
  }

  // ---- the builder ----

  /** The outputs of buildCoinbaseMsgTxAtTip: the split, then the zero-valued commitments. */
  ghost function BuiltOutputs(exp: seq<PayoutOutput>, segwit: Option<Script>, metadata: Script, scriptOf: ScriptOf): seq<TxOut> {
    var paid := AsTxOuts(scriptOf, exp);
    (if segwit.Some? then paid + [TxOut(0, segwit.value)] else paid) + [TxOut(0, metadata)]
  }

  /** The output part of buildCoinbaseMsgTxAtTip; None if an address does not decode. */
  method BuildOutputs(m: ShareMap, tip: Hash, anchor: Option<Hash>, reward: int, payout: Address,
                      segwit: Option<Script>, metadata: Script, scriptOf: ScriptOf, ghost rank: Rank)
    returns (r: Option<seq<TxOut>>)
    requires Acyclic(m, rank)
    ensures var exp := ExpectedOutputs(m, rank, tip, anchor, reward, payout);
      r == if Decodes(scriptOf, exp) then Some(BuiltOutputs(exp, segwit, metadata, scriptOf)) else None
  {
    var exp := CalculateOutputs(m, tip, anchor, reward, payout, rank);
    r := PayTo(exp, scriptOf);
    if r.Some? {
      var outs := r.value;
      if segwit.Some? {
        outs := outs + [TxOut(0, segwit.value)];
      }
      r := Some(outs + [TxOut(0, metadata)]);
    }
  }

  method PayTo(exp: seq<PayoutOutput>, scriptOf: ScriptOf) returns (r: Option<seq<TxOut>>)
    ensures r == if Decodes(scriptOf, exp) then Some(AsTxOuts(scriptOf, exp)) else None
  {
    var outs: seq<TxOut> := [];
    for i := 0 to |exp|
      invariant outs == AsTxOuts(scriptOf, exp[..i])
      invariant forall j :: 0 <= j < i ==> scriptOf(exp[j].address).Some?
    {
      assert exp[..i + 1][..i] == exp[..i];
      if scriptOf(exp[i].address).None? {
        return None;
      }
      outs := outs + [AsTxOut(scriptOf, exp[i])];
    }
    assert exp[..|exp|] == exp;
    r := Some(outs);
  }

  lemma {:induction false} BuiltPositive(exp: seq<PayoutOutput>, scriptOf: ScriptOf)
    requires forall i :: 0 <= i < |exp| ==> exp[i].amount > 0
    ensures Positive(AsTxOuts(scriptOf, exp)) == AsTxOuts(scriptOf, exp)
    ensures SumValues(AsTxOuts(scriptOf, exp)) == SumAmounts(exp)
  {
    if exp != [] {
      var n := |exp| - 1;
      BuiltPositive(exp[..n], scriptOf);
      var outs := AsTxOuts(scriptOf, exp);
      assert outs[..|outs| - 1] == AsTxOuts(scriptOf, exp[..n]);
      SumAmountsLast(exp);
    }
  }

  lemma {:induction false} SumAmountsLast(exp: seq<PayoutOutput>)
    requires exp != []
    ensures SumAmounts(exp) == SumAmounts(exp[..|exp| - 1]) + exp[|exp| - 1].amount
  {
    if |exp| > 1 {
      SumAmountsLast(exp[1..]);
      assert exp[1..][..|exp| - 2] == exp[..|exp| - 1][1..];
    }
  }

  lemma PositiveZero(outs: seq<TxOut>, script: Script)
    ensures Positive(outs + [TxOut(0, script)]) == Positive(outs)
  {
    assert (outs + [TxOut(0, script)])[..|outs|] == outs;
  }

  /** A coinbase built on the share's own parent, for its own address and subsidy, is accepted. */
  lemma BuiltIsAccepted(s: Share, m: ShareMap, rank: Rank, tip: Hash, reward: int, segwit: Option<Script>,
                        metadata: Script, scriptOf: ScriptOf)
    requires Acyclic(m, rank) && DistinctScripts(scriptOf) && reward > 0
    requires var exp := ExpectedOutputs(m, rank, tip, s.prev, reward, s.address);
      Decodes(scriptOf, exp) && s.coinbase == Some(BuiltOutputs(exp, segwit, metadata, scriptOf))
    requires s.subsidy == reward && s.version >= SHARE_VERSION_V2 && s.timestamp == s.headerTime
    requires Contains(metadata, s.commitment)
    ensures CoinbaseAccepted(s, m, rank, tip, scriptOf)
  {
    var exp := ExpectedOutputs(m, rank, tip, s.prev, reward, s.address);
    ExpectedOutputsMeaning(m, rank, tip, s.prev, reward, s.address);
    BuiltPositive(exp, scriptOf);
    var paid := AsTxOuts(scriptOf, exp);
    var withSegwit := if segwit.Some? then paid + [TxOut(0, segwit.value)] else paid;
    if segwit.Some? {
      PositiveZero(paid, segwit.value);
    }
    PositiveZero(withSegwit, metadata);
    var outs := s.coinbase.value;
    assert outs == withSegwit + [TxOut(0, metadata)];
    assert Positive(outs) == paid && SumValues(Positive(outs)) == reward;
    assert outs[|outs| - 1] == TxOut(0, metadata) && outs[|outs| - 1] in outs;
    AcceptedIsExact(s, m, rank, tip, scriptOf);
  }

  /**
   * Nodes that hold more accept it too: a coinbase built where the window below the share's
   * parent is complete and its retarget settled passes at every node whose store extends that one.
   */
  lemma BuiltIsAcceptedElsewhere(s: Share, small: ShareMap, big: ShareMap, rank: Rank, tip: Hash, tip': Hash,
                                 reward: int, segwit: Option<Script>, metadata: Script, scriptOf: ScriptOf)
    requires Acyclic(small, rank) && Acyclic(big, rank) && Extends(small, big)
    requires DistinctScripts(scriptOf) && reward > 0
    requires s.prev.Some? && s.prev.value != GENESIS && CompleteWindow(small, rank, s.prev)
    requires |Lineage(small, rank, s.prev.value)| >= TARGET_LOOKBEHIND || Rooted(small, rank, s.prev.value)
    requires var exp := ExpectedOutputs(small, rank, tip, s.prev, reward, s.address);
      Decodes(scriptOf, exp) && s.coinbase == Some(BuiltOutputs(exp, segwit, metadata, scriptOf))
    requires s.subsidy == reward && s.version >= SHARE_VERSION_V2 && s.timestamp == s.headerTime
    requires Contains(metadata, s.commitment)
    ensures CoinbaseAccepted(s, big, rank, tip', scriptOf)
  {
    WindowAgreement(small, big, rank, tip, tip', s.prev.value);
    BuiltIsAccepted(s, big, rank, tip', reward, segwit, metadata, scriptOf);
  }
}
