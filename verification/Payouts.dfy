// What the zero-height preparation pays out, reckoned for one denomination in plain amounts.
module Payouts {
  import opened Coins
  import opened Common
  import opened Distribution
  import opened Purse
  import opened Staking
  import KeyIteration
  import Phases = ZeroHeightPhases

  type Ledger = map<Addr, real>

  /** What the validators have outstanding, and the part of it that are rewards of the current period. */
  datatype Ledgers = Ledgers(outstanding: Ledger, current: Ledger) {
    ghost predicate For(records: map<Addr, Validator>) {
      outstanding.Keys == current.Keys == records.Keys
    }
  }

  // ----- What is due -----

  /** The whole coins of a validator's commission, unless they cannot be sent. */
  ghost function CommissionDue(a: Amounts, k: Keepers, v: Addr, x: string): real {
    if k.commissionSendFails(v) then 0.0 else AmountOf(Held(a.commission, v), x).Floor as real
  }

  ghost function CommissionsDue(a: Amounts, k: Keepers, vals: seq<Addr>, x: string): real {
    if vals == [] then 0.0 else CommissionDue(a, k, vals[0], x) + CommissionsDue(a, k, vals[1..], x)
  }

  /** The ledgers when the commissions have been paid. */
  ghost function AfterCommissions(a: Amounts, k: Keepers, records: map<Addr, Validator>, x: string): (r: Ledgers)
    ensures r.For(records)
  {
    Ledgers(map v | v in records :: AmountOf(Held(a.outstanding, v), x) - CommissionDue(a, k, v, x),
            LedgerOf(a.rewards, records, x))
  }

  /** What a validator has to pay from: without tokens, its current rewards are gone. */
  ghost function Left(records: map<Addr, Validator>, l: Ledgers, v: Addr): real
    requires l.For(records) && v in records
  {
    l.outstanding[v] - if records[v].tokens == 0 then l.current[v] else 0.0
  }

  /** A delegation's rewards, or what is left for them if that is less. */
  ghost function Taken(k: Keepers, records: map<Addr, Validator>, l: Ledgers, y: Delegation, x: string): real
    requires l.For(records) && y.validator in records
  {
    var rewards, left := AmountOf(k.rawRewards(y.validator, y.delegator), x), Left(records, l, y.validator);
    if rewards <= left then rewards else left
  }

  ghost function AfterRewards(k: Keepers, records: map<Addr, Validator>, l: Ledgers, y: Delegation, x: string)
    : (r: Ledgers)
    requires l.For(records) && y.validator in records
    ensures r.For(records)
  {
    var left := Left(records, l, y.validator) - Taken(k, records, l, y, x);
    Ledgers(l.outstanding[y.validator := left], l.current[y.validator := 0.0])
  }

  ghost predicate AllOnRecord(records: map<Addr, Validator>, dels: seq<Delegation>) {
    forall y <- dels :: y.validator in records
  }

  /** One delegation after the other is paid the whole coins of what is taken for it. */
  ghost function RewardsDue(k: Keepers, records: map<Addr, Validator>, dels: seq<Delegation>, l: Ledgers,
                            x: string): real
    requires l.For(records) && AllOnRecord(records, dels)
  {
    if dels == [] then 0.0
    else
      Taken(k, records, l, dels[0], x).Floor as real
      + RewardsDue(k, records, dels[1..], AfterRewards(k, records, l, dels[0], x), x)
  }

  /** Everything due: commissions first, then rewards. */
  ghost function Due(a: Amounts, k: Keepers, records: map<Addr, Validator>, dels: seq<Delegation>, x: string): real
    requires AllOnRecord(records, dels)
  {
    CommissionsDue(a, k, KeyIteration.KeysInOrder(records.Keys), x)
    + RewardsDue(k, records, dels, AfterCommissions(a, k, records, x), x)
  }

  // ----- Single payments -----

  lemma WholePart(amount: real, n: int)
    requires n as real <= amount < n as real + 1.0
    ensures amount.Floor == n
  {
  }

  lemma TruncatedAmount(c: DecCoins, x: string)
    ensures AmountOf(Truncate(c), x) == AmountOf(c, x).Floor as real
  {
    WholePart(AmountOf(c, x), AmountOf(Truncate(c), x).Floor);
  }

  lemma CommissionPays(d: Store, k: Keepers, v: Addr, x: string)
    requires WithdrawCommission(d, k, v).Some?
    ensures var a, a' := d.purse, WithdrawCommission(d, k, v).value.purse;
            && AmountOf(a'.paidOut, x) == AmountOf(a.paidOut, x) + CommissionDue(a, k, v, x)
            && AmountOf(Held(a'.outstanding, v), x) == AmountOf(Held(a.outstanding, v), x) - CommissionDue(a, k, v, x)
            && a'.rewards == a.rewards
            && forall w: Addr | w != v :: Held(a'.outstanding, w) == Held(a.outstanding, w)
                                       && Held(a'.commission, w) == Held(a.commission, w)
  {
    var c := Held(d.purse.commission, v);
    if IsZero(c) {
      assert AmountOf(c, x) == 0.0;
    } else {
      TruncatedAmount(c, x);
    }
  }

  ghost function LedgerOf(m: map<Addr, DecCoins>, records: map<Addr, Validator>, x: string): Ledger {
    map v | v in records :: AmountOf(Held(m, v), x)
  }

  /** The ledgers of the amounts kept. */
  ghost function LedgersOf(a: Amounts, records: map<Addr, Validator>, x: string): (r: Ledgers)
    ensures r.For(records)
  {
    Ledgers(LedgerOf(a.outstanding, records, x), LedgerOf(a.rewards, records, x))
  }

  lemma SettlingMoves(a: Amounts, v: Addr, noTokens: bool, x: string)
    requires SettlePeriod(a, v, noTokens).Some?
    ensures var a' := SettlePeriod(a, v, noTokens).value;
            && a'.paidOut == a.paidOut && AmountOf(Held(a'.rewards, v), x) == 0.0
            && AmountOf(Held(a'.outstanding, v), x) ==
               AmountOf(Held(a.outstanding, v), x) - (if noTokens then AmountOf(Held(a.rewards, v), x) else 0.0)
            && forall w: Addr | w != v :: Held(a'.outstanding, w) == Held(a.outstanding, w)
                                       && Held(a'.rewards, w) == Held(a.rewards, w)
  {
  }

  lemma PaymentMoves(a: Amounts, v: Addr, raw: DecCoins, x: string, left: real, taken: real)
    requires left == AmountOf(Held(a.outstanding, v), x)
    requires taken == if AmountOf(raw, x) <= left then AmountOf(raw, x) else left
    ensures var a' := PayRewards(a, v, raw);
            && AmountOf(a'.paidOut, x) == AmountOf(a.paidOut, x) + taken.Floor as real
            && AmountOf(Held(a'.outstanding, v), x) == left - taken
            && a'.rewards == a.rewards
            && forall w: Addr | w != v :: Held(a'.outstanding, w) == Held(a.outstanding, w)
  {
    var amount := Intersect(raw, Held(a.outstanding, v));
    TruncatedAmount(amount, x);
    assert AmountOf(PayRewards(a, v, raw).paidOut, x) == AmountOf(a.paidOut, x) + AmountOf(Truncate(amount), x);
  }

  lemma LedgerUpdated(m: map<Addr, DecCoins>, m': map<Addr, DecCoins>, records: map<Addr, Validator>, v: Addr, x: string)
    requires v in records && forall w: Addr | w != v :: Held(m', w) == Held(m, w)
    ensures LedgerOf(m', records, x) == LedgerOf(m, records, x)[v := AmountOf(Held(m', v), x)]
  {
  }

  /** Amounts that move like those of one reward payment, in ledgers. */
  lemma RewardInLedgers(a: Amounts, a': Amounts, k: Keepers, records: map<Addr, Validator>, y: Delegation, x: string)
    requires y.validator in records
    requires var v, l := y.validator, LedgersOf(a, records, x);
             && AmountOf(Held(a'.outstanding, v), x) == Left(records, l, v) - Taken(k, records, l, y, x)
             && AmountOf(Held(a'.rewards, v), x) == 0.0
             && forall w: Addr | w != v :: Held(a'.outstanding, w) == Held(a.outstanding, w)
                                        && Held(a'.rewards, w) == Held(a.rewards, w)
    ensures LedgersOf(a', records, x) == AfterRewards(k, records, LedgersOf(a, records, x), y, x)
  {
    LedgerUpdated(a.outstanding, a'.outstanding, records, y.validator, x);
    LedgerUpdated(a.rewards, a'.rewards, records, y.validator, x);
  }

  /** A step of the fold in terms of the amounts kept. */
  lemma StepInAmounts(a: Amounts, k: Keepers, records: map<Addr, Validator>, y: Delegation, x: string)
    requires y.validator in records
    ensures var v, l := y.validator, LedgersOf(a, records, x);
            var left := AmountOf(Held(a.outstanding, v), x)
                        - if records[v].tokens == 0 then AmountOf(Held(a.rewards, v), x) else 0.0;
            var rewards := AmountOf(k.rawRewards(v, y.delegator), x);
            && Left(records, l, v) == left
            && Taken(k, records, l, y, x) == if rewards <= left then rewards else left
  {
  }

  lemma SettlementPays(a: Amounts, k: Keepers, records: map<Addr, Validator>, y: Delegation, x: string)
    requires y.validator in records && SettlePeriod(a, y.validator, records[y.validator].tokens == 0).Some?
    ensures var v, l := y.validator, LedgersOf(a, records, x);
            var a' := PayRewards(SettlePeriod(a, v, records[v].tokens == 0).value, v, k.rawRewards(v, y.delegator));
             && AmountOf(a'.paidOut, x) == AmountOf(a.paidOut, x) + Taken(k, records, l, y, x).Floor as real
             && AmountOf(Held(a'.outstanding, v), x) == Left(records, l, v) - Taken(k, records, l, y, x)
             && AmountOf(Held(a'.rewards, v), x) == 0.0
             && forall w: Addr | w != v :: Held(a'.outstanding, w) == Held(a.outstanding, w)
                                        && Held(a'.rewards, w) == Held(a.rewards, w)
  {
    var v, noTokens := y.validator, records[y.validator].tokens == 0;
    var l := LedgersOf(a, records, x);
    StepInAmounts(a, k, records, y, x);
    SettlingMoves(a, v, noTokens, x);
    PaymentMoves(SettlePeriod(a, v, noTokens).value, v, k.rawRewards(v, y.delegator), x,
                 Left(records, l, v), Taken(k, records, l, y, x));
  }

  lemma SettlementInLedgers(a: Amounts, k: Keepers, records: map<Addr, Validator>, y: Delegation, x: string)
    requires y.validator in records && SettlePeriod(a, y.validator, records[y.validator].tokens == 0).Some?
    ensures var v, l := y.validator, LedgersOf(a, records, x);
            var a' := PayRewards(SettlePeriod(a, v, records[v].tokens == 0).value, v, k.rawRewards(v, y.delegator));
            && AmountOf(a'.paidOut, x) == AmountOf(a.paidOut, x) + Taken(k, records, l, y, x).Floor as real
            && LedgersOf(a', records, x) == AfterRewards(k, records, l, y, x)
  {
    var v := y.validator;
    SettlementPays(a, k, records, y, x);
    RewardInLedgers(a, PayRewards(SettlePeriod(a, v, records[v].tokens == 0).value, v, k.rawRewards(v, y.delegator)),
                    k, records, y, x);
  }

  lemma PurseAfterRewards(d: Store, k: Keepers, v: Addr, del: Addr, noTokens: bool, height: int)
    requires WithdrawRewards(d, k, v, del, noTokens, height).Some?
    ensures SettlePeriod(d.purse, v, noTokens).Some?
    ensures WithdrawRewards(d, k, v, del, noTokens, height).value.purse ==
            PayRewards(SettlePeriod(d.purse, v, noTokens).value, v, k.rawRewards(v, del))
  {
  }

  lemma RewardPays(d: Store, k: Keepers, records: map<Addr, Validator>, y: Delegation, height: int, x: string)
    requires y.validator in records
    requires WithdrawRewards(d, k, y.validator, y.delegator, records[y.validator].tokens == 0, height).Some?
    ensures var a, l := d.purse, LedgersOf(d.purse, records, x);
            var next := WithdrawRewards(d, k, y.validator, y.delegator, records[y.validator].tokens == 0, height).value;
            && AmountOf(next.purse.paidOut, x) == AmountOf(a.paidOut, x) + Taken(k, records, l, y, x).Floor as real
            && LedgersOf(next.purse, records, x) == AfterRewards(k, records, l, y, x)
  {
    PurseAfterRewards(d, k, y.validator, y.delegator, records[y.validator].tokens == 0, height);
    SettlementInLedgers(d.purse, k, records, y, x);
  }

  // ----- All payments -----

  lemma {:induction false} CommissionsDueFrame(a: Amounts, b: Amounts, k: Keepers, vals: seq<Addr>, x: string)
    requires forall v <- vals :: Held(a.commission, v) == Held(b.commission, v)
    ensures CommissionsDue(a, k, vals, x) == CommissionsDue(b, k, vals, x)
  {
    if vals != [] {
      CommissionsDueFrame(a, b, k, vals[1..], x);
    }
  }

  lemma {:induction false} AllCommissionPays(d: Store, k: Keepers, vals: seq<Addr>, x: string)
    requires KeyIteration.Distinct(vals) && Phases.WithdrawAllCommission(d, k, vals).Some?
    ensures var a, a' := d.purse, Phases.WithdrawAllCommission(d, k, vals).value.purse;
            && AmountOf(a'.paidOut, x) == AmountOf(a.paidOut, x) + CommissionsDue(a, k, vals, x)
            && a'.rewards == a.rewards
            && forall v: Addr ::
                 AmountOf(Held(a'.outstanding, v), x) ==
                 AmountOf(Held(a.outstanding, v), x) - if v in vals then CommissionDue(a, k, v, x) else 0.0
    decreases vals
  {
    if vals != [] {
      var next := WithdrawCommission(d, k, vals[0]).value;
      CommissionPays(d, k, vals[0], x);
      CommissionsDueFrame(d.purse, next.purse, k, vals[1..], x);
      AllCommissionPays(next, k, vals[1..], x);
      assert forall v :: v in vals <==> v == vals[0] || v in vals[1..];
    }
  }

  lemma CommissionsInLedgers(a: Amounts, a': Amounts, k: Keepers, records: map<Addr, Validator>, x: string)
    requires forall v <- records.Keys ::
               AmountOf(Held(a'.outstanding, v), x) == AmountOf(Held(a.outstanding, v), x) - CommissionDue(a, k, v, x)
    requires a'.rewards == a.rewards
    ensures LedgersOf(a', records, x) == AfterCommissions(a, k, records, x)
  {
    assert LedgerOf(a'.outstanding, records, x) == AfterCommissions(a, k, records, x).outstanding;
  }

  lemma LedgersAfterCommissions(d: Store, k: Keepers, records: map<Addr, Validator>, x: string)
    requires Phases.WithdrawAllCommission(d, k, KeyIteration.KeysInOrder(records.Keys)).Some?
    ensures var d' := Phases.WithdrawAllCommission(d, k, KeyIteration.KeysInOrder(records.Keys)).value;
            LedgersOf(d'.purse, records, x) == AfterCommissions(d.purse, k, records, x)
  {
    var vals := KeyIteration.KeysInOrder(records.Keys);
    KeyIteration.KeysInOrderAscend(records.Keys);
    AllCommissionPays(d, k, vals, x);
    CommissionsInLedgers(d.purse, Phases.WithdrawAllCommission(d, k, vals).value.purse, k, records, x);
  }

  lemma {:induction false} AllRewardsPay(d: Store, k: Keepers, records: map<Addr, Validator>, dels: seq<Delegation>,
                                         height: int, x: string)
    requires AllOnRecord(records, dels) && Phases.WithdrawAllRewards(d, k, records, dels, height).Some?
    ensures AmountOf(Phases.WithdrawAllRewards(d, k, records, dels, height).value.purse.paidOut, x) ==
            AmountOf(d.purse.paidOut, x) + RewardsDue(k, records, dels, LedgersOf(d.purse, records, x), x)
    decreases dels
  {
    if dels != [] {
      var v, del := dels[0].validator, dels[0].delegator;
      RewardPays(d, k, records, dels[0], height, x);
      AllRewardsPay(WithdrawRewards(d, k, v, del, records[v].tokens == 0, height).value,
                    k, records, dels[1..], height, x);
    }
  }

  /** The withdrawals pay what is due. */
  lemma WithdrawalsPay(d: Store, k: Keepers, records: map<Addr, Validator>, dels: seq<Delegation>, height: int,
                       x: string)
    requires Phases.WithdrawEverything(d, k, records, dels, height).Some?
    ensures AllOnRecord(records, dels)
    ensures AmountOf(Phases.WithdrawEverything(d, k, records, dels, height).value.purse.paidOut, x) ==
            AmountOf(d.purse.paidOut, x) + Due(d.purse, k, records, dels, x)
  {
    var vals := KeyIteration.KeysInOrder(records.Keys);
    KeyIteration.KeysInOrderAscend(records.Keys);
    var commissioned := Phases.WithdrawAllCommission(d, k, vals).value;
    Phases.RewardsGetThrough(commissioned, k, records, dels, height);
    AllCommissionPays(d, k, vals, x);
    AllRewardsPay(commissioned, k, records, dels, height, x);
    LedgersAfterCommissions(d, k, records, x);
  }

  lemma NothingHeld(a: Amounts, vals: seq<Addr>, x: string)
    requires forall v <- vals :: Phases.Drained(a, v)
    ensures Total(a, vals, x) == AmountOf(a.communityPool, x) + AmountOf(a.paidOut, x)
  {
    Phases.SumDrained(a, vals, x);
  }

  /** The whole preparation, in every denomination: it pays out what is due, and puts the rest of
      what validators had outstanding into the community pool. */
  lemma PreparationPays(d: Store, k: Keepers, records: map<Addr, Validator>, dels: seq<Delegation>, height: int,
                        x: string)
    requires Phases.PrepDistribution(d, k, records, dels, height).Some?
    ensures AllOnRecord(records, dels)
    ensures var a, a' := d.purse, Phases.PrepDistribution(d, k, records, dels, height).value.purse;
            && AmountOf(a'.paidOut, x) == AmountOf(a.paidOut, x) + Due(a, k, records, dels, x)
            && AmountOf(a'.communityPool, x) ==
               AmountOf(a.communityPool, x) + Sum(a.outstanding, KeyIteration.KeysInOrder(records.Keys), x)
               - Due(a, k, records, dels, x)
  {
    WithdrawalsPay(d, k, records, dels, height, x);
    Phases.PreparationConserves(d, k, records, dels, height, x);
    var a' := Phases.PrepDistribution(d, k, records, dels, height).value.purse;
    KeyIteration.KeysInOrderAscend(records.Keys);
    NothingHeld(a', KeyIteration.KeysInOrder(records.Keys), x);
  }
}
