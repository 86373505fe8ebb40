// The amounts the distribution module keeps: the community pool, and for each validator its
// outstanding rewards, of which commission and current rewards are parts.
module Purse {
  import opened Coins
  import opened Common
  import opened Staking
  import KeyIteration

  datatype Amounts = Amounts(
    communityPool: DecCoins,
    paidOut: DecCoins,                  // coins sent to accounts so far
    outstanding: map<Addr, DecCoins>,
    commission: map<Addr, DecCoins>,
    rewards: map<Addr, DecCoins>)       // of the current period

  /** What a validator's record holds; no record means no coins. */
  function Held(m: map<Addr, DecCoins>, v: Addr): DecCoins {
    if v in m then m[v] else NO_COINS
  }

  // ----- The keeper's steps; None where the library panics on a negative amount -----

  /** At the end of a period the rewards of a validator without tokens go to the pool. */
  function SettlePeriod(a: Amounts, v: Addr, noTokens: bool): Option<Amounts> {
    var settled := a.(rewards := a.rewards[v := NO_COINS]);
    if !noTokens then Some(settled)
    else if !Covers(Held(a.outstanding, v), Held(a.rewards, v)) then None
    else Some(settled.(communityPool := Add(a.communityPool, Held(a.rewards, v)),
                       outstanding := a.outstanding[v := Sub(Held(a.outstanding, v), Held(a.rewards, v))]))
  }

  /** Pays the whole coins of an amount, at most what is outstanding; fractions go to the pool. */
  function PayRewards(a: Amounts, v: Addr, raw: DecCoins): Amounts {
    var amount := Intersect(raw, Held(a.outstanding, v));
    a.(outstanding := a.outstanding[v := Sub(Held(a.outstanding, v), amount)],
       paidOut := Add(a.paidOut, Truncate(amount)),
       communityPool := Add(a.communityPool, Sub(amount, Truncate(amount))))
  }

  /** Pays the whole coins of the commission; fractions stay. */
  function PayCommission(a: Amounts, v: Addr): Option<Amounts> {
    var c := Held(a.commission, v);
    if !Covers(Held(a.outstanding, v), Truncate(c)) then None
    else Some(a.(commission := a.commission[v := Sub(c, Truncate(c))],
                 outstanding := a.outstanding[v := Sub(Held(a.outstanding, v), Truncate(c))],
                 paidOut := Add(a.paidOut, Truncate(c))))
  }

  function Donate(a: Amounts, scraps: DecCoins): Amounts {
    a.(communityPool := Add(a.communityPool, scraps))
  }

  function Forget(a: Amounts, v: Addr): Amounts {
    a.(outstanding := a.outstanding[v := NO_COINS], commission := a.commission[v := NO_COINS],
       rewards := a.rewards[v := NO_COINS])
  }

  // ----- Conservation -----

  /** The coins of denomination x in the records of these validators. */
  ghost function Sum(m: map<Addr, DecCoins>, vals: seq<Addr>, x: string): real {
    if vals == [] then 0.0 else AmountOf(Held(m, vals[0]), x) + Sum(m, vals[1..], x)
  }

  /** Everything of denomination x that the module holds for these validators or has paid. */
  ghost function Total(a: Amounts, vals: seq<Addr>, x: string): real {
    AmountOf(a.communityPool, x) + AmountOf(a.paidOut, x) + Sum(a.outstanding, vals, x)
  }

  /** No coin of denomination x appears or disappears, and only these validators are touched. */
  ghost predicate Conserves(a: Amounts, a': Amounts, vals: seq<Addr>, x: string) {
    && Total(a', vals, x) == Total(a, vals, x)
    && forall w: Addr | w !in vals :: && Held(a'.outstanding, w) == Held(a.outstanding, w)
                                      && Held(a'.commission, w) == Held(a.commission, w)
                                      && Held(a'.rewards, w) == Held(a.rewards, w)
  }

  lemma {:induction false} SumUpdate(m: map<Addr, DecCoins>, vals: seq<Addr>, v: Addr, c: DecCoins, x: string)
    requires KeyIteration.Distinct(vals)
    ensures Sum(m[v := c], vals, x) == Sum(m, vals, x) +
            if v in vals then AmountOf(c, x) - AmountOf(Held(m, v), x) else 0.0
  {
    if vals != [] {
      SumUpdate(m, vals[1..], v, c, x);
    }
  }

  lemma SettlePeriodConserves(a: Amounts, v: Addr, noTokens: bool, vals: seq<Addr>, x: string)
    requires KeyIteration.Distinct(vals) && v in vals && SettlePeriod(a, v, noTokens).Some?
    ensures Conserves(a, SettlePeriod(a, v, noTokens).value, vals, x)
  {
    if noTokens {
      SumUpdate(a.outstanding, vals, v, Sub(Held(a.outstanding, v), Held(a.rewards, v)), x);
    }
  }

  lemma PayRewardsConserves(a: Amounts, v: Addr, raw: DecCoins, vals: seq<Addr>, x: string)
    requires KeyIteration.Distinct(vals) && v in vals
    ensures Conserves(a, PayRewards(a, v, raw), vals, x)
  {
    var amount := Intersect(raw, Held(a.outstanding, v));
    SumUpdate(a.outstanding, vals, v, Sub(Held(a.outstanding, v), amount), x);
  }

  lemma PayCommissionConserves(a: Amounts, v: Addr, vals: seq<Addr>, x: string)
    requires KeyIteration.Distinct(vals) && v in vals && PayCommission(a, v).Some?
    ensures Conserves(a, PayCommission(a, v).value, vals, x)
  {
    SumUpdate(a.outstanding, vals, v, Sub(Held(a.outstanding, v), Truncate(Held(a.commission, v))), x);
  }

  /** Forgetting a validator loses nothing when its outstanding rewards have been donated. */
  lemma DonateThenForgetConserves(a: Amounts, v: Addr, vals: seq<Addr>, x: string)
    requires KeyIteration.Distinct(vals) && v in vals
    ensures Conserves(a, Forget(Donate(a, Held(a.outstanding, v)), v), vals, x)
  {
    SumUpdate(a.outstanding, vals, v, NO_COINS, x);
  }

  /** In each denomination a reward payment takes the rewards, or what is outstanding if that is
      less; it pays the whole coins, and less than one coin goes to the pool. */
  lemma RewardsPaid(a: Amounts, v: Addr, raw: DecCoins, x: string)
    ensures var a' := PayRewards(a, v, raw);
            var due, held := AmountOf(raw, x), AmountOf(Held(a.outstanding, v), x);
            var taken := held - AmountOf(Held(a'.outstanding, v), x);
            var paid := AmountOf(a'.paidOut, x) - AmountOf(a.paidOut, x);
            && taken == (if due <= held then due else held)
            && paid == paid.Floor as real && 0.0 <= taken - paid < 1.0
            && AmountOf(a'.communityPool, x) == AmountOf(a.communityPool, x) + (taken - paid)
  {
    var amount := Intersect(raw, Held(a.outstanding, v));
    var a' := PayRewards(a, v, raw);
    assert AmountOf(a.paidOut, x) + AmountOf(Truncate(amount), x) == AmountOf(a'.paidOut, x);
    assert AmountOf(Held(a.outstanding, v), x) - AmountOf(amount, x) == AmountOf(Held(a'.outstanding, v), x);
  }

  // ----- Coverage -----

  /** Outstanding rewards cover the rewards of the current period. */
  ghost predicate Covered(a: Amounts, vals: set<Addr>) {
    forall v <- vals :: Covers(Held(a.outstanding, v), Held(a.rewards, v))
  }

  /** Outstanding rewards cover commission and the rewards of the current period together. */
  ghost predicate Solvent(a: Amounts, vals: set<Addr>) {
    forall v <- vals :: Covers(Held(a.outstanding, v), Add(Held(a.commission, v), Held(a.rewards, v)))
  }

  lemma SolventCovered(a: Amounts, vals: set<Addr>)
    requires Solvent(a, vals)
    ensures Covered(a, vals)
  {
  }

  lemma SettlePeriodWorks(a: Amounts, v: Addr, noTokens: bool, vals: set<Addr>)
    requires Covered(a, vals) && v in vals
    ensures SettlePeriod(a, v, noTokens).Some?
    ensures Covered(SettlePeriod(a, v, noTokens).value, vals)
    ensures Held(SettlePeriod(a, v, noTokens).value.rewards, v) == NO_COINS
  {
  }

  /** A payment after the period has been settled leaves everything covered. */
  lemma PayRewardsKeepsCovered(a: Amounts, v: Addr, raw: DecCoins, vals: set<Addr>)
    requires Covered(a, vals) && Held(a.rewards, v) == NO_COINS
    ensures Covered(PayRewards(a, v, raw), vals)
  {
  }

  /** Paying the whole coins of the commission keeps the rest covered. */
  lemma PayCommissionWorks(a: Amounts, v: Addr, vals: set<Addr>)
    requires Solvent(a, vals) && v in vals
    ensures PayCommission(a, v).Some?
    ensures Solvent(PayCommission(a, v).value, vals)
  {
  }
}
