// The distribution phases of the zero-height export, as functions on the store, and what
// they preserve over whole runs.
module ZeroHeightPhases {
  import opened Coins
  import opened Common
  import opened Distribution
  import opened KeyIteration
  import opened Purse
  import opened Staking
  import Periods

  // ----- The phases -----

  function WithdrawAllCommission(d: Store, k: Keepers, vals: seq<Addr>): Option<Store>
    decreases vals
  {
    if vals == [] then Some(d)
    else
      var next :- WithdrawCommission(d, k, vals[0]);
      WithdrawAllCommission(next, k, vals[1..])
  }

  function WithdrawAllRewards(d: Store, k: Keepers, records: map<Addr, Validator>, dels: seq<Delegation>, height: int)
    : Option<Store>
    decreases dels
  {
    if dels == [] then Some(d)
    else if dels[0].validator !in records then None
    else
      var next :- WithdrawRewards(d, k, dels[0].validator, dels[0].delegator,
                                  records[dels[0].validator].tokens == 0, height);
      WithdrawAllRewards(next, k, records, dels[1..], height)
  }

  /** The scraps of outstanding rewards go to the community pool before the record is reset. */
  function ReinitValidator(d: Store, v: Addr): Store {
    AfterValidatorCreated(d.(purse := Donate(d.purse, Held(d.purse.outstanding, v))), v)
  }

  function ReinitAllValidators(d: Store, vals: seq<Addr>): Store
    decreases vals
  {
    if vals == [] then d else ReinitAllValidators(ReinitValidator(d, vals[0]), vals[1..])
  }

  function ReinitAllDelegations(d: Store, records: map<Addr, Validator>, dels: seq<Delegation>,
                                height: int): Option<Store>
    decreases dels
  {
    if dels == [] then Some(d)
    else if dels[0].validator !in records then None
    else
      var next :- ReinitDelegation(d, dels[0].validator, dels[0].delegator,
                                   records[dels[0].validator].tokens == 0, height);
      ReinitAllDelegations(next, records, dels[1..], height)
  }

  /** The first half: all withdrawals, at the export height. */
  ghost function WithdrawEverything(d: Store, k: Keepers, records: map<Addr, Validator>, dels: seq<Delegation>,
                                    height: int)
    : Option<Store>
  {
    var commissioned :- WithdrawAllCommission(d, k, KeysInOrder(records.Keys));
    WithdrawAllRewards(commissioned, k, records, dels, height)
  }

  ghost function ClearHistory(d: Store): Store {
    DeleteAllValidatorHistoricalRewards(DeleteAllValidatorSlashEvents(d))
  }

  /** The second half: history is cleared and everything re-initialised at height zero. */
  ghost function ReinitEverything(d: Store, records: map<Addr, Validator>, dels: seq<Delegation>): Option<Store> {
    ReinitAllDelegations(ReinitAllValidators(ClearHistory(d), KeysInOrder(records.Keys)), records, dels, 0)
  }

  ghost function PrepDistribution(d: Store, k: Keepers, records: map<Addr, Validator>, dels: seq<Delegation>,
                                  height: int)
    : Option<Store>
  {
    var withdrawn :- WithdrawEverything(d, k, records, dels, height);
    ReinitEverything(withdrawn, records, dels)
  }

  // ----- Conservation -----

  lemma {:induction false} AllCommissionConserves(d: Store, k: Keepers, some: seq<Addr>, vals: seq<Addr>, x: string)
    requires Distinct(vals) && (forall v <- some :: v in vals) && WithdrawAllCommission(d, k, some).Some?
    ensures Conserves(d.purse, WithdrawAllCommission(d, k, some).value.purse, vals, x)
    decreases some
  {
    if some != [] {
      var next := WithdrawCommission(d, k, some[0]).value;
      if next != d {
        PayCommissionConserves(d.purse, some[0], vals, x);
      }
      AllCommissionConserves(next, k, some[1..], vals, x);
    }
  }

  lemma {:induction false} AllRewardsConserve(d: Store, k: Keepers, records: map<Addr, Validator>,
                                              dels: seq<Delegation>, height: int, vals: seq<Addr>, x: string)
    requires Distinct(vals) && (forall v <- records.Keys :: v in vals)
    requires WithdrawAllRewards(d, k, records, dels, height).Some?
    ensures Conserves(d.purse, WithdrawAllRewards(d, k, records, dels, height).value.purse, vals, x)
    decreases dels
  {
    if dels != [] {
      var v, del, noTokens := dels[0].validator, dels[0].delegator, records[dels[0].validator].tokens == 0;
      SettlePeriodConserves(d.purse, v, noTokens, vals, x);
      PayRewardsConserves(SettlePeriod(d.purse, v, noTokens).value, v, k.rawRewards(v, del), vals, x);
      AllRewardsConserve(WithdrawRewards(d, k, v, del, noTokens, height).value, k, records, dels[1..], height, vals, x);
    }
  }

  lemma {:induction false} AllReinitValidatorsConserve(d: Store, some: seq<Addr>, vals: seq<Addr>, x: string)
    requires Distinct(vals) && (forall v <- some :: v in vals)
    ensures Conserves(d.purse, ReinitAllValidators(d, some).purse, vals, x)
    decreases some
  {
    if some != [] {
      DonateThenForgetConserves(d.purse, some[0], vals, x);
      AllReinitValidatorsConserve(ReinitValidator(d, some[0]), some[1..], vals, x);
    }
  }

  lemma {:induction false} AllReinitDelegationsConserve(d: Store, records: map<Addr, Validator>, dels: seq<Delegation>,
                                                        height: int, vals: seq<Addr>, x: string)
    requires Distinct(vals) && (forall v <- records.Keys :: v in vals)
    requires ReinitAllDelegations(d, records, dels, height).Some?
    ensures Conserves(d.purse, ReinitAllDelegations(d, records, dels, height).value.purse, vals, x)
    decreases dels
  {
    if dels != [] {
      var v, noTokens := dels[0].validator, records[dels[0].validator].tokens == 0;
      SettlePeriodConserves(d.purse, v, noTokens, vals, x);
      AllReinitDelegationsConserve(ReinitDelegation(d, v, dels[0].delegator, noTokens, height).value,
                                   records, dels[1..], height, vals, x);
    }
  }

  // ----- After re-initialisation -----

  /** The validator's records hold nothing. */
  ghost predicate Drained(a: Amounts, v: Addr) {
    IsZero(Held(a.outstanding, v)) && IsZero(Held(a.commission, v)) && IsZero(Held(a.rewards, v))
  }

  /** Re-initialising validators drains them all, puts them in period 1, and adds to the books
      one reference each, to period 0; nothing is paid out. */
  lemma {:induction false} ReinitAllValidatorsEffect(d: Store, vals: seq<Addr>)
    ensures var d' := ReinitAllValidators(d, vals);
            && d'.books.starting == d.books.starting && d'.books.slashEvents == d.books.slashEvents
            && d'.purse.paidOut == d.purse.paidOut
    ensures forall v: Addr :: v in vals || Drained(d.purse, v) ==> Drained(ReinitAllValidators(d, vals).purse, v)
    ensures forall v <- vals :: v in ReinitAllValidators(d, vals).books.period
    ensures forall v <- ReinitAllValidators(d, vals).books.period.Keys ::
              if v in vals then ReinitAllValidators(d, vals).books.period[v] == 1
              else v in d.books.period && ReinitAllValidators(d, vals).books.period[v] == d.books.period[v]
    ensures forall v: Addr, p: nat ::
              Periods.RefsAt(ReinitAllValidators(d, vals).books.historical, v, p) ==
              if v in vals && p == 0 then 1 else Periods.RefsAt(d.books.historical, v, p)
    decreases vals
  {
    if vals != [] {
      var next := ReinitValidator(d, vals[0]);
      ReinitAllValidatorsEffect(next, vals[1..]);
      assert forall v :: v in vals <==> v == vals[0] || v in vals[1..];
      assert Drained(next.purse, vals[0]);
      KeepsPeriod(next, vals[1..], vals[0]);
    }
  }

  lemma {:induction false} KeepsPeriod(d: Store, vals: seq<Addr>, v: Addr)
    requires v in d.books.period
    ensures v in ReinitAllValidators(d, vals).books.period
    decreases vals
  {
    if vals != [] {
      KeepsPeriod(ReinitValidator(d, vals[0]), vals[1..], v);
    }
  }

  /** Re-initialising delegations of drained validators moves no coins. */
  lemma {:induction false} DelegationsKeepDrained(d: Store, records: map<Addr, Validator>, dels: seq<Delegation>,
                                                  height: int, v: Addr)
    requires v in records && (forall w <- records.Keys :: Drained(d.purse, w))
    requires ReinitAllDelegations(d, records, dels, height).Some?
    ensures Drained(ReinitAllDelegations(d, records, dels, height).value.purse, v)
    decreases dels
  {
    if dels != [] {
      var w, noTokens := dels[0].validator, records[dels[0].validator].tokens == 0;
      var next := ReinitDelegation(d, w, dels[0].delegator, noTokens, height).value;
      forall u <- records.Keys ensures Drained(next.purse, u) {
        assert Drained(d.purse, u) && Drained(d.purse, w);
      }
      DelegationsKeepDrained(next, records, dels[1..], height, v);
    }
  }

  lemma {:induction false} DelegationsPayNothing(d: Store, records: map<Addr, Validator>, dels: seq<Delegation>,
                                                 height: int)
    requires ReinitAllDelegations(d, records, dels, height).Some?
    ensures ReinitAllDelegations(d, records, dels, height).value.purse.paidOut == d.purse.paidOut
    decreases dels
  {
    if dels != [] {
      DelegationsPayNothing(ReinitDelegation(d, dels[0].validator, dels[0].delegator,
                                             records[dels[0].validator].tokens == 0, height).value,
                            records, dels[1..], height);
    }
  }

  lemma {:induction false} SumDrained(a: Amounts, vals: seq<Addr>, x: string)
    requires forall v <- vals :: Drained(a, v)
    ensures Sum(a.outstanding, vals, x) == 0.0
  {
    if vals != [] {
      assert Drained(a, vals[0]);
      SumDrained(a, vals[1..], x);
    }
  }

  /** Re-initialisation drains every validator on record; its scraps, and nothing else, go to
      the community pool. */
  lemma ReinitConserves(d: Store, records: map<Addr, Validator>, dels: seq<Delegation>, x: string)
    requires ReinitEverything(d, records, dels).Some?
    ensures var vals := KeysInOrder(records.Keys);
            var purse := ReinitEverything(d, records, dels).value.purse;
            && Conserves(d.purse, purse, vals, x)
            && (forall v <- records.Keys :: Drained(purse, v))
            && purse.paidOut == d.purse.paidOut
            && AmountOf(purse.communityPool, x) ==
               AmountOf(d.purse.communityPool, x) + Sum(d.purse.outstanding, vals, x)
  {
    var vals := KeysInOrder(records.Keys);
    KeysInOrderAscend(records.Keys);
    AllReinitValidatorsConserve(ClearHistory(d), vals, vals, x);
    ReinitAllValidatorsEffect(ClearHistory(d), vals);
    var renewed := ReinitAllValidators(ClearHistory(d), vals);
    AllReinitDelegationsConserve(renewed, records, dels, 0, vals, x);
    DelegationsPayNothing(renewed, records, dels, 0);
    var purse := ReinitEverything(d, records, dels).value.purse;
    forall v <- records.Keys ensures Drained(purse, v) {
      DelegationsKeepDrained(renewed, records, dels, 0, v);
    }
    SumDrained(purse, vals, x);
  }

  /** Nothing is lost over the whole preparation, in any denomination: community pool,
      outstanding rewards and payments add up to what they were, every validator ends drained,
      and what the withdrawals leave outstanding ends up exactly in the pool. */
  lemma PreparationConserves(d: Store, k: Keepers, records: map<Addr, Validator>, dels: seq<Delegation>, height: int,
                             x: string)
    requires PrepDistribution(d, k, records, dels, height).Some?
    ensures var vals := KeysInOrder(records.Keys);
            var withdrawn := WithdrawEverything(d, k, records, dels, height).value.purse;
            var purse := PrepDistribution(d, k, records, dels, height).value.purse;
            && Conserves(d.purse, purse, vals, x)
            && (forall v <- records.Keys :: Drained(purse, v))
            && purse.paidOut == withdrawn.paidOut
            && AmountOf(purse.communityPool, x) ==
               AmountOf(withdrawn.communityPool, x) + Sum(withdrawn.outstanding, vals, x)
  {
    var vals := KeysInOrder(records.Keys);
    KeysInOrderAscend(records.Keys);
    var commissioned := WithdrawAllCommission(d, k, vals).value;
    AllCommissionConserves(d, k, vals, vals, x);
    AllRewardsConserve(commissioned, k, records, dels, height, vals, x);
    ReinitConserves(WithdrawEverything(d, k, records, dels, height).value, records, dels, x);
  }

  /** Commission and outstanding rewards before and after a withdrawal: the whole coins are
      paid and fractions stay; with no commission, or an error, nothing changes. */
  ghost predicate CommissionPaid(c: DecCoins, o: DecCoins, c': DecCoins, o': DecCoins, sendFails: bool) {
    if IsZero(c) || sendFails then c' == c && o' == o
    else
      forall x ::
        && AmountOf(c', x) < 1.0
        && AmountOf(c, x) - AmountOf(c', x) == (AmountOf(c, x) - AmountOf(c', x)).Floor as real
        && AmountOf(o, x) - AmountOf(o', x) == AmountOf(c, x) - AmountOf(c', x)
  }

  lemma CommissionEffect(d: Store, k: Keepers, v: Addr)
    requires WithdrawCommission(d, k, v).Some?
    ensures var a, a' := d.purse, WithdrawCommission(d, k, v).value.purse;
            CommissionPaid(Held(a.commission, v), Held(a.outstanding, v),
                           Held(a'.commission, v), Held(a'.outstanding, v), k.commissionSendFails(v))
  {
  }

  lemma {:induction false} CommissionElsewhere(d: Store, k: Keepers, vals: seq<Addr>, v: Addr)
    requires v !in vals && WithdrawAllCommission(d, k, vals).Some?
    ensures var a' := WithdrawAllCommission(d, k, vals).value.purse;
            && Held(a'.commission, v) == Held(d.purse.commission, v)
            && Held(a'.outstanding, v) == Held(d.purse.outstanding, v)
    decreases vals
  {
    if vals != [] {
      CommissionElsewhere(WithdrawCommission(d, k, vals[0]).value, k, vals[1..], v);
    }
  }

  /** What the first phase pays to each validator. */
  lemma {:induction false} AllCommissionEffect(d: Store, k: Keepers, vals: seq<Addr>, i: nat)
    requires Distinct(vals) && i < |vals| && WithdrawAllCommission(d, k, vals).Some?
    ensures var a, a', v := d.purse, WithdrawAllCommission(d, k, vals).value.purse, vals[i];
            CommissionPaid(Held(a.commission, v), Held(a.outstanding, v),
                           Held(a'.commission, v), Held(a'.outstanding, v), k.commissionSendFails(v))
    decreases vals
  {
    var next := WithdrawCommission(d, k, vals[0]).value;
    if i == 0 {
      CommissionEffect(d, k, vals[0]);
      CommissionElsewhere(next, k, vals[1..], vals[0]);
    } else {
      CommissionElsewhere(d, k, [vals[0]], vals[i]);
      assert WithdrawAllCommission(d, k, [vals[0]]) == Some(next);
      AllCommissionEffect(next, k, vals[1..], i - 1);
    }
  }

  // ----- The books at the end -----

  /** The (validator, delegator) pairs of a list of delegations. */
  ghost function TrackedBy(dels: seq<Delegation>): set<(Addr, Addr)> {
    set x | x in dels :: (x.validator, x.delegator)
  }

  lemma TrackedByStep(dels: seq<Delegation>)
    requires dels != [] && Distinct(dels)
    ensures TrackedBy(dels) == {(dels[0].validator, dels[0].delegator)} + TrackedBy(dels[1..])
    ensures (dels[0].validator, dels[0].delegator) !in TrackedBy(dels[1..])
  {
    assert dels == [dels[0]] + dels[1..];
  }

  /** Re-initialising delegations not yet tracked succeeds, and tracks them all. */
  lemma {:induction false} ReinitAllDelegationsWorks(d: Store, records: map<Addr, Validator>, dels: seq<Delegation>,
                                                     height: int, tracked: set<(Addr, Addr)>)
    requires InBalance(d, records.Keys, tracked)
    requires Distinct(dels) && (forall x <- dels :: x.validator in records) && tracked !! TrackedBy(dels)
    ensures ReinitAllDelegations(d, records, dels, height).Some?
    ensures InBalance(ReinitAllDelegations(d, records, dels, height).value, records.Keys, tracked + TrackedBy(dels))
    decreases dels
  {
    if dels == [] {
      assert tracked + TrackedBy(dels) == tracked;
    } else {
      TrackedByStep(dels);
      var v, del, noTokens := dels[0].validator, dels[0].delegator, records[dels[0].validator].tokens == 0;
      assert (v, del) in TrackedBy(dels);
      ReinitDelegationWorks(d, v, del, noTokens, height, records.Keys, tracked);
      var next := ReinitDelegation(d, v, del, noTokens, height).value;
      ReinitAllDelegationsWorks(next, records, dels[1..], height, tracked + {(v, del)});
      assert tracked + {(v, del)} + TrackedBy(dels[1..]) == tracked + TrackedBy(dels);
    }
  }

  /** Exactly the listed delegations get a new starting record, at the given height. */
  lemma {:induction false} ReinitAllDelegationsHeights(d: Store, records: map<Addr, Validator>,
                                                       dels: seq<Delegation>, height: int)
    requires Distinct(dels) && ReinitAllDelegations(d, records, dels, height).Some?
    ensures var b' := ReinitAllDelegations(d, records, dels, height).value.books;
            && b'.slashEvents == d.books.slashEvents
            && b'.starting.Keys == d.books.starting.Keys + TrackedBy(dels)
            && (forall x <- TrackedBy(dels) :: b'.starting[x].height == height)
            && (forall x <- d.books.starting.Keys - TrackedBy(dels) :: b'.starting[x] == d.books.starting[x])
    decreases dels
  {
    if dels != [] {
      TrackedByStep(dels);
      var v, del, noTokens := dels[0].validator, dels[0].delegator, records[dels[0].validator].tokens == 0;
      ReinitAllDelegationsHeights(ReinitDelegation(d, v, del, noTokens, height).value, records, dels[1..], height);
    }
  }

  /** All delegations that get through are to validators on record. */
  lemma {:induction false} ReinitNeedsValidators(d: Store, records: map<Addr, Validator>, dels: seq<Delegation>,
                                                 height: int)
    requires ReinitAllDelegations(d, records, dels, height).Some?
    ensures forall x <- dels :: x.validator in records
    decreases dels
  {
    if dels != [] {
      var v, del, noTokens := dels[0].validator, dels[0].delegator, records[dels[0].validator].tokens == 0;
      ReinitNeedsValidators(ReinitDelegation(d, v, del, noTokens, height).value, records, dels[1..], height);
    }
  }

  /** With all history cleared, re-initialising the validators leaves one reference each and no tracker. */
  lemma RenewedInBalance(d: Store, vals: seq<Addr>, keys: set<Addr>)
    requires forall v :: v in keys <==> v in vals
    ensures InBalance(ReinitAllValidators(ClearHistory(d), vals), keys, {})
  {
    ReinitAllValidatorsEffect(ClearHistory(d), vals);
    var d' := ReinitAllValidators(ClearHistory(d), vals);
    forall v, p: nat | v in keys
      ensures Periods.RefsAt(d'.books.historical, v, p) == Periods.ExpectedRefs(d'.books, {}, v, p)
    {
      assert Periods.Trackers(d'.books, {}, v, p) == {} && Periods.SlashRefs(d'.books, v, p) == {};
    }
    forall v <- keys ensures Covers(Held(d'.purse.outstanding, v), Held(d'.purse.rewards, v)) {
      assert Drained(d'.purse, v);
    }
  }

  /** Whatever the books looked like before: when the second half gets through, every
      historical record counts exactly its references, no slash event is left, and the
      delegations start at height zero. */
  lemma ReinitBalances(d: Store, records: map<Addr, Validator>, dels: seq<Delegation>)
    requires Distinct(dels) && ReinitEverything(d, records, dels).Some?
    ensures var books := ReinitEverything(d, records, dels).value.books;
            && Periods.RefsOk(books, records.Keys, TrackedBy(dels)) && books.slashEvents == map[]
            && forall x <- TrackedBy(dels) :: x in books.starting && books.starting[x].height == 0
  {
    var vals := KeysInOrder(records.Keys);
    KeysInOrderAscend(records.Keys);
    RenewedInBalance(d, vals, records.Keys);
    ReinitAllValidatorsEffect(ClearHistory(d), vals);
    var renewed := ReinitAllValidators(ClearHistory(d), vals);
    ReinitNeedsValidators(renewed, records, dels, 0);
    ReinitAllDelegationsWorks(renewed, records, dels, 0, {});
    assert {} + TrackedBy(dels) == TrackedBy(dels);
    ReinitAllDelegationsHeights(renewed, records, dels, 0);
  }

  ghost function DelegationsTo(dels: seq<Delegation>, v: Addr): nat {
    if dels == [] then 0 else (if dels[0].validator == v then 1 else 0) + DelegationsTo(dels[1..], v)
  }

  ghost function TrackedTo(tracked: set<(Addr, Addr)>, v: Addr): set<(Addr, Addr)> {
    set k | k in tracked && k.0 == v
  }

  lemma TrackedToAdd(tracked: set<(Addr, Addr)>, k: (Addr, Addr), v: Addr)
    requires k !in tracked
    ensures |TrackedTo({k} + tracked, v)| == |TrackedTo(tracked, v)| + if k.0 == v then 1 else 0
  {
    if k.0 == v {
      assert TrackedTo({k} + tracked, v) == TrackedTo(tracked, v) + {k};
    } else {
      assert TrackedTo({k} + tracked, v) == TrackedTo(tracked, v);
    }
  }

  lemma {:induction false} TrackedToCount(dels: seq<Delegation>, v: Addr)
    requires Distinct(dels)
    ensures |TrackedTo(TrackedBy(dels), v)| == DelegationsTo(dels, v)
  {
    if dels == [] {
      assert TrackedTo(TrackedBy(dels), v) == {};
    } else {
      TrackedByStep(dels);
      TrackedToCount(dels[1..], v);
      TrackedToAdd(TrackedBy(dels[1..]), (dels[0].validator, dels[0].delegator), v);
    }
  }

  /** After the preparation a validator's counts add up to one plus its delegations, and nothing
      is counted from its current period on. */
  lemma PreparationCounts(d: Store, k: Keepers, records: map<Addr, Validator>, dels: seq<Delegation>, height: int,
                          v: Addr)
    requires Distinct(dels) && PrepDistribution(d, k, records, dels, height).Some? && v in records
    ensures var books := PrepDistribution(d, k, records, dels, height).value.books;
            && v in books.period
            && Periods.RefSum(books, v, books.period[v]) == 1 + DelegationsTo(dels, v)
            && forall p: nat | p >= books.period[v] :: Periods.RefsAt(books.historical, v, p) == 0
  {
    ReinitBalances(WithdrawEverything(d, k, records, dels, height).value, records, dels);
    var books := PrepDistribution(d, k, records, dels, height).value.books;
    var tracked, n := TrackedBy(dels), books.period[v];
    Periods.RefSumCountsTrackers(books, records.Keys, tracked, v, n);
    TrackedToCount(dels, v);
    assert Periods.TrackersBelow(books, tracked, v, n) == TrackedTo(tracked, v);
    forall p: nat | p >= n ensures Periods.RefsAt(books.historical, v, p) == 0 {
      assert Periods.RefsAt(books.historical, v, p) == Periods.ExpectedRefs(books, tracked, v, p);
      assert Periods.Trackers(books, tracked, v, p) == {} && Periods.SlashRefs(books, v, p) == {};
    }
  }

  /** ...and each delegation starts, at height zero, from a period that is live. */
  lemma PreparationStarts(d: Store, k: Keepers, records: map<Addr, Validator>, dels: seq<Delegation>, height: int,
                          x: Delegation)
    requires Distinct(dels) && PrepDistribution(d, k, records, dels, height).Some? && x in dels
    ensures var books := PrepDistribution(d, k, records, dels, height).value.books;
            && (x.validator, x.delegator) in books.starting
            && books.starting[(x.validator, x.delegator)].height == 0
            && Periods.RefsAt(books.historical, x.validator,
                              books.starting[(x.validator, x.delegator)].previousPeriod) > 0
  {
    ReinitBalances(WithdrawEverything(d, k, records, dels, height).value, records, dels);
    var books := PrepDistribution(d, k, records, dels, height).value.books;
    assert (x.validator, x.delegator) in TrackedBy(dels);
    Periods.LiveStart(books, records.Keys, TrackedBy(dels), x.validator, x.delegator);
  }

  // ----- The preparation does not abort -----

  lemma {:induction false} AllCommissionWorks(d: Store, k: Keepers, some: seq<Addr>, vals: set<Addr>)
    requires Solvent(d.purse, vals) && forall v <- some :: v in vals
    ensures WithdrawAllCommission(d, k, some).Some?
    ensures var d' := WithdrawAllCommission(d, k, some).value;
            Solvent(d'.purse, vals) && d'.books == d.books
    decreases some
  {
    if some != [] {
      PayCommissionWorks(d.purse, some[0], vals);
      AllCommissionWorks(WithdrawCommission(d, k, some[0]).value, k, some[1..], vals);
    }
  }

  lemma {:induction false} AllRewardsWork(d: Store, k: Keepers, records: map<Addr, Validator>, dels: seq<Delegation>,
                                          height: int, tracked: set<(Addr, Addr)>)
    requires InBalance(d, records.Keys, tracked)
    requires forall x <- dels :: && x.validator in records && (x.validator, x.delegator) in tracked
                                 && !k.rewardSendFails(x.validator, x.delegator)
    ensures WithdrawAllRewards(d, k, records, dels, height).Some?
    ensures InBalance(WithdrawAllRewards(d, k, records, dels, height).value, records.Keys, tracked)
    decreases dels
  {
    if dels != [] {
      var v, del, noTokens := dels[0].validator, dels[0].delegator, records[dels[0].validator].tokens == 0;
      assert dels[0] in dels;
      WithdrawRewardsWorks(d, k, v, del, noTokens, height, records.Keys, tracked);
      AllRewardsWork(WithdrawRewards(d, k, v, del, noTokens, height).value, k, records, dels[1..], height, tracked);
    }
  }

  /** Withdrawals that get through were of delegations to validators on record, and
      their coins could be sent. */
  lemma {:induction false} RewardsGetThrough(d: Store, k: Keepers, records: map<Addr, Validator>,
                                             dels: seq<Delegation>, height: int)
    requires WithdrawAllRewards(d, k, records, dels, height).Some?
    ensures forall x <- dels :: x.validator in records && !k.rewardSendFails(x.validator, x.delegator)
    decreases dels
  {
    if dels != [] {
      var v := dels[0].validator;
      RewardsGetThrough(WithdrawRewards(d, k, v, dels[0].delegator, records[v].tokens == 0, height).value,
                        k, records, dels[1..], height);
    }
  }

  /** Books in order before the export: every delegation is tracked, references are counted
      right and amounts are covered. */
  ghost predicate InOrder(d: Store, records: map<Addr, Validator>, dels: seq<Delegation>) {
    && Distinct(dels) && (forall x <- dels :: x.validator in records)
    && Periods.RefsOk(d.books, records.Keys, TrackedBy(dels)) && Solvent(d.purse, records.Keys)
  }

  /** From books in order the preparation runs to its end, whichever commissions fail to be
      sent, exactly when the rewards of every delegation can be sent. */
  lemma PreparationCompletes(d: Store, k: Keepers, records: map<Addr, Validator>, dels: seq<Delegation>, height: int)
    requires InOrder(d, records, dels)
    ensures PrepDistribution(d, k, records, dels, height).Some? <==>
            forall x <- dels :: !k.rewardSendFails(x.validator, x.delegator)
  {
    var vals := KeysInOrder(records.Keys);
    KeysInOrderAscend(records.Keys);
    AllCommissionWorks(d, k, vals, records.Keys);
    var commissioned := WithdrawAllCommission(d, k, vals).value;
    if WithdrawAllRewards(commissioned, k, records, dels, height).Some? {
      RewardsGetThrough(commissioned, k, records, dels, height);
    }
    if forall x <- dels :: !k.rewardSendFails(x.validator, x.delegator) {
      SolventCovered(commissioned.purse, records.Keys);
      AllRewardsWork(commissioned, k, records, dels, height, TrackedBy(dels));
      var withdrawn := WithdrawEverything(d, k, records, dels, height).value;
      RenewedInBalance(withdrawn, vals, records.Keys);
      ReinitAllDelegationsWorks(ReinitAllValidators(ClearHistory(withdrawn), vals), records, dels, 0, {});
    }
  }
}
