// The distribution module's store and the keeper calls made by the zero-height export.
// The calls are the F1 fee distribution of cosmos-sdk x/distribution, assumed here as
// functions on the store; None stands for an error or panic that aborts the export.
module Distribution {
  import opened Common
  import opened Staking
  import Coins
  import Periods
  import Purse

  datatype Store = Store(books: Periods.Books, purse: Purse.Amounts)

  /** What the other modules decide: whether sending coins fails, and the rewards that F1
      computes for a delegation. */
  datatype Keepers = Keepers(
    commissionSendFails: Addr -> bool,
    rewardSendFails: (Addr, Addr) -> bool,
    rawRewards: (Addr, Addr) -> Coins.DecCoins)

  /** WithdrawValidatorCommission. An error - no commission, or coins that cannot be sent -
      leaves the store alone, and the export only logs it. */
  function WithdrawCommission(d: Store, k: Keepers, v: Addr): Option<Store> {
    if Coins.IsZero(Purse.Held(d.purse.commission, v)) || k.commissionSendFails(v) then Some(d)
    else
      var purse :- Purse.PayCommission(d.purse, v);
      Some(d.(purse := purse))
  }

  /** WithdrawDelegationRewards: ends the validator's period, pays, and restarts the delegation. */
  function WithdrawRewards(d: Store, k: Keepers, v: Addr, del: Addr, noTokens: bool, height: int): Option<Store> {
    if (v, del) !in d.books.starting || k.rewardSendFails(v, del) then None
    else
      var settled :- Purse.SettlePeriod(d.purse, v, noTokens);
      var books :- Periods.Restart(d.books, v, del, height);
      Some(Store(books, Purse.PayRewards(settled, v, k.rawRewards(v, del))))
  }

  function DeleteAllValidatorSlashEvents(d: Store): Store {
    d.(books := d.books.(slashEvents := map[]))
  }

  function DeleteAllValidatorHistoricalRewards(d: Store): Store {
    d.(books := d.books.(historical := map[]))
  }

  /** The hook AfterValidatorCreated. */
  function AfterValidatorCreated(d: Store, v: Addr): Store {
    Store(Periods.Renew(d.books, v), Purse.Forget(d.purse, v))
  }

  /** The hook BeforeDelegationCreated. */
  function BeforeDelegationCreated(d: Store, v: Addr, noTokens: bool): Option<Store> {
    var settled :- Purse.SettlePeriod(d.purse, v, noTokens);
    var books :- Periods.EndPeriod(d.books, v);
    Some(Store(books, settled))
  }

  /** The hook AfterDelegationModified. */
  function AfterDelegationModified(d: Store, v: Addr, del: Addr, height: int): Option<Store> {
    var books :- Periods.Track(d.books, v, del, height);
    Some(d.(books := books))
  }

  // ----- From a store in order, the calls succeed and leave it in order -----

  /** References are counted right, and the rewards of current periods are covered. */
  ghost predicate InBalance(d: Store, vals: set<Addr>, tracked: set<(Addr, Addr)>) {
    Periods.RefsOk(d.books, vals, tracked) && Purse.Covered(d.purse, vals)
  }

  lemma WithdrawRewardsWorks(d: Store, k: Keepers, v: Addr, del: Addr, noTokens: bool, height: int,
                             vals: set<Addr>, tracked: set<(Addr, Addr)>)
    requires InBalance(d, vals, tracked) && v in vals && (v, del) in tracked && !k.rewardSendFails(v, del)
    ensures WithdrawRewards(d, k, v, del, noTokens, height).Some?
    ensures InBalance(WithdrawRewards(d, k, v, del, noTokens, height).value, vals, tracked)
  {
    Purse.SettlePeriodWorks(d.purse, v, noTokens, vals);
    Purse.PayRewardsKeepsCovered(Purse.SettlePeriod(d.purse, v, noTokens).value, v, k.rawRewards(v, del), vals);
    Periods.RestartWorks(d.books, v, del, height, vals, tracked);
  }

  /** The two delegation hooks, one after the other. */
  function ReinitDelegation(d: Store, v: Addr, del: Addr, noTokens: bool, height: int): Option<Store> {
    var before :- BeforeDelegationCreated(d, v, noTokens);
    AfterDelegationModified(before, v, del, height)
  }

  lemma ReinitDelegationWorks(d: Store, v: Addr, del: Addr, noTokens: bool, height: int,
                              vals: set<Addr>, tracked: set<(Addr, Addr)>)
    requires InBalance(d, vals, tracked) && v in vals && (v, del) !in tracked
    ensures ReinitDelegation(d, v, del, noTokens, height).Some?
    ensures InBalance(ReinitDelegation(d, v, del, noTokens, height).value, vals, tracked + {(v, del)})
  {
    Purse.SettlePeriodWorks(d.purse, v, noTokens, vals);
    Periods.StartWorks(d.books, v, del, height, vals, tracked);
  }
}
