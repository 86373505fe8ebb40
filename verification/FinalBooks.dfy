// The period records at the end of the zero-height preparation, in closed form.
module FinalBooks {
  import opened Common
  import opened Distribution
  import opened Periods
  import opened Staking
  import KeyIteration
  import Phases = ZeroHeightPhases

  /** Where history has been cleared and n delegations to a validator have been re-initialised,
      each of its periods 1 to n has one reference and the last period ended one more. */
  ghost function RefsAfter(n: nat, p: nat): nat {
    (if 1 <= p <= n then 1 else 0) + if p == n then 1 else 0
  }

  /** The books hold just what re-initialising the validators, then these delegations, gives. */
  ghost predicate Reinitialised(b: Books, vals: set<Addr>, dels: seq<Delegation>) {
    && b.slashEvents == map[]
    && (forall v <- vals :: v in b.period && b.period[v] == 1 + Phases.DelegationsTo(dels, v))
    && (forall v: Addr, p: nat ::
          RefsAt(b.historical, v, p) == if v in vals then RefsAfter(Phases.DelegationsTo(dels, v), p) else 0)
    && (forall i | 0 <= i < |dels| :: StartsInTurn(b, dels, i))
  }

  /** The i-th delegation starts at height zero; the first to a validator from period 1, the
      second from period 2, and so on. */
  ghost predicate StartsInTurn(b: Books, dels: seq<Delegation>, i: nat)
    requires i < |dels|
  {
    var key := (dels[i].validator, dels[i].delegator);
    key in b.starting && b.starting[key] == StartingInfo(Phases.DelegationsTo(dels[..i + 1], dels[i].validator), 0)
  }

  lemma {:induction false} DelegationsToConcat(a: seq<Delegation>, b: seq<Delegation>, v: Addr)
    ensures Phases.DelegationsTo(a + b, v) == Phases.DelegationsTo(a, v) + Phases.DelegationsTo(b, v)
  {
    if a == [] {
      assert a + b == b;
    } else {
      assert (a + b)[1..] == a[1..] + b;
      DelegationsToConcat(a[1..], b, v);
    }
  }

  lemma OneMore(dels: seq<Delegation>, y: Delegation, v: Addr)
    ensures Phases.DelegationsTo(dels + [y], v) == Phases.DelegationsTo(dels, v) + if y.validator == v then 1 else 0
  {
    DelegationsToConcat(dels, [y], v);
    assert [y][1..] == [];
  }

  /** The two hooks for one more delegation. */
  lemma StartOneMore(b: Books, vals: set<Addr>, dels: seq<Delegation>, y: Delegation)
    requires Reinitialised(b, vals, dels) && y !in dels && y.validator in vals
    requires Start(b, y.validator, y.delegator, 0).Some?
    ensures Reinitialised(Start(b, y.validator, y.delegator, 0).value, vals, dels + [y])
  {
    var v, all := y.validator, dels + [y];
    var b' := Start(b, v, y.delegator, 0).value;
    var n := Phases.DelegationsTo(dels, v);
    forall w ensures Phases.DelegationsTo(all, w) == Phases.DelegationsTo(dels, w) + if v == w then 1 else 0 {
      OneMore(dels, y, w);
    }
    forall w: Addr, p: nat
      ensures RefsAt(b'.historical, w, p) == if w in vals then RefsAfter(Phases.DelegationsTo(all, w), p) else 0
    {
      assert RefsAt(b.historical, v, n) == RefsAfter(n, n);
      assert RefsAt(b.historical, w, p) == if w in vals then RefsAfter(Phases.DelegationsTo(dels, w), p) else 0;
    }
    forall i | 0 <= i < |all| ensures StartsInTurn(b', all, i) {
      if i < |dels| {
        assert StartsInTurn(b, dels, i);
        assert all[..i + 1] == dels[..i + 1] && all[i] in dels;
      } else {
        assert all[..i + 1] == all;
      }
    }
  }

  lemma {:induction false} DelegationsReinitialised(d: Store, records: map<Addr, Validator>, done: seq<Delegation>,
                                                    dels: seq<Delegation>)
    requires Reinitialised(d.books, records.Keys, done) && KeyIteration.Distinct(done + dels)
    requires Phases.ReinitAllDelegations(d, records, dels, 0).Some?
    ensures Reinitialised(Phases.ReinitAllDelegations(d, records, dels, 0).value.books, records.Keys, done + dels)
    decreases dels
  {
    if dels == [] {
      assert done + dels == done;
    } else {
      var y := dels[0];
      assert (done + dels)[|done|] == y && forall i | 0 <= i < |done| :: (done + dels)[i] == done[i];
      assert done + dels == (done + [y]) + dels[1..];
      StartOneMore(d.books, records.Keys, done, y);
      DelegationsReinitialised(ReinitDelegation(d, y.validator, y.delegator, records[y.validator].tokens == 0, 0).value,
                               records, done + [y], dels[1..]);
    }
  }

  lemma ValidatorsReinitialised(d: Store, records: map<Addr, Validator>)
    ensures var d' := Phases.ReinitAllValidators(Phases.ClearHistory(d), KeyIteration.KeysInOrder(records.Keys));
            Reinitialised(d'.books, records.Keys, [])
  {
    var cleared, vals := Phases.ClearHistory(d), KeyIteration.KeysInOrder(records.Keys);
    KeyIteration.KeysInOrderAscend(records.Keys);
    Phases.ReinitAllValidatorsEffect(cleared, vals);
    var b := Phases.ReinitAllValidators(cleared, vals).books;
    forall v: Addr, p: nat
      ensures RefsAt(b.historical, v, p) == if v in records.Keys then RefsAfter(0, p) else 0
    {
      assert RefsAt(cleared.books.historical, v, p) == 0;
    }
    NothingToReinitialise(b, records.Keys);
  }

  lemma NothingToReinitialise(b: Books, vals: set<Addr>)
    requires b.slashEvents == map[] && forall v <- vals :: v in b.period && b.period[v] == 1
    requires forall v: Addr, p: nat :: RefsAt(b.historical, v, p) == if v in vals then RefsAfter(0, p) else 0
    ensures Reinitialised(b, vals, [])
  {
  }

  lemma RestartKeepsStarting(b: Books, v: Addr, del: Addr, height: int)
    requires Restart(b, v, del, height).Some?
    ensures var b' := Restart(b, v, del, height).value;
            && b'.starting.Keys == b.starting.Keys && (v, del) in b.starting
            && forall key <- b.starting.Keys - {(v, del)} :: b'.starting[key] == b.starting[key]
  {
  }

  /** Withdrawals restart delegations; they track no other and forget none. */
  lemma {:induction false} WithdrawalsKeepStarting(d: Store, k: Keepers, records: map<Addr, Validator>,
                                                   dels: seq<Delegation>, height: int)
    requires Phases.WithdrawAllRewards(d, k, records, dels, height).Some?
    ensures var b' := Phases.WithdrawAllRewards(d, k, records, dels, height).value.books;
            && b'.starting.Keys == d.books.starting.Keys && Phases.TrackedBy(dels) <= d.books.starting.Keys
            && forall key <- d.books.starting.Keys - Phases.TrackedBy(dels) :: b'.starting[key] == d.books.starting[key]
    decreases dels
  {
    if dels != [] {
      var v, del := dels[0].validator, dels[0].delegator;
      var next := WithdrawRewards(d, k, v, del, records[v].tokens == 0, height).value;
      RestartKeepsStarting(d.books, v, del, height);
      WithdrawalsKeepStarting(next, k, records, dels[1..], height);
      assert Phases.TrackedBy(dels) == {(v, del)} + Phases.TrackedBy(dels[1..]);
    }
  }

  lemma {:induction false} CommissionsKeepBooks(d: Store, k: Keepers, vals: seq<Addr>)
    requires Phases.WithdrawAllCommission(d, k, vals).Some?
    ensures Phases.WithdrawAllCommission(d, k, vals).value.books == d.books
    decreases vals
  {
    if vals != [] {
      CommissionsKeepBooks(WithdrawCommission(d, k, vals[0]).value, k, vals[1..]);
    }
  }

  /** Whatever the books before: at the end they are those of the validators and delegations on
      record, started afresh. Records of other delegations are left as they were. */
  lemma PreparationBooks(d: Store, k: Keepers, records: map<Addr, Validator>, dels: seq<Delegation>, height: int)
    requires KeyIteration.Distinct(dels) && Phases.PrepDistribution(d, k, records, dels, height).Some?
    ensures var b' := Phases.PrepDistribution(d, k, records, dels, height).value.books;
            && Reinitialised(b', records.Keys, dels)
            && b'.starting.Keys == d.books.starting.Keys
            && forall key <- d.books.starting.Keys - Phases.TrackedBy(dels) :: b'.starting[key] == d.books.starting[key]
  {
    var vals := KeyIteration.KeysInOrder(records.Keys);
    var commissioned := Phases.WithdrawAllCommission(d, k, vals).value;
    CommissionsKeepBooks(d, k, vals);
    WithdrawalsKeepStarting(commissioned, k, records, dels, height);
    var withdrawn := Phases.WithdrawEverything(d, k, records, dels, height).value;
    var renewed := Phases.ReinitAllValidators(Phases.ClearHistory(withdrawn), vals);
    ValidatorsReinitialised(withdrawn, records);
    Phases.ReinitAllValidatorsEffect(Phases.ClearHistory(withdrawn), vals);
    assert [] + dels == dels;
    DelegationsReinitialised(renewed, records, [], dels);
    Phases.ReinitAllDelegationsHeights(renewed, records, dels, 0);
  }
}
