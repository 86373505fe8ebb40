// The stores of the application and what the zero-height preparation makes of them.
module Application {
  import opened Common
  import opened Staking
  import AllowList
  import Coins
  import Distribution
  import FinalBooks
  import KeyIteration
  import Payouts
  import Periods
  import Purse
  import ValidatorExport
  import Phases = ZeroHeightPhases

  type Validators = map<Addr, Validator>
  type SigningInfos = map<Addr, SigningInfo>

  /** The distribution, staking and slashing stores. */
  datatype Stores = Stores(
    dist: Distribution.Store,
    validators: Validators,
    delegations: seq<DelegationRecord>,
    redelegations: map<KeyIteration.Key, Redelegation>,
    unbondings: map<KeyIteration.Key, Unbonding>,
    signingInfos: SigningInfos)

  /** The genesis of each module, by its name. */
  type GenesisState = map<string, string>

  /** Calls into the libraries whose inner workings are no concern here; None is an error. */
  datatype Libraries = Libraries(
    keepers: Distribution.Keepers,
    codec: AllowList.AddressCodec,
    applyValidatorUpdates: (Validators, SigningInfos) -> Option<(Validators, SigningInfos)>,
    exportGenesis: (Stores, seq<string>) -> Option<GenesisState>,
    marshalGenesis: GenesisState -> Option<string>,
    writeValidators: Validators -> Option<seq<ValidatorExport.GenesisValidator>>,
    maxConsensusValidators: int)

  /** Every record is stored under the key made of its own fields, and there is one delegation
      for each delegator and validator. */
  ghost predicate KeyedByOwnFields(codec: AllowList.AddressCodec, s: Stores) {
    && (forall a <- s.validators.Keys :: codec.parse(s.validators[a].operator) == Some(a))
    && (forall k <- s.redelegations.Keys :: s.redelegations[k].StoreKey() == k)
    && (forall k <- s.unbondings.Keys :: s.unbondings[k].StoreKey() == k)
    && DecodeAll(codec, s.delegations).Some? && KeyIteration.Distinct(DecodeAll(codec, s.delegations).value)
  }

  // ----- Delegations -----

  /** The addresses of a delegation record, unless one of them does not parse. */
  function Decode(codec: AllowList.AddressCodec, d: DelegationRecord): Option<Delegation> {
    var validator :- codec.parse(d.validatorAddress);
    var delegator :- codec.parseAccount(d.delegatorAddress);
    Some(Delegation(delegator, validator))
  }

  ghost function DecodeAll(codec: AllowList.AddressCodec, ds: seq<DelegationRecord>): Option<seq<Delegation>> {
    if ds == [] then Some([])
    else
      var first :- Decode(codec, ds[0]);
      var rest :- DecodeAll(codec, ds[1..]);
      Some([first] + rest)
  }

  /** All of them in order, unless some address does not parse. */
  lemma {:induction false} DecodedInOrder(codec: AllowList.AddressCodec, ds: seq<DelegationRecord>)
    ensures DecodeAll(codec, ds).Some? <==> forall d <- ds ::
              codec.parse(d.validatorAddress).Some? && codec.parseAccount(d.delegatorAddress).Some?
    ensures DecodeAll(codec, ds).Some? ==>
              var dels := DecodeAll(codec, ds).value;
              && |dels| == |ds|
              && forall i | 0 <= i < |ds| :: && codec.parse(ds[i].validatorAddress) == Some(dels[i].validator)
                                             && codec.parseAccount(ds[i].delegatorAddress) == Some(dels[i].delegator)
  {
    if ds != [] {
      DecodedInOrder(codec, ds[1..]);
      assert ds == [ds[0]] + ds[1..];
    }
  }

  /** The reward phase over the records; one that does not parse is a panic. */
  ghost function RewardsOf(d: Distribution.Store, libs: Libraries, validators: Validators, ds: seq<DelegationRecord>,
                           height: int): Option<Distribution.Store>
  {
    var dels :- DecodeAll(libs.codec, ds);
    Phases.WithdrawAllRewards(d, libs.keepers, validators, dels, height)
  }

  /** The re-initialisation of delegations over the records, likewise. */
  ghost function ReinitOf(d: Distribution.Store, libs: Libraries, validators: Validators, ds: seq<DelegationRecord>,
                          height: int): Option<Distribution.Store>
  {
    var dels :- DecodeAll(libs.codec, ds);
    Phases.ReinitAllDelegations(d, validators, dels, height)
  }

  lemma RewardsOfStep(d: Distribution.Store, libs: Libraries, validators: Validators, ds: seq<DelegationRecord>,
                      height: int)
    requires ds != []
    ensures RewardsOf(d, libs, validators, ds, height) ==
            match Decode(libs.codec, ds[0])
            case None => None
            case Some(x) =>
              if x.validator !in validators then None
              else
                var next := Distribution.WithdrawRewards(d, libs.keepers, x.validator, x.delegator,
                                                         validators[x.validator].tokens == 0, height);
                if next.None? then None else RewardsOf(next.value, libs, validators, ds[1..], height)
  {
    var rest := DecodeAll(libs.codec, ds[1..]);
    if Decode(libs.codec, ds[0]).Some? && rest.Some? {
      assert ([Decode(libs.codec, ds[0]).value] + rest.value)[1..] == rest.value;
    }
  }

  lemma ReinitOfStep(d: Distribution.Store, libs: Libraries, validators: Validators, ds: seq<DelegationRecord>,
                     height: int)
    requires ds != []
    ensures ReinitOf(d, libs, validators, ds, height) ==
            match Decode(libs.codec, ds[0])
            case None => None
            case Some(x) =>
              if x.validator !in validators then None
              else
                var next := Distribution.ReinitDelegation(d, x.validator, x.delegator,
                                                          validators[x.validator].tokens == 0, height);
                if next.None? then None else ReinitOf(next.value, libs, validators, ds[1..], height)
  {
    var rest := DecodeAll(libs.codec, ds[1..]);
    if Decode(libs.codec, ds[0]).Some? && rest.Some? {
      assert ([Decode(libs.codec, ds[0]).value] + rest.value)[1..] == rest.value;
    }
  }

  // ----- Operators -----

  /** The address of an operator; one that does not parse leaves the empty address. */
  function OperatorAddr(codec: AllowList.AddressCodec, operator: string): Addr {
    match codec.parse(operator)
    case None => []
    case Some(a) => a
  }

  ghost function OperatorAddrsOf(codec: AllowList.AddressCodec, validators: Validators, keys: seq<Addr>): seq<Addr>
    requires forall a <- keys :: a in validators
  {
    if keys == [] then []
    else [OperatorAddr(codec, validators[keys[0]].operator)] + OperatorAddrsOf(codec, validators, keys[1..])
  }

  lemma OperatorsFrom(codec: AllowList.AddressCodec, validators: Validators, keys: seq<Addr>, i: nat)
    requires (forall a <- keys :: a in validators) && i < |keys|
    ensures OperatorAddrsOf(codec, validators, keys[i..]) ==
            [OperatorAddr(codec, validators[keys[i]].operator)] + OperatorAddrsOf(codec, validators, keys[i + 1..])
  {
    assert keys[i..][0] == keys[i] && keys[i..][1..] == keys[i + 1..];
  }

  /** One address for each key, empty where the operator does not parse. */
  lemma {:induction false} OperatorsOneByOne(codec: AllowList.AddressCodec, validators: Validators, keys: seq<Addr>)
    requires forall a <- keys :: a in validators
    ensures var r := OperatorAddrsOf(codec, validators, keys);
            && |r| == |keys|
            && forall i | 0 <= i < |keys| ::
                 var parsed := codec.parse(validators[keys[i]].operator);
                 if parsed.Some? then parsed == Some(r[i]) else r[i] == []
  {
    if keys != [] {
      OperatorsOneByOne(codec, validators, keys[1..]);
    }
  }

  /** The operators' addresses in the order of the store. */
  ghost function OperatorAddrs(codec: AllowList.AddressCodec, validators: Validators): seq<Addr> {
    OperatorAddrsOf(codec, validators, KeyIteration.KeysInOrder(validators.Keys))
  }

  lemma {:induction false} OperatorsAreKeys(codec: AllowList.AddressCodec, s: Stores, keys: seq<Addr>)
    requires KeyedByOwnFields(codec, s) && forall a <- keys :: a in s.validators
    ensures OperatorAddrsOf(codec, s.validators, keys) == keys
  {
    if keys != [] {
      OperatorsAreKeys(codec, s, keys[1..]);
    }
  }

  // ----- The preparation -----

  /** The staking passes: creation heights, unbonding heights and jailing. */
  ghost function ResetStaking(codec: AllowList.AddressCodec, jailAllowedAddrs: seq<string>, s: Stores): Stores {
    s.(redelegations := ResetRedelegations(s.redelegations),
       unbondings := ResetUnbondings(s.unbondings),
       validators := ResetValidators(s.validators, AllowList.JailedBy(codec, jailAllowedAddrs, s.validators.Keys)))
  }

  ghost function ResetSlashing(s: Stores): Stores {
    s.(signingInfos := ResetSigningInfos(s.signingInfos))
  }

  ghost function UpdateValidatorSet(libs: Libraries, s: Stores): Option<Stores> {
    var updated :- libs.applyValidatorUpdates(s.validators, s.signingInfos);
    Some(s.(validators := updated.0, signingInfos := updated.1))
  }

  /** The stores after prepForZeroHeightGenesis, when it does not panic. */
  ghost function Prepared(libs: Libraries, jailAllowedAddrs: seq<string>, height: int, s: Stores): Option<Stores> {
    if exists addr <- jailAllowedAddrs :: libs.codec.parse(addr) == None then None
    else
      var dels :- DecodeAll(libs.codec, s.delegations);
      var dist :- Phases.PrepDistribution(s.dist, libs.keepers, s.validators, dels, height);
      var updated :- UpdateValidatorSet(libs, ResetStaking(libs.codec, jailAllowedAddrs, s.(dist := dist)));
      Some(ResetSlashing(updated))
  }

  /** The four passes that reset heights and jail, run together twice, do what they do once. */
  lemma PassesIdempotent(codec: AllowList.AddressCodec, jailAllowedAddrs: seq<string>, s: Stores)
    ensures var once := ResetSlashing(ResetStaking(codec, jailAllowedAddrs, s));
            ResetSlashing(ResetStaking(codec, jailAllowedAddrs, once)) == once
  {
    RedelegationsSettled(s.redelegations, s.redelegations);
    UnbondingsSettled(s.unbondings, s.unbondings);
    ValidatorsSettled(s.validators, AllowList.JailedBy(codec, jailAllowedAddrs, s.validators.Keys), s.validators);
    SigningInfosSettled(s.signingInfos, s.signingInfos);
    assert ResetStaking(codec, jailAllowedAddrs, s).validators.Keys == s.validators.Keys;
  }

  /** The passes change no other store, do not depend on each other's order, and keep every
      record under its own key. */
  lemma PassesCommute(codec: AllowList.AddressCodec, jailAllowedAddrs: seq<string>, s: Stores)
    ensures ResetSlashing(ResetStaking(codec, jailAllowedAddrs, s)) ==
            ResetStaking(codec, jailAllowedAddrs, ResetSlashing(s))
    ensures var t := ResetSlashing(ResetStaking(codec, jailAllowedAddrs, s));
            t.dist == s.dist && t.delegations == s.delegations
    ensures KeyedByOwnFields(codec, s) ==> KeyedByOwnFields(codec, ResetStaking(codec, jailAllowedAddrs, s))
  {
  }

  /** The whole preparation, from any stores keyed by their own fields: in every denomination
      coins are conserved and all validators drained, references are counted right with no slash
      event left, delegations start at height zero, and signing infos start at height zero. */
  lemma PreparedSound(libs: Libraries, jailAllowedAddrs: seq<string>, height: int, s: Stores, x: string)
    requires KeyedByOwnFields(libs.codec, s) && Prepared(libs, jailAllowedAddrs, height, s).Some?
    ensures var t, vals := Prepared(libs, jailAllowedAddrs, height, s).value, s.validators.Keys;
            var tracked := Phases.TrackedBy(DecodeAll(libs.codec, s.delegations).value);
            && Purse.Conserves(s.dist.purse, t.dist.purse, KeyIteration.KeysInOrder(vals), x)
            && (forall v <- vals :: Phases.Drained(t.dist.purse, v))
            && Periods.RefsOk(t.dist.books, vals, tracked) && t.dist.books.slashEvents == map[]
            && (forall k <- tracked :: k in t.dist.books.starting && t.dist.books.starting[k].height == 0)
            && (forall a <- t.signingInfos.Keys :: t.signingInfos[a].startHeight == 0)
            && t.delegations == s.delegations
  {
    var dels := DecodeAll(libs.codec, s.delegations).value;
    Phases.PreparationConserves(s.dist, libs.keepers, s.validators, dels, height, x);
    Phases.ReinitBalances(Phases.WithdrawEverything(s.dist, libs.keepers, s.validators, dels, height).value,
                          s.validators, dels);
  }

  /** It pays out exactly what is due, reckoned in plain amounts of any denomination, and the
      rest of what the validators had outstanding goes to the community pool. */
  lemma PreparedPays(libs: Libraries, jailAllowedAddrs: seq<string>, height: int, s: Stores, dels: seq<Delegation>,
                     x: string)
    requires DecodeAll(libs.codec, s.delegations) == Some(dels) && Prepared(libs, jailAllowedAddrs, height, s).Some?
    ensures Payouts.AllOnRecord(s.validators, dels)
    ensures var a, a' := s.dist.purse, Prepared(libs, jailAllowedAddrs, height, s).value.dist.purse;
            var due := Payouts.Due(a, libs.keepers, s.validators, dels, x);
            && Coins.AmountOf(a'.paidOut, x) == Coins.AmountOf(a.paidOut, x) + due
            && Coins.AmountOf(a'.communityPool, x) ==
               Coins.AmountOf(a.communityPool, x)
               + Purse.Sum(a.outstanding, KeyIteration.KeysInOrder(s.validators.Keys), x) - due
  {
    Payouts.PreparationPays(s.dist, libs.keepers, s.validators, dels, height, x);
  }

  /** It leaves the books of the delegations on record started afresh. */
  lemma PreparedBooks(libs: Libraries, jailAllowedAddrs: seq<string>, height: int, s: Stores, dels: seq<Delegation>)
    requires DecodeAll(libs.codec, s.delegations) == Some(dels) && KeyIteration.Distinct(dels)
    requires Prepared(libs, jailAllowedAddrs, height, s).Some?
    ensures var b, b' := s.dist.books, Prepared(libs, jailAllowedAddrs, height, s).value.dist.books;
            && FinalBooks.Reinitialised(b', s.validators.Keys, dels)
            && b'.starting.Keys == b.starting.Keys
            && forall key <- b.starting.Keys - Phases.TrackedBy(dels) :: b'.starting[key] == b.starting[key]
  {
    FinalBooks.PreparationBooks(s.dist, libs.keepers, s.validators, dels, height);
  }

  // ----- The staking and slashing stores at the end -----

  /** Unbonding heights are zero; with a list, validators whose address is not spelt in it are
      jailed, and nobody is freed; nothing else differs. */
  ghost predicate JailedAsListed(codec: AllowList.AddressCodec, jailAllowedAddrs: seq<string>, before: Validators,
                                 after: Validators)
  {
    && after.Keys == before.Keys
    && forall a <- before.Keys ::
         && after[a].unbondingHeight == 0
         && (after[a].jailed <==> before[a].jailed || (|jailAllowedAddrs| > 0 && codec.format(a) !in jailAllowedAddrs))
         && after[a].(unbondingHeight := before[a].unbondingHeight, jailed := before[a].jailed) == before[a]
  }

  /** There is just one such store. */
  lemma JailedAsListedUnique(codec: AllowList.AddressCodec, jailAllowedAddrs: seq<string>, before: Validators,
                             after: Validators, after': Validators)
    requires JailedAsListed(codec, jailAllowedAddrs, before, after)
    requires JailedAsListed(codec, jailAllowedAddrs, before, after')
    ensures after == after'
  {
    forall a | a in after ensures after[a] == after'[a] {
      assert a in before;
    }
  }

  lemma ResetStakingJails(codec: AllowList.AddressCodec, jailAllowedAddrs: seq<string>, s: Stores)
    ensures JailedAsListed(codec, jailAllowedAddrs, s.validators, ResetStaking(codec, jailAllowedAddrs, s).validators)
  {
  }

  /** What the preparation does to the staking and slashing stores, field by field: "passed" is
      what the validator set is recomputed from, and "infos" are the signing infos after that. */
  lemma PreparedStaking(libs: Libraries, jailAllowedAddrs: seq<string>, height: int, s: Stores)
    returns (passed: Validators, infos: SigningInfos)
    requires Prepared(libs, jailAllowedAddrs, height, s).Some?
    ensures var t := Prepared(libs, jailAllowedAddrs, height, s).value;
            && JailedAsListed(libs.codec, jailAllowedAddrs, s.validators, passed)
            && libs.applyValidatorUpdates(passed, s.signingInfos) == Some((t.validators, infos))
            && t.signingInfos.Keys == infos.Keys
            && (forall a <- infos.Keys ::
                  t.signingInfos[a].startHeight == 0
                  && t.signingInfos[a].(startHeight := infos[a].startHeight) == infos[a])
            && t.redelegations.Keys == s.redelegations.Keys
            && (forall k <- s.redelegations.Keys ::
                  && t.redelegations[k].(entries := s.redelegations[k].entries) == s.redelegations[k]
                  && OnlyHeightsZeroed(s.redelegations[k].entries, t.redelegations[k].entries))
            && t.unbondings.Keys == s.unbondings.Keys
            && (forall k <- s.unbondings.Keys ::
                  && t.unbondings[k].(entries := s.unbondings[k].entries) == s.unbondings[k]
                  && OnlyHeightsZeroed(s.unbondings[k].entries, t.unbondings[k].entries))
  {
    var t, reset := Prepared(libs, jailAllowedAddrs, height, s).value, ResetStaking(libs.codec, jailAllowedAddrs, s);
    ResetStakingJails(libs.codec, jailAllowedAddrs, s);
    passed := reset.validators;
    infos := libs.applyValidatorUpdates(passed, s.signingInfos).value.1;
    RedelegationsSettled(s.redelegations, t.redelegations);
    UnbondingsSettled(s.unbondings, t.unbondings);
    SigningInfosSettled(infos, t.signingInfos);
  }

  /** With the distribution books in order, the preparation gets through exactly when list and
      records parse, the rewards of every delegation can be sent, and the validator set can be
      recomputed from the validators jailed as listed. */
  lemma PreparedWhenInOrder(libs: Libraries, jailAllowedAddrs: seq<string>, height: int, s: Stores, passed: Validators)
    requires var dels := DecodeAll(libs.codec, s.delegations);
             dels.Some? ==> Phases.InOrder(s.dist, s.validators, dels.value)
    requires JailedAsListed(libs.codec, jailAllowedAddrs, s.validators, passed)
    ensures Prepared(libs, jailAllowedAddrs, height, s).Some? <==>
            && (forall addr <- jailAllowedAddrs :: libs.codec.parse(addr).Some?)
            && (forall d <- s.delegations ::
                  && libs.codec.parse(d.validatorAddress).Some? && libs.codec.parseAccount(d.delegatorAddress).Some?
                  && !libs.keepers.rewardSendFails(libs.codec.parse(d.validatorAddress).value,
                                                   libs.codec.parseAccount(d.delegatorAddress).value))
            && libs.applyValidatorUpdates(passed, s.signingInfos).Some?
  {
    ResetStakingJails(libs.codec, jailAllowedAddrs, s);
    JailedAsListedUnique(libs.codec, jailAllowedAddrs, s.validators, passed,
                         ResetStaking(libs.codec, jailAllowedAddrs, s).validators);
    var dels := DecodeAll(libs.codec, s.delegations);
    DecodedInOrder(libs.codec, s.delegations);
    if dels.Some? {
      Phases.PreparationCompletes(s.dist, libs.keepers, s.validators, dels.value, height);
      AllSent(libs, s.delegations, dels.value);
    }
  }

  /** That the rewards of all delegations can be sent, said of the records. */
  lemma AllSent(libs: Libraries, ds: seq<DelegationRecord>, dels: seq<Delegation>)
    requires DecodeAll(libs.codec, ds) == Some(dels)
    requires forall d <- ds ::
               libs.codec.parse(d.validatorAddress).Some? && libs.codec.parseAccount(d.delegatorAddress).Some?
    ensures (forall y <- dels :: !libs.keepers.rewardSendFails(y.validator, y.delegator)) <==>
            forall d <- ds :: !libs.keepers.rewardSendFails(libs.codec.parse(d.validatorAddress).value,
                                                           libs.codec.parseAccount(d.delegatorAddress).value)
  {
    DecodedInOrder(libs.codec, ds);
    forall i | 0 <= i < |ds|
      ensures dels[i] == Delegation(libs.codec.parseAccount(ds[i].delegatorAddress).value,
                                    libs.codec.parse(ds[i].validatorAddress).value)
    {
    }
  }

  // ----- The exported application -----

  datatype ExportedApp = ExportedApp(appState: string, height: int, validators: seq<ValidatorExport.GenesisValidator>)

  /** An export ends with an application, with an error that is returned, or in a panic. */
  datatype Outcome = Exported(app: ExportedApp) | Error | Panic

  /** What is exported from the given stores, the preparation done. */
  ghost predicate IsOutcome(libs: Libraries, s: Stores, modulesToExport: seq<string>, height: int, outcome: Outcome) {
    var genesis := libs.exportGenesis(s, modulesToExport);
    if genesis.None? || libs.marshalGenesis(genesis.value).None? || libs.writeValidators(s.validators).None? then
      outcome.Error?
    else if libs.maxConsensusValidators < 0 then outcome.Panic?
    else
      && outcome.Exported? && outcome.app.height == height
      && Some(outcome.app.appState) == libs.marshalGenesis(genesis.value)
      && ValidatorExport.IsExport(libs.writeValidators(s.validators).value, libs.maxConsensusValidators,
                                  outcome.app.validators)
  }

  /** The outcome is determined by the stores. */
  lemma OutcomeUnique(libs: Libraries, s: Stores, modulesToExport: seq<string>, height: int, o: Outcome, p: Outcome)
    requires IsOutcome(libs, s, modulesToExport, height, o) && IsOutcome(libs, s, modulesToExport, height, p)
    ensures o == p
  {
    if o.Exported? {
      ValidatorExport.ExportUnique(libs.writeValidators(s.validators).value, libs.maxConsensusValidators,
                                   o.app.validators, p.app.validators);
    }
  }
}
