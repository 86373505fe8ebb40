// The application's export for a fresh start at height zero: loops over stores that are
// rewritten in place, phase by phase.
module ZeroHeightExport {
  import opened Application
  import opened Common
  import opened KeyIteration
  import opened Staking
  import AllowList
  import Distribution
  import Purse
  import ValidatorExport
  import Phases = ZeroHeightPhases

  class EchofiApp {
    const libs: Libraries
    var lastBlockHeight: int
    // the distribution store
    var dist: Distribution.Store
    // the staking store
    var validators: Validators
    var delegations: seq<DelegationRecord>
    var redelegations: map<Key, Redelegation>
    var unbondings: map<Key, Unbonding>
    // the slashing store
    var signingInfos: SigningInfos

    ghost function AllStores(): Stores
      reads this
    {
      Stores(dist, validators, delegations, redelegations, unbondings, signingInfos)
    }

    ghost predicate Valid()
      reads this
    {
      KeyedByOwnFields(libs.codec, AllStores())
    }

    /** The map of allowed addresses, as spelt in the list; a malformed address is a panic. */
    method ParseAllowList(jailAllowedAddrs: seq<string>) returns (allowed: Option<set<string>>)
      ensures allowed == None <==> exists addr <- jailAllowedAddrs :: libs.codec.parse(addr) == None
      ensures allowed.Some? ==> forall addr :: addr in allowed.value <==> addr in jailAllowedAddrs
    {
      var spelt: set<string> := {};
      for i := 0 to |jailAllowedAddrs|
        invariant forall addr :: addr in spelt <==> addr in jailAllowedAddrs[..i]
        invariant forall addr <- jailAllowedAddrs[..i] :: libs.codec.parse(addr) != None
      {
        if libs.codec.parse(jailAllowedAddrs[i]).None? {
          return None;
        }
        spelt := spelt + {jailAllowedAddrs[i]};
      }
      assert jailAllowedAddrs[..|jailAllowedAddrs|] == jailAllowedAddrs;
      return Some(spelt);
    }

    // ----- Distribution -----

    /** An operator that does not parse is only logged, and the empty address is tried instead. */
    method WithdrawCommissions() returns (ok: bool)
      modifies this`dist
      ensures ok <==> Phases.WithdrawAllCommission(old(dist), libs.keepers, OperatorAddrs(libs.codec, validators)).Some?
      ensures ok ==>
              Some(dist) == Phases.WithdrawAllCommission(old(dist), libs.keepers, OperatorAddrs(libs.codec, validators))
    {
      var keys := AscendingKeys(validators.Keys);
      for i := 0 to |keys|
        invariant Phases.WithdrawAllCommission(dist, libs.keepers, OperatorAddrsOf(libs.codec, validators, keys[i..]))
               == Phases.WithdrawAllCommission(old(dist), libs.keepers, OperatorAddrsOf(libs.codec, validators, keys))
      {
        OperatorsFrom(libs.codec, validators, keys, i);
        var parsed := libs.codec.parse(validators[keys[i]].operator);
        var valAddr := if parsed.Some? then parsed.value else [];
        var next := Distribution.WithdrawCommission(dist, libs.keepers, valAddr);
        if next.None? {
          return false;
        }
        dist := next.value;
      }
      return true;
    }

    method WithdrawDelegatorRewards(height: int) returns (ok: bool)
      modifies this`dist
      ensures ok <==> RewardsOf(old(dist), libs, validators, delegations, height).Some?
      ensures ok ==> Some(dist) == RewardsOf(old(dist), libs, validators, delegations, height)
    {
      var dels := delegations;
      for i := 0 to |dels|
        invariant RewardsOf(dist, libs, validators, dels[i..], height)
               == RewardsOf(old(dist), libs, validators, dels, height)
      {
        RewardsOfStep(dist, libs, validators, dels[i..], height);
        assert dels[i..][0] == dels[i] && dels[i..][1..] == dels[i + 1..];
        var valAddr := libs.codec.parse(dels[i].validatorAddress);
        if valAddr.None? {
          return false;
        }
        var delAddr := libs.codec.parseAccount(dels[i].delegatorAddress);
        if delAddr.None? || valAddr.value !in validators {
          return false;
        }
        var next := Distribution.WithdrawRewards(dist, libs.keepers, valAddr.value, delAddr.value,
                                                 validators[valAddr.value].tokens == 0, height);
        if next.None? {
          return false;
        }
        dist := next.value;
      }
      return true;
    }

    method ReinitializeValidator(valAddr: Addr)
      modifies this`dist
      ensures dist == Phases.ReinitValidator(old(dist), valAddr)
    {
      var scraps := Purse.Held(dist.purse.outstanding, valAddr);
      dist := dist.(purse := Purse.Donate(dist.purse, scraps));
      dist := Distribution.AfterValidatorCreated(dist, valAddr);
    }

    /** Here an operator that does not parse is a panic. */
    method ReinitializeValidators() returns (ok: bool)
      modifies this`dist
      ensures ok <==> forall a <- validators.Keys :: libs.codec.parse(validators[a].operator).Some?
      ensures ok ==> dist == Phases.ReinitAllValidators(old(dist), OperatorAddrs(libs.codec, validators))
    {
      var keys := AscendingKeys(validators.Keys);
      ok := ReinitializeEach(keys);
    }

    method ReinitializeEach(keys: seq<Addr>) returns (ok: bool)
      requires forall a <- keys :: a in validators
      modifies this`dist
      ensures ok <==> forall a <- keys :: libs.codec.parse(validators[a].operator).Some?
      ensures ok ==> dist == Phases.ReinitAllValidators(old(dist), OperatorAddrsOf(libs.codec, validators, keys))
    {
      for i := 0 to |keys|
        invariant forall j | 0 <= j < i :: libs.codec.parse(validators[keys[j]].operator).Some?
        invariant Phases.ReinitAllValidators(dist, OperatorAddrsOf(libs.codec, validators, keys[i..]))
               == Phases.ReinitAllValidators(old(dist), OperatorAddrsOf(libs.codec, validators, keys))
      {
        OperatorsFrom(libs.codec, validators, keys, i);
        var valAddr := libs.codec.parse(validators[keys[i]].operator);
        if valAddr.None? {
          return false;
        }
        ReinitializeValidator(valAddr.value);
      }
      return true;
    }

    method ReinitializeDelegations(height: int) returns (ok: bool)
      modifies this`dist
      ensures ok <==> ReinitOf(old(dist), libs, validators, delegations, height).Some?
      ensures ok ==> Some(dist) == ReinitOf(old(dist), libs, validators, delegations, height)
    {
      var dels := delegations;
      for i := 0 to |dels|
        invariant ReinitOf(dist, libs, validators, dels[i..], height)
               == ReinitOf(old(dist), libs, validators, dels, height)
      {
        ReinitOfStep(dist, libs, validators, dels[i..], height);
        assert dels[i..][0] == dels[i] && dels[i..][1..] == dels[i + 1..];
        var valAddr := libs.codec.parse(dels[i].validatorAddress);
        if valAddr.None? {
          return false;
        }
        var delAddr := libs.codec.parseAccount(dels[i].delegatorAddress);
        if delAddr.None? || valAddr.value !in validators {
          return false;
        }
        var before := Distribution.BeforeDelegationCreated(dist, valAddr.value, validators[valAddr.value].tokens == 0);
        if before.None? {
          return false;
        }
        var after := Distribution.AfterDelegationModified(before.value, valAddr.value, delAddr.value, height);
        if after.None? {
          return false;
        }
        dist := after.value;
      }
      return true;
    }

    /** All the distribution phases, with the height of the context set to zero for the hooks. */
    method PrepareDistribution() returns (ok: bool)
      requires Valid()
      modifies this`dist
      ensures var dels := DecodeAll(libs.codec, delegations).value;
              var prepared := Phases.PrepDistribution(old(dist), libs.keepers, validators, dels, lastBlockHeight);
              (ok <==> prepared.Some?) && (ok ==> Some(dist) == prepared)
    {
      var ctxHeight := lastBlockHeight;
      OperatorsAreKeys(libs.codec, AllStores(), KeysInOrder(validators.Keys));
      ok := WithdrawCommissions();
      if !ok {
        return;
      }
      ok := WithdrawDelegatorRewards(ctxHeight);
      if !ok {
        return;
      }
      dist := Distribution.DeleteAllValidatorSlashEvents(dist);
      dist := Distribution.DeleteAllValidatorHistoricalRewards(dist);
      ctxHeight := 0;
      ok := ReinitializeValidators();
      if !ok {
        return;
      }
      ok := ReinitializeDelegations(ctxHeight);
    }

    // ----- Staking and slashing -----

    method ZeroCreationHeights(entries: seq<Entry>) returns (r: seq<Entry>)
      ensures r == ResetEntries(entries)
    {
      r := entries;
      for i := 0 to |entries|
        invariant |r| == |entries|
        invariant forall j | 0 <= j < i :: r[j] == ResetEntry(entries[j])
        invariant forall j | i <= j < |entries| :: r[j] == entries[j]
      {
        r := r[i := r[i].(creationHeight := 0)];
      }
    }

    method ResetRedelegationHeight(k: Key)
      requires k in redelegations && redelegations[k].StoreKey() == k
      modifies this`redelegations
      ensures var before := old(redelegations)[k];
              redelegations == old(redelegations)[k := before.(entries := ResetEntries(before.entries))]
    {
      var red := redelegations[k];
      var entries := ZeroCreationHeights(red.entries);
      red := red.(entries := entries);
      redelegations := redelegations[red.StoreKey() := red];
    }

    method ResetUnbondingHeight(k: Key)
      requires k in unbondings && unbondings[k].StoreKey() == k
      modifies this`unbondings
      ensures var before := old(unbondings)[k];
              unbondings == old(unbondings)[k := before.(entries := ResetEntries(before.entries))]
    {
      var ubd := unbondings[k];
      var entries := ZeroCreationHeights(ubd.entries);
      ubd := ubd.(entries := entries);
      unbondings := unbondings[ubd.StoreKey() := ubd];
    }

    /** Writes back each record as the iterator reaches it; visits lists the keys reached. */
    method ResetRedelegationHeights() returns (ghost visits: seq<Key>)
      requires Valid()
      modifies this`redelegations
      ensures redelegations == ResetRedelegations(old(redelegations))
      ensures VisitsAll(false, old(redelegations).Keys, visits)
      ensures Valid()
    {
      visits := [];
      ghost var keys, left := redelegations.Keys, redelegations.Keys;
      ghost var target := ResetRedelegations(redelegations);
      var cursor := Start(false, redelegations.Keys);
      while cursor.Some?
        invariant redelegations.Keys == keys && UnderWay(false, keys, left, cursor, visits)
        invariant forall k <- keys :: redelegations[k] == if k in left then old(redelegations)[k] else target[k]
        decreases left
      {
        var k := cursor.value;
        ResetRedelegationHeight(k);
        cursor := Advance(false, redelegations.Keys, k, left, visits);
        left, visits := left - {k}, visits + [k];
      }
      Finished(false, keys, visits);
    }

    method ResetUnbondingHeights() returns (ghost visits: seq<Key>)
      requires Valid()
      modifies this`unbondings
      ensures unbondings == ResetUnbondings(old(unbondings))
      ensures VisitsAll(false, old(unbondings).Keys, visits)
      ensures Valid()
    {
      visits := [];
      ghost var keys, left := unbondings.Keys, unbondings.Keys;
      ghost var target := ResetUnbondings(unbondings);
      var cursor := Start(false, unbondings.Keys);
      while cursor.Some?
        invariant unbondings.Keys == keys && UnderWay(false, keys, left, cursor, visits)
        invariant forall k <- keys :: unbondings[k] == if k in left then old(unbondings)[k] else target[k]
        decreases left
      {
        var k := cursor.value;
        ResetUnbondingHeight(k);
        cursor := Advance(false, unbondings.Keys, k, left, visits);
        left, visits := left - {k}, visits + [k];
      }
      Finished(false, keys, visits);
    }

    /** With an allow list in force, the validators whose address is not spelt in it. */
    ghost function Unlisted(applyAllowed: bool, allowed: set<string>, addrs: set<Addr>): set<Addr> {
      set a | a in addrs && applyAllowed && libs.codec.format(a) !in allowed
    }

    /** The body of the walk below; the record is written under the address it spells. */
    method ResetAndJailValidator(addr: Addr, applyAllowed: bool, allowed: set<string>)
      requires addr in validators && libs.codec.parse(validators[addr].operator) == Some(addr)
      modifies this`validators
      ensures var before := old(validators)[addr];
              validators == old(validators)[addr := before.(
                unbondingHeight := 0,
                jailed := before.jailed || (applyAllowed && libs.codec.format(addr) !in allowed))]
    {
      var validator := validators[addr];
      validator := validator.(unbondingHeight := 0);
      if applyAllowed && libs.codec.format(addr) !in allowed {
        validator := validator.(jailed := true);
      }
      var valAddr := libs.codec.parse(validator.operator);
      validators := validators[valAddr.value := validator];
    }

    /** Walks the validator store backwards with an iterator while writing to it. */
    method ResetAndJailValidators(applyAllowed: bool, allowed: set<string>) returns (ghost visits: seq<Addr>)
      requires Valid()
      modifies this`validators
      ensures validators == ResetValidators(old(validators), Unlisted(applyAllowed, allowed, old(validators).Keys))
      ensures VisitsAll(true, old(validators).Keys, visits)
      ensures Valid()
    {
      visits := [];
      ghost var keys, left := validators.Keys, validators.Keys;
      ghost var target := ResetValidators(validators, Unlisted(applyAllowed, allowed, keys));
      var cursor := Start(true, validators.Keys);
      while cursor.Some?
        invariant validators.Keys == keys && UnderWay(true, keys, left, cursor, visits)
        invariant forall a <- keys :: validators[a] == if a in left then old(validators)[a] else target[a]
        decreases left
      {
        var addr := cursor.value;
        ResetAndJailValidator(addr, applyAllowed, allowed);
        cursor := Advance(true, validators.Keys, addr, left, visits);
        left, visits := left - {addr}, visits + [addr];
      }
      Finished(true, keys, visits);
    }

    method ResetStartHeights() returns (ghost visits: seq<Addr>)
      modifies this`signingInfos
      ensures signingInfos == ResetSigningInfos(old(signingInfos))
      ensures VisitsAll(false, old(signingInfos).Keys, visits)
    {
      visits := [];
      ghost var keys, left := signingInfos.Keys, signingInfos.Keys;
      ghost var target := ResetSigningInfos(signingInfos);
      var cursor := Start(false, signingInfos.Keys);
      while cursor.Some?
        invariant signingInfos.Keys == keys && UnderWay(false, keys, left, cursor, visits)
        invariant forall a <- keys :: signingInfos[a] == if a in left then old(signingInfos)[a] else target[a]
        decreases left
      {
        var a := cursor.value;
        signingInfos := signingInfos[a := signingInfos[a].(startHeight := 0)];
        cursor := Advance(false, signingInfos.Keys, a, left, visits);
        left, visits := left - {a}, visits + [a];
      }
      Finished(false, keys, visits);
    }

    // ----- The export -----

    /** The staking part, up to the call that recomputes the validator set. */
    method PrepareStaking(jailAllowedAddrs: seq<string>, allowed: set<string>)
      requires Valid() && forall addr :: addr in allowed <==> addr in jailAllowedAddrs
      modifies this`redelegations, this`unbondings, this`validators
      ensures AllStores() == ResetStaking(libs.codec, jailAllowedAddrs, old(AllStores()))
    {
      var applyAllowedAddrs := |jailAllowedAddrs| > 0;
      ghost var visits := ResetRedelegationHeights();
      visits := ResetUnbondingHeights();
      assert Unlisted(applyAllowedAddrs, allowed, validators.Keys)
          == AllowList.JailedBy(libs.codec, jailAllowedAddrs, validators.Keys);
      visits := ResetAndJailValidators(applyAllowedAddrs, allowed);
    }

    /** Recomputing the validator set, and the slashing part. */
    method UpdateValidatorSetAndSlashing() returns (ok: bool)
      modifies this`validators, this`signingInfos
      ensures ok <==> UpdateValidatorSet(libs, old(AllStores())).Some?
      ensures ok ==> AllStores() == ResetSlashing(UpdateValidatorSet(libs, old(AllStores())).value)
    {
      var updated := libs.applyValidatorUpdates(validators, signingInfos);
      if updated.None? {
        return false;
      }
      validators, signingInfos := updated.value.0, updated.value.1;
      ghost var visits := ResetStartHeights();
      return true;
    }

    /** prepForZeroHeightGenesis; false stands for a panic. */
    method PrepForZeroHeightGenesis(jailAllowedAddrs: seq<string>) returns (ok: bool)
      requires Valid()
      modifies this
      ensures ok <==> Prepared(libs, jailAllowedAddrs, old(lastBlockHeight), old(AllStores())).Some?
      ensures ok ==> Some(AllStores()) == Prepared(libs, jailAllowedAddrs, old(lastBlockHeight), old(AllStores()))
      ensures lastBlockHeight == old(lastBlockHeight)
    {
      var allowed := ParseAllowList(jailAllowedAddrs);
      if allowed.None? {
        return false;
      }
      ok := PrepareDistribution();
      if !ok {
        return;
      }
      PrepareStaking(jailAllowedAddrs, allowed.value);
      ok := UpdateValidatorSetAndSlashing();
    }

    /** The exported application, or the error or panic that it ends with. */
    method ExportAppStateAndValidators(forZeroHeight: bool, jailAllowedAddrs: seq<string>, modulesToExport: seq<string>)
      returns (outcome: Outcome)
      requires Valid()
      modifies this
      ensures !forZeroHeight ==>
              && unchanged(this)
              && IsOutcome(libs, old(AllStores()), modulesToExport, old(lastBlockHeight) + 1, outcome)
      ensures forZeroHeight ==>
              match Prepared(libs, jailAllowedAddrs, old(lastBlockHeight), old(AllStores()))
              case None => outcome.Panic?
              case Some(prepared) =>
                AllStores() == prepared && IsOutcome(libs, prepared, modulesToExport, 0, outcome)
      ensures var genesis := libs.exportGenesis(AllStores(), modulesToExport);
              var succeeded := && genesis.Some? && libs.marshalGenesis(genesis.value).Some?
                               && libs.writeValidators(validators).Some?;
              && (outcome.Error? ==> !succeeded)
              && (outcome.Panic? ==>
                    || (forZeroHeight &&
                        Prepared(libs, jailAllowedAddrs, old(lastBlockHeight), old(AllStores())).None?)
                    || (succeeded && libs.maxConsensusValidators < 0))
              && (outcome.Exported? ==>
                    && succeeded && Some(outcome.app.appState) == libs.marshalGenesis(genesis.value)
                    && outcome.app.height == if forZeroHeight then 0 else old(lastBlockHeight) + 1)
      ensures outcome.Exported? ==>
              var written := libs.writeValidators(validators).value;
              && |outcome.app.validators| == ValidatorExport.Min(|written|, libs.maxConsensusValidators)
              && multiset(outcome.app.validators) <= multiset(written)
              && ValidatorExport.SortedByPower(outcome.app.validators)
    {
      var height := lastBlockHeight + 1;
      if forZeroHeight {
        height := 0;
        var ok := PrepForZeroHeightGenesis(jailAllowedAddrs);
        if !ok {
          return Panic;
        }
      }
      outcome := ExportStores(modulesToExport, height);
    }

    /** The part after the preparation. */
    method ExportStores(modulesToExport: seq<string>, height: int) returns (outcome: Outcome)
      ensures IsOutcome(libs, AllStores(), modulesToExport, height, outcome)
      ensures outcome.Exported? ==>
              var written := libs.writeValidators(validators).value;
              && |outcome.app.validators| == ValidatorExport.Min(|written|, libs.maxConsensusValidators)
              && multiset(outcome.app.validators) <= multiset(written)
              && ValidatorExport.SortedByPower(outcome.app.validators)
    {
      var stores := Stores(dist, validators, delegations, redelegations, unbondings, signingInfos);
      var genState := libs.exportGenesis(stores, modulesToExport);
      if genState.None? {
        return Error;
      }
      var appState := libs.marshalGenesis(genState.value);
      if appState.None? {
        return Error;
      }
      var written := libs.writeValidators(validators);
      if written.None? {
        return Error;
      }
      var vals := written.value;
      var list := new ValidatorExport.GenesisValidator[|vals|](i requires 0 <= i < |vals| => vals[i]);
      assert list[..] == vals;
      var kept := ValidatorExport.SortAndTrim(list, libs.maxConsensusValidators);
      if kept.None? {
        return Panic;
      }
      return Exported(ExportedApp(appState.value, height, kept.value));
    }
  }
}
