// The staking and slashing records that the zero-height export rewrites.
module Staking {
  import KeyIteration

  type Addr = KeyIteration.Key

  /** A validator record with its operator's address as spelt in it; tokens and status stand
      for the fields that are left alone. */
  datatype Validator = Validator(operator: string, tokens: nat, status: int, jailed: bool, unbondingHeight: int)

  /** A delegation record with the addresses as spelt in it, and the addresses themselves. */
  datatype DelegationRecord = DelegationRecord(delegatorAddress: string, validatorAddress: string)

  datatype Delegation = Delegation(delegator: Addr, validator: Addr)

  datatype Entry = Entry(creationHeight: int, completionTime: int, initialBalance: int, balance: int)

  /** An address inside a longer key. */
  function LengthPrefixed(a: Addr): KeyIteration.Key {
    [|a|] + a
  }

  datatype Redelegation = Redelegation(delegator: Addr, source: Addr, destination: Addr, entries: seq<Entry>) {
    function StoreKey(): KeyIteration.Key {
      LengthPrefixed(delegator) + LengthPrefixed(source) + LengthPrefixed(destination)
    }
  }

  datatype Unbonding = Unbonding(delegator: Addr, validator: Addr, entries: seq<Entry>) {
    function StoreKey(): KeyIteration.Key {
      LengthPrefixed(delegator) + LengthPrefixed(validator)
    }
  }

  datatype SigningInfo = SigningInfo(startHeight: int, indexOffset: int, missedBlocks: int, tombstoned: bool)

  // ----- The stores after each pass -----

  function ResetEntry(e: Entry): Entry {
    e.(creationHeight := 0)
  }

  function ResetEntries(entries: seq<Entry>): seq<Entry> {
    seq(|entries|, i requires 0 <= i < |entries| => ResetEntry(entries[i]))
  }

  function ResetRedelegations(store: map<KeyIteration.Key, Redelegation>): map<KeyIteration.Key, Redelegation> {
    map k | k in store :: store[k].(entries := ResetEntries(store[k].entries))
  }

  function ResetUnbondings(store: map<KeyIteration.Key, Unbonding>): map<KeyIteration.Key, Unbonding> {
    map k | k in store :: store[k].(entries := ResetEntries(store[k].entries))
  }

  function ResetValidators(store: map<Addr, Validator>, jailed: set<Addr>): map<Addr, Validator> {
    map a | a in store :: store[a].(unbondingHeight := 0, jailed := store[a].jailed || a in jailed)
  }

  function ResetSigningInfos(store: map<Addr, SigningInfo>): map<Addr, SigningInfo> {
    map a | a in store :: store[a].(startHeight := 0)
  }

  // ----- What a pass means, record by record -----

  /** The entries agree in number, order and everything but creation heights, and those are zero. */
  ghost predicate OnlyHeightsZeroed(before: seq<Entry>, after: seq<Entry>) {
    && |after| == |before|
    && forall i | 0 <= i < |before| ::
         after[i].creationHeight == 0 && after[i].(creationHeight := before[i].creationHeight) == before[i]
  }

  /** Each pass is settled by what it must do to every record, and doing it again changes nothing. */
  lemma RedelegationsSettled(store: map<KeyIteration.Key, Redelegation>, after: map<KeyIteration.Key, Redelegation>)
    ensures after == ResetRedelegations(store) <==>
            && after.Keys == store.Keys
            && forall k <- store.Keys ::
                 && after[k].(entries := store[k].entries) == store[k]
                 && OnlyHeightsZeroed(store[k].entries, after[k].entries)
    ensures ResetRedelegations(ResetRedelegations(store)) == ResetRedelegations(store)
  {
    var reset := ResetRedelegations(store);
    if after.Keys == store.Keys && forall k <- store.Keys ::
         after[k].(entries := store[k].entries) == store[k] && OnlyHeightsZeroed(store[k].entries, after[k].entries)
    {
      forall k | k in store ensures after[k] == reset[k] {
        EntriesSettled(store[k].entries, after[k].entries);
      }
      assert after == reset;
    }
    forall k | k in store ensures ResetRedelegations(reset)[k] == reset[k] {
      EntriesSettled(store[k].entries, reset[k].entries);
    }
  }

  lemma EntriesSettled(before: seq<Entry>, after: seq<Entry>)
    ensures OnlyHeightsZeroed(before, after) <==> after == ResetEntries(before)
    ensures ResetEntries(ResetEntries(before)) == ResetEntries(before)
  {
  }

  lemma UnbondingsSettled(store: map<KeyIteration.Key, Unbonding>, after: map<KeyIteration.Key, Unbonding>)
    ensures after == ResetUnbondings(store) <==>
            && after.Keys == store.Keys
            && forall k <- store.Keys ::
                 && after[k].(entries := store[k].entries) == store[k]
                 && OnlyHeightsZeroed(store[k].entries, after[k].entries)
    ensures ResetUnbondings(ResetUnbondings(store)) == ResetUnbondings(store)
  {
    var reset := ResetUnbondings(store);
    if after.Keys == store.Keys && forall k <- store.Keys ::
         after[k].(entries := store[k].entries) == store[k] && OnlyHeightsZeroed(store[k].entries, after[k].entries)
    {
      forall k | k in store ensures after[k] == reset[k] {
        EntriesSettled(store[k].entries, after[k].entries);
      }
      assert after == reset;
    }
    forall k | k in store ensures ResetUnbondings(reset)[k] == reset[k] {
      EntriesSettled(store[k].entries, reset[k].entries);
    }
  }

  /** The validator pass: same keys, unbonding heights zero, jailed when jailed before or now,
      all else untouched; and a second pass with the same list changes nothing. */
  lemma ValidatorsSettled(store: map<Addr, Validator>, jailed: set<Addr>, after: map<Addr, Validator>)
    ensures after == ResetValidators(store, jailed) <==>
            && after.Keys == store.Keys
            && forall a <- store.Keys ::
                 && after[a].unbondingHeight == 0
                 && (after[a].jailed <==> store[a].jailed || a in jailed)
                 && after[a].(unbondingHeight := store[a].unbondingHeight, jailed := store[a].jailed) == store[a]
    ensures ResetValidators(ResetValidators(store, jailed), jailed) == ResetValidators(store, jailed)
  {
  }

  lemma SigningInfosSettled(store: map<Addr, SigningInfo>, after: map<Addr, SigningInfo>)
    ensures after == ResetSigningInfos(store) <==>
            && after.Keys == store.Keys
            && forall a <- store.Keys ::
                 after[a].startHeight == 0 && after[a].(startHeight := store[a].startHeight) == store[a]
    ensures ResetSigningInfos(ResetSigningInfos(store)) == ResetSigningInfos(store)
  {
    if after.Keys == store.Keys && forall a <- store.Keys ::
         after[a].startHeight == 0 && after[a].(startHeight := store[a].startHeight) == store[a]
    {
      forall a | a in store ensures after[a] == ResetSigningInfos(store)[a] {
      }
    }
  }
}
