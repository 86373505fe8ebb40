# Echofi: the authz limiter and the zero-height export

A Dafny model of the two places where Echofi decides something itself, with proofs.
`dafny verify dfyconfig.toml` checks all of it.

**The authz limiter and the ante route** (`app/ante`). A transaction is a list of messages; a
`MsgExec` holds a further list, so a transaction is a forest. `checkDisabledMsgs` walks it with a
level counter that is advanced *inside the loop over siblings*. The level of an inner list is
therefore not its depth: below the k-th `MsgExec` of a list entered at level L it is L + k.
The comment above the function (app/ante/authz.go:41-42) describes a limit on nesting. The code is
stricter: six empty `MsgExec`s side by side are rejected although nothing is nested
(`SiblingsUseUpLevels`). The code is what is modelled. For forests without such siblings the limit
is one on nesting (`NarrowAcceptedByDepth`); the exact condition for all forests is `AcceptedByNeed`.

- `Messages`, `AuthzLimiter`: the forest and the check, as the loop with recursion it is. The cap (7
  in the code) and the disabled types are parameters, and results hold for all of them.
- `AuthzAcceptance`: the check reports the first failure in pre-order; it accepts by a condition on
  paths; and that condition is one number, `Need`.
- `AuthzBounds`, `AuthzOrder`, `AuthzPruning`: consequences for size, work, sibling order and deletion.
- `AnteChain`, `AnteRouting`: chains of decorators, and the result of the router for every transaction.

**The export** (`app/export.go`). `prepForZeroHeightGenesis` rewrites the distribution, staking and
slashing stores in place, phase by phase; then the validators are sorted and cut.

- `KeyIteration`, `Staking`: iterators over stores that are written to on the way, and the staking
  and slashing records.
- `Coins`, `Purse`, `Periods`, `Distribution`: the distribution store - decimal coins of any
  denominations, the amounts kept for each validator, the F1 periods with their reference counts -
  and the keeper calls on it. These calls belong to cosmos-sdk, which is not part of this model;
  what is assumed of them is written there as functions. A failed commission withdrawal is assumed
  to leave the store alone.
- `ZeroHeightPhases`: the phases as functions on the store: conservation of coins, reference counts,
  and when the preparation gets through.
- `Payouts`, `FinalBooks`: what it pays, reckoned apart in plain amounts, and the books it leaves, in
  closed form.
- `AllowList`, `Application`: the jailing allow list; all stores of the application, what the whole
  preparation makes of them, and the outcomes of an export.
- `ZeroHeightExport`: the application as a class whose methods are the loops, each tied to its phase.
- `ValidatorExport`: the stable sort in place and the cut, and that the result is the only possible one
  and the strongest.

A panic, which ends the export, is the result `None` or `false`, or the outcome `Panic`; the state
after it is not described. An error that is returned is the outcome `Error`. `Libraries` and
`Keepers` hold the calls into code outside the repository as arbitrary functions, which may fail.

A point about the allow list: entries are compared, as they are spelt, with the canonical form of each
address (app/export.go:81, app/export.go:247), while any spelling that parses gets past the first
loop. BIP-173 has decoders take an address in upper case as well, and encoders write lower case. So a
list that names a validator in upper case, like `ECHOFIVALOPER1QQQQQQQQQQQQQQQQQQQQQQQQQQQQQQQQ3EMWKC`
for twenty zero bytes, does not protect it: it is jailed (`UpperCaseListFails`). `ListProtectsNamed`
says, for every list, when it protects all validators that it names.

## Model

| member | source | states |
|---|---|---|
| AuthzLimiter.AuthzLimiterDecorator.CheckDisabledMsgs | app/ante/authz.go:43-76 | the loop with recursion returns what `Check` says, makes `Invocations` calls, and terminates because the level of an inner call exceeds that of entry |
| AuthzLimiter.AuthzLimiterDecorator.IsDisabledMsg | app/ante/authz.go:80-88 | true exactly for the listed type URLs |
| AuthzLimiter.ScanConcat | app/ante/authz.go:47-75 | a list cut in two: the outcome (with its error) and the number of calls are those of the first part, then of the second at the level the first has used up |
| AuthzLimiter.CheckConcat | app/ante/authz.go:43-57 | the same for the whole check, error included; success on the first part leaves the shifted level below the cap |
| AuthzAcceptance.CheckIsFirstFailure | app/ante/authz.go:43-76 | the result, including which error, is the first failure in the pre-order listing of nodes looked at one by one |
| AuthzAcceptance.ListingOrdered | app/ante/authz.go:47-57 | the listing is strictly increasing in the lexicographic order of positions, so it is a pre-order with each node once |
| AuthzAcceptance.ListedOnlyNodes | app/ante/authz.go:47-57 | every listed visit is a node of the forest, with entry level plus path weight as its level |
| AuthzAcceptance.ListedEveryNode | app/ante/authz.go:47-57 | every node of the forest is listed |
| AuthzAcceptance.AcceptedByPaths | app/ante/authz.go:43-76 | accepted if and only if L < M, all payloads decode, no grant names a disabled type, no inner leaf is disabled, and at every MsgExec L plus the sum of ranks along its path is at most M-1 |
| AuthzAcceptance.RejectedByFirstWrong | app/ante/authz.go:43-76 | a rejection names the node: its error is the one called for by the first node, in the order of positions, that has anything wrong with it, and all nodes before it are in order |
| AuthzAcceptance.AcceptedByNeed | app/ante/authz.go:43-76 | accepted if and only if the forest is clean, which ignores levels and order, and L + Need <= M-1 |
| AuthzAcceptance.NeedBoundsWeights | app/ante/authz.go:54-55 | Need bounds the path weight of every MsgExec |
| AuthzAcceptance.NeedAttained | app/ante/authz.go:54-55 | some MsgExec has path weight exactly Need |
| AuthzAcceptance.NeedByRank | app/ante/authz.go:47-57 | the k-th MsgExec of a list forces Need to be at least k plus the need of its inner list |
| AuthzAcceptance.NeedByRankAttained | app/ante/authz.go:47-57 | and one MsgExec of the list attains it |
| AuthzBounds.TotalExecsCountsNodes | app/ante/authz.go:47-57 | TotalExecs is the number of MsgExec nodes in the listing |
| AuthzBounds.AcceptedSize | app/ante/authz.go:44-57 | an accepted forest has at most 2^(M-1-L) - 1 MsgExecs, at most M-1-L in its outer list, nested at most M-1-L deep |
| AuthzBounds.AcceptedTxSize | app/ante/authz.go:13-30 | for a transaction with the cap of the code: 31 MsgExecs, 5 deep |
| AuthzBounds.AtMostPow2AtWeight | app/ante/authz.go:47-57 | at most 2^(w-1) MsgExecs of any forest lie at path weight w |
| AuthzBounds.BoundsAttained | app/ante/authz.go:44-57 | for every level below every cap one binomial forest is accepted and attains the size, depth and weight bounds together |
| AuthzBounds.InstalledBoundsAttained | app/ante/authz.go:13-57 | under the cap of the code, whatever is disabled, 31 MsgExecs, 5 side by side and 5 deep, are accepted |
| AuthzBounds.NarrowAcceptedByDepth | app/ante/authz.go:36-46 | if no list holds two MsgExecs, a clean forest is accepted if and only if its nesting depth fits below the cap |
| AuthzBounds.SiblingsUseUpLevels | app/ante/authz.go:36-57 | n empty MsgExecs side by side, of depth at most one, are accepted if and only if L + n <= M-1: the described limit on nesting is not what the code has |
| AuthzBounds.WorkBound | app/ante/authz.go:43-57 | any forest, accepted or not, costs at most 2^(M-1-L) + 1 invocations, an accepted one exactly one per MsgExec plus one |
| AuthzBounds.WorkBoundAttained | app/ante/authz.go:43-57 | the work bound is attained, by a rejected forest |
| AuthzOrder.HeavyFirstIsLeast | app/ante/authz.go:47-57 | no permutation of a list needs fewer levels than one with its MsgExecs by non-increasing need |
| AuthzOrder.BestSiblingOrder | app/ante/authz.go:47-57 | if any order of the messages is accepted, every heaviest-first order is, and a computed one is such an order |
| AuthzOrder.BestDeepOrder | app/ante/authz.go:47-57 | if any reordering of a forest, at any depths, is accepted, the one with its MsgExecs heaviest first at every depth is, and that is a reordering |
| AuthzOrder.DeepOrderNeedsLeast | app/ante/authz.go:47-57 | no reordering at any depths needs fewer levels than that one |
| AuthzOrder.OrderMatters | app/ante/authz.go:47-57 | at every level L <= M-3 two MsgExecs accepted in one order and rejected in the other |
| AuthzOrder.OrderIrrelevantNearCap | app/ante/authz.go:47-57 | at the levels above, all orders of a list are accepted or none |
| AuthzPruning.AcceptanceMonotone | app/ante/authz.go:43-88 | acceptance survives deleting messages at any depths, more room below the cap, fewer disabled types and a weaker inner flag, all at once |
| AuthzPruning.AcceptedShapes | app/ante/authz.go:43-76 | accepted if and only if clean and the MsgExecs form a pruning of the binomial forest of order M-1-L |
| AnteChain.ChainIsRun | app/ante/handler_options.go:75-98 | for decorators that call next at most once, whatever they do with its result: the chain is a left-to-right run with early exit, each decorator called with what the one before handed on, unwound through what they make of the result |
| AnteChain.RunDecidesChain | app/ante/handler_options.go:75-98 | conversely any such run, unwound, gives the result of the chain |
| AnteChain.SuccessMeansAllRan | app/ante/handler_options.go:75-98 | if in the run nobody turns an error into success and whoever stops does so with an error, success means that every decorator ran |
| AnteChain.ReportingRun | app/ante/handler_options.go:75-98 | that is so in every run of decorators that hide no errors |
| AnteChain.RefusalRejects | app/ante/handler_options.go:75-98 | among decorators that hide no errors, one that always refuses makes the whole chain refuse |
| AnteChain.LimiterForwardsUnchanged | app/ante/authz.go:29-34 | the limiter hands on context, transaction and simulate flag unchanged, and the result of next with them, exactly when it accepts; otherwise it stops with the same context and an unauthorized error |
| AnteRouting.CosmosHandlerFilters | app/ante/handler_options.go:75-98 | the Cosmos chain reaches its other decorators, with nothing changed, exactly for transactions whose messages are in order; it rejects the others with the context unchanged and the error of an outermost MsgEthereumTx, or else of the first wrong node |
| AnteRouting.CosmosMessagesOkByLimiter | app/ante/handler_options.go:76-82 | what the first two decorators let through, with the constants of the code: at most five levels needed, all payloads decode, no MsgEthereumTx or grant for one anywhere, MsgCreateVestingAccount outermost only and no grant for it, and nothing else is refused |
| AnteRouting.RouterResult | app/ante/ante.go:15-53 | the whole result, context and error, of every transaction: of the decorator of the Ethereum route, of the chain of the other decorators on the Cosmos route, or the error for a missing transaction, an unsupported first option or messages not in order |
| AnteRouting.AcceptedByRoute | app/ante/ante.go:15-53 | accepted if and only if accepted by the decorator of the Ethereum route, or a Cosmos transaction with no or the dynamic-fee option first, messages in order, and accepted by the other decorators |
| AnteRouting.CosmosTxRunsStandardDecorators | app/ante/handler_options.go:75-98 | accepted or not, a Cosmos transaction with its messages in order gets the unwound run of the fourteen other decorators, listed by name, that starts from the call as made, if these call next at most once |
| AnteRouting.AcceptedRunsStandardDecorators | app/ante/handler_options.go:83-97 | an accepted one has passed each of the fourteen by name and in order, each called with what the one before handed on, if these hide no errors |
| AnteRouting.AnyRefusalRejects | app/ante/handler_options.go:83-97 | then if any one of the fourteen, by name, always refuses, no Cosmos transaction is accepted |
| AnteRouting.EthereumMessagesNeedEthereumRoute | app/ante/handler_options.go:76-81 | an accepted transaction with a MsgEthereumTx at any position, or a grant naming it, has the Ethereum option first |
| AnteRouting.VestingOnlyOutermost | app/ante/handler_options.go:78-81 | on the Cosmos route MsgCreateVestingAccount is accepted only at top level, and no grant for it |
| AnteRouting.AcceptedCosmosTxSize | app/ante/ante.go:29-51 | on the Cosmos route an accepted transaction holds at most 31 MsgExecs, 5 deep |
| ValidatorExport.SortStable | app/export.go:50-52 | the array is sorted by descending power in place, validators of equal power keeping their order |
| ValidatorExport.SortAndTrim | app/export.go:50-57 | the kept list is the exported one for the array as it was, as long as the smaller of array and maximum, made of its validators, strongest first; a panic exactly when the maximum is negative |
| ValidatorExport.StableSortPermutes | app/export.go:50-52 | a stable sort is a permutation |
| ValidatorExport.StableSortUnique | app/export.go:50-52 | two stable sorts of one list are equal |
| ValidatorExport.ExportUnique | app/export.go:50-57 | the exported list is determined by the validators and their store order |
| ValidatorExport.ExportSize | app/export.go:53-57 | as many validators are exported as there are, at most the maximum, none of them invented, strongest first |
| ValidatorExport.NoStrongerDropped | app/export.go:50-57 | no dropped validator is stronger than a kept one, and of equally strong ones the first in store order are kept |
| ValidatorExport.ExportIsStrongest | app/export.go:50-57 | the kept validators have the largest total power of all selections of at most the maximum |
| Periods.EndPeriodWorks | app/export.go:118-188 | from right reference counts, ending a period succeeds, keeps them right and leaves the ended period with one reference |
| Periods.RestartWorks | app/export.go:107-122 | what a reward withdrawal does to the periods succeeds for a tracked delegation and keeps every count right |
| Periods.StartWorks | app/export.go:179-194 | what the two delegation hooks do succeeds for an untracked delegation, tracks it and keeps every count right |
| Periods.RefSumCountsTrackers | app/export.go:124-194 | with right counts and no slash events, a validator's counts below period n sum to the delegations that start below n, plus one once its period is at most n |
| Purse.PayCommissionWorks | app/export.go:86-100 | if outstanding rewards cover commission and current rewards, paying commission succeeds and they still do |
| Purse.RewardsPaid | app/export.go:118-121 | a reward payment takes what is due, at most what is outstanding, pays its whole coins and puts less than one coin per denomination into the pool |
| Purse.DonateThenForgetConserves | app/export.go:156-171 | resetting a validator after donating its outstanding rewards loses nothing in any denomination |
| Distribution.WithdrawRewardsWorks | app/export.go:107-122 | from counts and amounts in balance, withdrawing a tracked delegation's rewards succeeds and keeps the balance |
| Distribution.ReinitDelegationWorks | app/export.go:179-194 | the two delegation hooks succeed, keep the balance and track one more delegation |
| ZeroHeightPhases.PreparationConserves | app/export.go:84-194 | in every denomination pool + outstanding + paid is unchanged from start to end and records of other validators are untouched; all validators end drained, with the scraps left by the withdrawals exactly in the pool |
| Payouts.PreparationPays | app/export.go:84-194 | what the whole preparation pays in each denomination, reckoned in plain amounts: the whole coins of every commission that can be sent, then for delegation after delegation those of its rewards or of what is still outstanding, current rewards of a validator without tokens being gone; all the rest of what was outstanding goes to the pool |
| ZeroHeightPhases.ReinitConserves | app/export.go:124-194 | the same for the second half alone, which pays nothing out |
| ZeroHeightPhases.AllCommissionEffect | app/export.go:86-100 | after the first phase every validator's whole coins of commission are paid out of its outstanding rewards and fractions left; those with none or a failed payment are unchanged |
| ZeroHeightPhases.ReinitAllValidatorsEffect | app/export.go:149-176 | every validator ends drained in period 1 with one reference to period 0, no other reference is added and nothing is paid |
| ZeroHeightPhases.ReinitAllDelegationsHeights | app/export.go:178-194 | exactly the listed delegations get a new starting record, with the height of the context |
| ZeroHeightPhases.ReinitBalances | app/export.go:124-194 | whatever the books before, at the end each historical record counts exactly the delegations that start there plus the last ended period, no slash event is left and all start at height 0 |
| ZeroHeightPhases.PreparationCounts | app/export.go:124-194 | each validator's reference counts sum to one plus its number of delegations, with none from its current period on |
| ZeroHeightPhases.PreparationStarts | app/export.go:132-194 | every delegation starts at height 0 from a period that is live |
| FinalBooks.PreparationBooks | app/export.go:124-194 | whatever the books before, at the end they are in closed form: a validator is in period one plus its number of delegations, each of these starts at height 0 from the next period in turn, every reference count is given, nobody else has any, and starting records of other delegations are untouched |
| ZeroHeightPhases.RewardsGetThrough | app/export.go:107-122 | withdrawals that get through were for validators on record and with coins that could be sent |
| ZeroHeightPhases.PreparationCompletes | app/export.go:86-194 | from books in order all phases get through, whichever commission payments fail, if and only if the rewards of every delegation can be sent |
| Staking.RedelegationsSettled | app/export.go:201-213 | the pass over redelegations is characterised record by record: only creation heights become zero; twice is once |
| Staking.UnbondingsSettled | app/export.go:215-227 | the same for unbonding delegations |
| Staking.ValidatorsSettled | app/export.go:231-257 | the validator pass record by record: unbonding height zero, jailed if before or now, all else untouched; twice is once |
| Staking.SigningInfosSettled | app/export.go:266-279 | the pass over signing infos record by record: only start heights become zero; twice is once |
| KeyIteration.Start | app/export.go:231-239 | a new iterator stands at the first key of the store in its direction |
| KeyIteration.Advance | app/export.go:239-256 | a step over a store whose keys are those of the start moves to the next key, so that none is missed or repeated |
| ZeroHeightExport.EchofiApp.WithdrawCommissions | app/export.go:86-100 | the loop in key order is the commission phase over the operators' addresses; for one that does not parse the empty address is tried |
| ZeroHeightExport.EchofiApp.WithdrawDelegatorRewards | app/export.go:102-122 | the loop over delegation records is the reward phase; one that does not parse is a panic |
| ZeroHeightExport.EchofiApp.ReinitializeValidators | app/export.go:149-176 | the loop in key order donates and re-initialises as the phase says; a panic exactly when some operator does not parse |
| ZeroHeightExport.EchofiApp.ReinitializeDelegations | app/export.go:178-194 | the loop over the two hooks is the phase; a record that does not parse is a panic |
| ZeroHeightExport.EchofiApp.PrepareDistribution | app/export.go:84-194 | the phases in the code's order, with the height of the context set to zero for the hooks only; what they pay and leave is `PreparationPays` and `PreparationBooks` |
| ZeroHeightExport.EchofiApp.ResetRedelegationHeights | app/export.go:201-213 | iterating in key order over the store it writes to, the pass visits every key exactly once and resets exactly the redelegation store |
| ZeroHeightExport.EchofiApp.ResetUnbondingHeights | app/export.go:215-227 | the same for unbonding delegations |
| ZeroHeightExport.EchofiApp.ResetAndJailValidators | app/export.go:229-257 | iterating backwards over the store it writes to, the pass visits every key exactly once and resets and jails as listed |
| ZeroHeightExport.EchofiApp.ResetStartHeights | app/export.go:266-279 | likewise for signing infos: start heights become zero, all else as before |
| ZeroHeightExport.EchofiApp.ParseAllowList | app/export.go:74-82 | a panic exactly when an entry is malformed, else the set of entries as spelt |
| Application.OperatorsAreKeys | app/export.go:88-92 | with records stored under their own keys the operators' addresses are the keys, so the phases go over all validators in key order |
| Application.OperatorsOneByOne | app/export.go:88-93 | one address is tried for each validator in key order, the empty one where its operator does not parse |
| Application.DecodedInOrder | app/export.go:103-116 | all delegation records decode, in order, to the addresses they spell, or one of them does not parse |
| Application.PassesIdempotent | app/export.go:201-279 | the four passes that reset heights and jail, run together twice, do what they do once |
| Application.PassesCommute | app/export.go:201-279 | they touch no other store, do not depend on the order of staking and slashing, and leave records under their own keys |
| Application.PreparedSound | app/export.go:70-280 | the whole preparation from any stores keyed by their own fields: coins conserved in every denomination, all validators drained, counts exact, no slash events, all starting heights zero |
| Application.PreparedPays | app/export.go:84-194 | the preparation of the application pays exactly what is due and puts the rest into the pool |
| Application.PreparedBooks | app/export.go:124-194 | and leaves the books in the closed form above |
| Application.PreparedStaking | app/export.go:196-279 | the staking and slashing stores field by field: redelegations and unbondings differ in creation heights only; the validator set is recomputed from all validators with unbonding height zero, jailed if before or if there is a list without their address, else as they were; signing infos differ from what that gives in start heights only |
| Application.PreparedWhenInOrder | app/export.go:70-280 | with distribution books in order it gets through if and only if list and records parse, all rewards can be sent and the validator set can be recomputed from the validators jailed as listed |
| ZeroHeightExport.EchofiApp.PrepForZeroHeightGenesis | app/export.go:70-280 | it gets through exactly when `Prepared` does, and leaves every store as that says; what that is, field by field, is `PreparedPays`, `PreparedBooks` and `PreparedStaking` |
| ZeroHeightExport.EchofiApp.ExportAppStateAndValidators | app/export.go:20-65 | without the zero-height flag nothing is changed; with it the stores end as prepared, or there is a panic; an error only if one of the three calls fails, a panic then only for a negative maximum; else the height, 0 or the last plus one, the state of those stores, and of their validators as many as there are up to the maximum, strongest first |
| ZeroHeightExport.EchofiApp.ExportStores | app/export.go:36-64 | each of the three calls that can fail ends in an error; a negative maximum in a panic; otherwise the exported validators are those of the stores |
| Application.OutcomeUnique | app/export.go:36-64 | the stores determine the outcome |
| AllowList.ListProtectsNamed | app/export.go:72-82 | any list protects every validator it names if and only if, for each entry that is a validator's address, the canonical spelling is an entry too |
| AllowList.UpperCaseEntryJailed | app/export.go:247-249 | under BIP-173 a validator listed in upper case and not in lower case is named and jailed |
| AllowList.UpperCaseListFails | app/export.go:74-82 | the input: the list of one validator's address in upper case parses, names it and gets it jailed |
| AllowList.SomeCodecIsBech32 | app/export.go:74-82 | what is assumed of the parser and of String for this can be met |

## Left out

- Keepers, store keys, modules and their wiring (`app/app.go`, `app/keepers`, `app/module.go`): calls into libraries and fixed lists.
- `SigVerificationGasConsumer`, `EVMAppOptions`, `BlockedModuleAccountAddrs`, `InitChainer`, `HandlerOptions.Validate`: short, with only easy properties.
- What the library decorators do: they are arbitrary; only RejectMessagesDecorator is modelled, as rejecting top-level MsgEthereumTx.
- The chain of no decorators, for which the library returns no handler: it does not occur.
- Who receives a payment: the withdraw addresses are in cosmos-sdk; only the sums paid are kept.
- Recomputing the validator set after jailing (app/export.go:259): an arbitrary function, so nothing is claimed about validators after it; start heights are reset after it whatever it does.
- What is inside the exported genesis and its JSON, and the validators written from the staking store: arbitrary functions that may fail.
- Consensus parameters of the exported application, the checksum of bech32, and gas: not modelled.
- The amounts F1 computes (ratios, stakes, slashing over time): arbitrary rewards; the stake kept in a starting record and the ratio kept in a historical record are not modelled.
- SortStable: sorts by insertion, while the library mixes insertion and merging; by StableSortUnique the result is the same.
- The unused counter of the validator pass (app/export.go:234, app/export.go:255).
- Command line, docker, scripts and interchain test helpers.
