// How a transaction is routed, and what can be accepted on which route.
module AnteRouting {
  import opened AnteChain
  import opened Common
  import opened Messages
  import Acceptance = AuthzAcceptance
  import Bounds = AuthzBounds
  import Limiter = AuthzLimiter

  const MSG_ETHEREUM_TX := "/cosmos.evm.vm.v1.MsgEthereumTx"
  const MSG_CREATE_VESTING_ACCOUNT := "/cosmos.vesting.v1beta1.MsgCreateVestingAccount"
  const ETHEREUM_TX_OPTION := "/cosmos.evm.vm.v1.ExtensionOptionsEthereumTx"
  const DYNAMIC_FEE_OPTION := "/cosmos.evm.types.v1.ExtensionOptionDynamicFeeTx"

  /** The decorators of the libraries; nothing is assumed about what they do. */
  datatype HandlerOptions<!C> = HandlerOptions(
    evmMono: AnteDecorator<C>,
    setUpContext: AnteDecorator<C>,
    extensionOptions: AnteDecorator<C>,
    validateBasic: AnteDecorator<C>,
    txTimeoutHeight: AnteDecorator<C>,
    validateMemo: AnteDecorator<C>,
    consumeGasForTxSize: AnteDecorator<C>,
    deductFee: AnteDecorator<C>,
    setPubKey: AnteDecorator<C>,
    validateSigCount: AnteDecorator<C>,
    sigGasConsume: AnteDecorator<C>,
    sigVerification: AnteDecorator<C>,
    incrementSequence: AnteDecorator<C>,
    redundantRelay: AnteDecorator<C>,
    gasWanted: AnteDecorator<C>)

  /** RejectMessagesDecorator of cosmos/evm: no MsgEthereumTx among the outermost messages. */
  function RejectMessages<C>(): AnteDecorator<C> {
    (ctx: C, tx: Tx, simulate: bool, next: AnteHandler<C>) =>
      if Other(MSG_ETHEREUM_TX) in tx.GetMsgs() then AnteResult(ctx, Some(InvalidType(MSG_ETHEREUM_TX)))
      else next(ctx, tx, simulate)
  }

  function CosmosLimiter(): Limiter.AuthzLimiterDecorator {
    Limiter.NewAuthzLimiterDecorator([MSG_ETHEREUM_TX, MSG_CREATE_VESTING_ACCOUNT])
  }

  function NewEthAnteHandler<C>(options: HandlerOptions<C>): AnteHandler<C> {
    Chain([options.evmMono])
  }

  /** The decorators after the two that look at messages. */
  function StandardDecorators<C>(options: HandlerOptions<C>): seq<AnteDecorator<C>> {
    [options.setUpContext, options.extensionOptions, options.validateBasic, options.txTimeoutHeight,
     options.validateMemo, options.consumeGasForTxSize, options.deductFee, options.setPubKey,
     options.validateSigCount, options.sigGasConsume, options.sigVerification, options.incrementSequence,
     options.redundantRelay, options.gasWanted]
  }

  function NewCosmosAnteHandler<C>(options: HandlerOptions<C>): AnteHandler<C> {
    Chain([RejectMessages(), LimiterAnteHandle(CosmosLimiter())] + StandardDecorators(options))
  }

  function NewAnteHandler<C>(options: HandlerOptions<C>): AnteHandler<C> {
    (ctx: C, tx: Tx, simulate: bool) =>
      if tx.ExtensionTx? && |tx.options| > 0 then
        if tx.options[0] == ETHEREUM_TX_OPTION then NewEthAnteHandler(options)(ctx, tx, simulate)
        else if tx.options[0] == DYNAMIC_FEE_OPTION then NewCosmosAnteHandler(options)(ctx, tx, simulate)
        else AnteResult(ctx, Some(UnknownExtensionOptions(tx.options[0])))
      else if tx.NilTx? then AnteResult(ctx, Some(UnknownRequest))
      else NewCosmosAnteHandler(options)(ctx, tx, simulate)
  }

  /** The transaction asks for the Ethereum route. */
  predicate EthereumRoute(tx: Tx) {
    tx.ExtensionTx? && |tx.options| > 0 && tx.options[0] == ETHEREUM_TX_OPTION
  }

  /** A message that the Cosmos route lets through where it stands. */
  predicate CosmosMsgOk(msg: Msg, inner: bool) {
    match msg
    case Exec(_) => true
    case ExecUndecodable(_) => false
    case GrantUndecodable(_) => false
    case Grant(url) => url != MSG_ETHEREUM_TX && url != MSG_CREATE_VESTING_ACCOUNT
    case Other(url) => url != MSG_ETHEREUM_TX && (inner ==> url != MSG_CREATE_VESTING_ACCOUNT)
  }

  /** The messages that the Cosmos route lets through: each is in order, and together they need
      at most five levels. */
  ghost predicate CosmosMessagesOk(msgs: seq<Msg>) {
    Need(msgs) <= 5 && forall p | ValidPath(msgs, p) :: CosmosMsgOk(At(msgs, p), |p| > 1)
  }

  /** One message as the two decorators see it. */
  lemma CosmosMsgOkByLimiter(msg: Msg, level: int, inner: bool)
    ensures CosmosMsgOk(msg, inner) && (msg.Exec? ==> level <= 6) <==>
            Acceptance.NodeOk(CosmosLimiter(), msg, level, inner) && (inner || msg != Other(MSG_ETHEREUM_TX))
  {
    var lim := CosmosLimiter();
    assert lim.disabledMsgTypes[0] == MSG_ETHEREUM_TX && lim.disabledMsgTypes[1] == MSG_CREATE_VESTING_ACCOUNT;
    assert forall url :: url in lim.disabledMsgTypes <==> url == MSG_ETHEREUM_TX || url == MSG_CREATE_VESTING_ACCOUNT;
  }

  lemma AcceptedByBoth(msgs: seq<Msg>)
    requires Other(MSG_ETHEREUM_TX) !in msgs && Limiter.Accepts(CosmosLimiter(), msgs, false, 1)
    ensures CosmosMessagesOk(msgs)
  {
    Acceptance.AcceptedByNeed(CosmosLimiter(), msgs, false, 1);
    Acceptance.AcceptedByPaths(CosmosLimiter(), msgs, false, 1);
    forall p | ValidPath(msgs, p) ensures CosmosMsgOk(At(msgs, p), |p| > 1) {
      CosmosMsgOkByLimiter(At(msgs, p), 1 + PathWeight(msgs, p), |p| > 1);
      assert |p| == 1 ==> At(msgs, p) == msgs[p[0]];
    }
  }

  lemma NoOutermostEthereum(msgs: seq<Msg>)
    requires CosmosMessagesOk(msgs)
    ensures Other(MSG_ETHEREUM_TX) !in msgs
  {
    forall i | 0 <= i < |msgs| ensures msgs[i] != Other(MSG_ETHEREUM_TX) {
      var p: seq<nat> := [i];
      assert ValidPath(msgs, p) && At(msgs, p) == msgs[i];
    }
  }

  lemma OkAcceptedByBoth(msgs: seq<Msg>)
    requires CosmosMessagesOk(msgs)
    ensures Other(MSG_ETHEREUM_TX) !in msgs && Limiter.Accepts(CosmosLimiter(), msgs, false, 1)
  {
    NoOutermostEthereum(msgs);
    forall p | ValidPath(msgs, p)
      ensures Acceptance.NodeOk(CosmosLimiter(), At(msgs, p), 1 + PathWeight(msgs, p), |p| > 1)
    {
      CosmosMsgOkByLimiter(At(msgs, p), 1 + PathWeight(msgs, p), |p| > 1);
      if At(msgs, p).Exec? {
        Acceptance.NeedBoundsWeights(msgs, p);
      }
    }
    Acceptance.AcceptedByPaths(CosmosLimiter(), msgs, false, 1);
  }

  /** They are what the first two decorators of the chain let through. */
  lemma CosmosMessagesOkByLimiter(msgs: seq<Msg>)
    ensures CosmosMessagesOk(msgs) <==>
            Other(MSG_ETHEREUM_TX) !in msgs && Limiter.Accepts(CosmosLimiter(), msgs, false, 1)
  {
    if CosmosMessagesOk(msgs) {
      OkAcceptedByBoth(msgs);
    } else if Other(MSG_ETHEREUM_TX) !in msgs && Limiter.Accepts(CosmosLimiter(), msgs, false, 1) {
      AcceptedByBoth(msgs);
    }
  }

  lemma CosmosHandlerUnfolds<C>(options: HandlerOptions<C>, ctx: C, tx: Tx, simulate: bool)
    ensures NewCosmosAnteHandler(options)(ctx, tx, simulate) ==
            if Other(MSG_ETHEREUM_TX) in tx.GetMsgs() then AnteResult(ctx, Some(InvalidType(MSG_ETHEREUM_TX)))
            else LimiterAnteHandle(CosmosLimiter())(ctx, tx, simulate, Chain(StandardDecorators(options)))
  {
    var limiter := LimiterAnteHandle(CosmosLimiter());
    var standard := StandardDecorators(options);
    assert [RejectMessages(), limiter] + standard == [RejectMessages()] + ([limiter] + standard);
    ChainUnfolds(RejectMessages(), [limiter] + standard, ctx, tx, simulate);
    ChainUnfolds(limiter, standard, ctx, tx, simulate);
  }

  /** The result is a rejection of these messages: for an outermost MsgEthereumTx, or else for
      the first node that has anything wrong with it. */
  ghost predicate RejectsMessages<C>(r: AnteResult<C>, ctx: C, msgs: seq<Msg>) {
    && r.newCtx == ctx && r.err.Some?
    && if Other(MSG_ETHEREUM_TX) in msgs then r.err.value == InvalidType(MSG_ETHEREUM_TX)
       else
         && r.err.value.Unauthorized?
         && exists p :: Acceptance.FirstWrong(CosmosLimiter(), msgs, false, 1, p, r.err.value.cause)
  }

  /** The Cosmos chain reaches its standard decorators, with nothing changed, exactly for the
      transactions whose messages are in order; the others it rejects itself. */
  lemma CosmosHandlerFilters<C>(options: HandlerOptions<C>, ctx: C, tx: Tx, simulate: bool)
    ensures CosmosMessagesOk(tx.GetMsgs()) ==>
              NewCosmosAnteHandler(options)(ctx, tx, simulate) == Chain(StandardDecorators(options))(ctx, tx, simulate)
    ensures !CosmosMessagesOk(tx.GetMsgs()) ==>
              RejectsMessages(NewCosmosAnteHandler(options)(ctx, tx, simulate), ctx, tx.GetMsgs())
  {
    var msgs := tx.GetMsgs();
    CosmosHandlerUnfolds(options, ctx, tx, simulate);
    CosmosMessagesOkByLimiter(msgs);
    if Other(MSG_ETHEREUM_TX) !in msgs && !CosmosMessagesOk(msgs) {
      var p := Acceptance.RejectedByFirstWrong(CosmosLimiter(), msgs, false, 1);
    }
  }

  lemma CosmosMessagesHoldNoEthereum(msgs: seq<Msg>, p: seq<nat>)
    requires CosmosMessagesOk(msgs) && ValidPath(msgs, p)
    ensures At(msgs, p) !in {Other(MSG_ETHEREUM_TX), Grant(MSG_ETHEREUM_TX)}
  {
    assert CosmosMsgOk(At(msgs, p), |p| > 1);
  }

  /** The whole result, context and error, for every transaction. */
  lemma RouterResult<C>(options: HandlerOptions<C>, ctx: C, tx: Tx, simulate: bool)
    ensures var r := NewAnteHandler(options)(ctx, tx, simulate);
            if tx.NilTx? then r == AnteResult(ctx, Some(UnknownRequest))
            else if tx.ExtensionTx? && |tx.options| > 0 && tx.options[0] == ETHEREUM_TX_OPTION then
              r == options.evmMono(ctx, tx, simulate, Terminal())
            else if tx.ExtensionTx? && |tx.options| > 0 && tx.options[0] != DYNAMIC_FEE_OPTION then
              r == AnteResult(ctx, Some(UnknownExtensionOptions(tx.options[0])))
            else if !CosmosMessagesOk(tx.msgs) then RejectsMessages(r, ctx, tx.msgs)
            else r == Chain(StandardDecorators(options))(ctx, tx, simulate)
  {
    CosmosHandlerFilters(options, ctx, tx, simulate);
    assert [options.evmMono] + [] == [options.evmMono];
    ChainUnfolds(options.evmMono, [], ctx, tx, simulate);
    DifferentOptions();
  }

  /** A transaction is accepted when the Ethereum decorator accepts it on the Ethereum route, or
      when it is a Cosmos transaction whose first extension option, if any, is the dynamic-fee
      one, whose messages are in order, and which the standard decorators accept. */
  lemma AcceptedByRoute<C>(options: HandlerOptions<C>, ctx: C, tx: Tx, simulate: bool)
    ensures NewAnteHandler(options)(ctx, tx, simulate).err == None <==>
            if EthereumRoute(tx) then options.evmMono(ctx, tx, simulate, Terminal()).err == None
            else
              && !tx.NilTx?
              && (tx.ExtensionTx? && |tx.options| > 0 ==> tx.options[0] == DYNAMIC_FEE_OPTION)
              && CosmosMessagesOk(tx.GetMsgs())
              && Chain(StandardDecorators(options))(ctx, tx, simulate).err == None
  {
    RouterResult(options, ctx, tx, simulate);
  }

  lemma DifferentOptions()
    ensures ETHEREUM_TX_OPTION != DYNAMIC_FEE_OPTION
  {
  }

  /** The transaction is one, and takes the Cosmos route. */
  predicate CosmosRoute(tx: Tx) {
    !tx.NilTx? && (tx.ExtensionTx? && |tx.options| > 0 ==> tx.options[0] == DYNAMIC_FEE_OPTION)
  }

  /** Accepted or not, a transaction with its messages in order gets on the Cosmos route the
      result of a run of these fourteen decorators, starting from the call the application made. */
  lemma CosmosTxRunsStandardDecorators<C(!new)>(options: HandlerOptions<C>, c: Call<C>)
    returns (calls: seq<Call<C>>, posts: seq<Post<C>>, last: AnteResult<C>)
    requires CosmosMessagesOk(c.tx.GetMsgs())
    requires forall d <- StandardDecorators(options) :: CallsNextAtMostOnce(d)
    ensures IsRun([options.setUpContext, options.extensionOptions, options.validateBasic, options.txTimeoutHeight,
                   options.validateMemo, options.consumeGasForTxSize, options.deductFee, options.setPubKey,
                   options.validateSigCount, options.sigGasConsume, options.sigVerification,
                   options.incrementSequence, options.redundantRelay, options.gasWanted], calls, posts, last)
    ensures calls[0] == c && NewCosmosAnteHandler(options)(c.ctx, c.tx, c.simulate) == Unwind(posts, last)
    ensures CosmosRoute(c.tx) ==> NewAnteHandler(options)(c.ctx, c.tx, c.simulate) == Unwind(posts, last)
  {
    DifferentOptions();
    CosmosHandlerFilters(options, c.ctx, c.tx, c.simulate);
    RouterResult(options, c.ctx, c.tx, c.simulate);
    calls, posts, last := ChainIsRun(StandardDecorators(options), c);
  }

  /** Each decorator has called next, and with what it handed on the following one was called. */
  ghost predicate PassedAll<C(!new)>(options: HandlerOptions<C>, calls: seq<Call<C>>, posts: seq<Post<C>>) {
    && |calls| == 15 && |posts| == 14
    && CallsNext(options.setUpContext, calls[0], calls[1], posts[0])
    && CallsNext(options.extensionOptions, calls[1], calls[2], posts[1])
    && CallsNext(options.validateBasic, calls[2], calls[3], posts[2])
    && CallsNext(options.txTimeoutHeight, calls[3], calls[4], posts[3])
    && CallsNext(options.validateMemo, calls[4], calls[5], posts[4])
    && CallsNext(options.consumeGasForTxSize, calls[5], calls[6], posts[5])
    && CallsNext(options.deductFee, calls[6], calls[7], posts[6])
    && CallsNext(options.setPubKey, calls[7], calls[8], posts[7])
    && CallsNext(options.validateSigCount, calls[8], calls[9], posts[8])
    && CallsNext(options.sigGasConsume, calls[9], calls[10], posts[9])
    && CallsNext(options.sigVerification, calls[10], calls[11], posts[10])
    && CallsNext(options.incrementSequence, calls[11], calls[12], posts[11])
    && CallsNext(options.redundantRelay, calls[12], calls[13], posts[12])
    && CallsNext(options.gasWanted, calls[13], calls[14], posts[13])
  }

  lemma FullRunPassedAll<C(!new)>(options: HandlerOptions<C>, calls: seq<Call<C>>, posts: seq<Post<C>>,
                                  last: AnteResult<C>)
    requires IsRun(StandardDecorators(options), calls, posts, last) && |calls| == 15
    ensures PassedAll(options, calls, posts) && last == AnteResult(calls[14].ctx, None)
  {
    var ds := StandardDecorators(options);
    assert |ds| == 14;
    assert CallsNext(ds[0], calls[0], calls[1], posts[0]) && CallsNext(ds[1], calls[1], calls[2], posts[1]);
    assert CallsNext(ds[2], calls[2], calls[3], posts[2]) && CallsNext(ds[3], calls[3], calls[4], posts[3]);
    assert CallsNext(ds[4], calls[4], calls[5], posts[4]) && CallsNext(ds[5], calls[5], calls[6], posts[5]);
    assert CallsNext(ds[6], calls[6], calls[7], posts[6]) && CallsNext(ds[7], calls[7], calls[8], posts[7]);
    assert CallsNext(ds[8], calls[8], calls[9], posts[8]) && CallsNext(ds[9], calls[9], calls[10], posts[9]);
    assert CallsNext(ds[10], calls[10], calls[11], posts[10]) && CallsNext(ds[11], calls[11], calls[12], posts[11]);
    assert CallsNext(ds[12], calls[12], calls[13], posts[12]) && CallsNext(ds[13], calls[13], calls[14], posts[13]);
  }

  /** When none of them hides an error, an accepted Cosmos transaction has passed them all. */
  lemma AcceptedRunsStandardDecorators<C(!new)>(options: HandlerOptions<C>, c: Call<C>)
    returns (calls: seq<Call<C>>, posts: seq<Post<C>>)
    requires !EthereumRoute(c.tx) && NewAnteHandler(options)(c.ctx, c.tx, c.simulate).err == None
    requires forall d <- StandardDecorators(options) :: CallsNextAtMostOnce(d) && ReportsErrors(d)
    ensures PassedAll(options, calls, posts) && calls[0] == c
    ensures IsRun(StandardDecorators(options), calls, posts, AnteResult(calls[14].ctx, None))
    ensures NewAnteHandler(options)(c.ctx, c.tx, c.simulate) == Unwind(posts, AnteResult(calls[14].ctx, None))
  {
    AcceptedByRoute(options, c.ctx, c.tx, c.simulate);
    var last: AnteResult<C>;
    calls, posts, last := CosmosTxRunsStandardDecorators(options, c);
    ReportingRun(StandardDecorators(options), calls, posts, last);
    SuccessMeansAllRan(StandardDecorators(options), calls, posts, last);
    FullRunPassedAll(options, calls, posts, last);
  }

  /** ...and as soon as one of them always refuses, no Cosmos transaction is accepted. */
  lemma AnyRefusalRejects<C(!new)>(options: HandlerOptions<C>, c: Call<C>)
    requires forall d <- StandardDecorators(options) :: CallsNextAtMostOnce(d) && ReportsErrors(d)
    requires || AlwaysRefuses(options.setUpContext) || AlwaysRefuses(options.extensionOptions)
             || AlwaysRefuses(options.validateBasic) || AlwaysRefuses(options.txTimeoutHeight)
             || AlwaysRefuses(options.validateMemo) || AlwaysRefuses(options.consumeGasForTxSize)
             || AlwaysRefuses(options.deductFee) || AlwaysRefuses(options.setPubKey)
             || AlwaysRefuses(options.validateSigCount) || AlwaysRefuses(options.sigGasConsume)
             || AlwaysRefuses(options.sigVerification) || AlwaysRefuses(options.incrementSequence)
             || AlwaysRefuses(options.redundantRelay) || AlwaysRefuses(options.gasWanted)
    ensures !EthereumRoute(c.tx) ==> NewAnteHandler(options)(c.ctx, c.tx, c.simulate).err.Some?
  {
    var ds := StandardDecorators(options);
    assert ds[0] == options.setUpContext && ds[1] == options.extensionOptions && ds[2] == options.validateBasic;
    assert ds[3] == options.txTimeoutHeight && ds[4] == options.validateMemo && ds[5] == options.consumeGasForTxSize;
    assert ds[6] == options.deductFee && ds[7] == options.setPubKey && ds[8] == options.validateSigCount;
    assert ds[9] == options.sigGasConsume && ds[10] == options.sigVerification && ds[11] == options.incrementSequence;
    assert ds[12] == options.redundantRelay && ds[13] == options.gasWanted;
    var i: nat :| i < |ds| && AlwaysRefuses(ds[i]);
    RefusalRejects(ds, c, i);
    AcceptedByRoute(options, c.ctx, c.tx, c.simulate);
  }

  /** A MsgEthereumTx anywhere in an accepted transaction, or a grant for one, means that the
      transaction took the Ethereum route. */
  lemma EthereumMessagesNeedEthereumRoute<C>(options: HandlerOptions<C>, ctx: C, tx: Tx, simulate: bool, p: seq<nat>)
    requires NewAnteHandler(options)(ctx, tx, simulate).err == None
    requires ValidPath(tx.GetMsgs(), p)
    requires At(tx.GetMsgs(), p) in {Other(MSG_ETHEREUM_TX), Grant(MSG_ETHEREUM_TX)}
    ensures EthereumRoute(tx)
  {
    if !EthereumRoute(tx) {
      AcceptedByRoute(options, ctx, tx, simulate);
      CosmosMessagesHoldNoEthereum(tx.GetMsgs(), p);
    }
  }

  /** On the Cosmos route a MsgCreateVestingAccount is accepted only as an outermost message,
      and no grant for one is accepted at any depth. */
  lemma VestingOnlyOutermost<C>(options: HandlerOptions<C>, ctx: C, tx: Tx, simulate: bool, p: seq<nat>)
    requires NewAnteHandler(options)(ctx, tx, simulate).err == None && !EthereumRoute(tx)
    requires ValidPath(tx.GetMsgs(), p)
    ensures At(tx.GetMsgs(), p) == Other(MSG_CREATE_VESTING_ACCOUNT) ==> |p| == 1
    ensures At(tx.GetMsgs(), p) != Grant(MSG_CREATE_VESTING_ACCOUNT)
  {
    AcceptedByRoute(options, ctx, tx, simulate);
    assert CosmosMsgOk(At(tx.GetMsgs(), p), |p| > 1);
  }

  /** An accepted Cosmos transaction holds at most 31 MsgExecs, nested at most 5 deep. */
  lemma AcceptedCosmosTxSize<C>(options: HandlerOptions<C>, ctx: C, tx: Tx, simulate: bool)
    requires NewAnteHandler(options)(ctx, tx, simulate).err == None && !EthereumRoute(tx)
    ensures TotalExecs(tx.GetMsgs()) <= 31 && Depth(tx.GetMsgs()) <= 5
  {
    AcceptedByRoute(options, ctx, tx, simulate);
    CosmosMessagesOkByLimiter(tx.GetMsgs());
    Bounds.AcceptedTxSize([MSG_ETHEREUM_TX, MSG_CREATE_VESTING_ACCOUNT], tx.GetMsgs());
  }
}
