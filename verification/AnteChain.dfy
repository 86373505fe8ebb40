// Ante decorators are written in continuation-passing style: each receives the rest of
// the chain as "next". This module relates such a chain to a left-to-right run.
module AnteChain {
  import opened Common
  import Limiter = AuthzLimiter
  import Messages

  /** A transaction: none at all, one without extension options, or one that lists them by type URL. */
  datatype Tx =
    | NilTx
    | PlainTx(msgs: seq<Messages.Msg>)
    | ExtensionTx(msgs: seq<Messages.Msg>, options: seq<string>)
  {
    function GetMsgs(): seq<Messages.Msg> {
      if NilTx? then [] else msgs
    }
  }

  datatype AnteError =
    | Unauthorized(cause: Limiter.CheckError)
    | InvalidType(url: string)
    | UnknownExtensionOptions(url: string)
    | UnknownRequest
    | OtherError(code: nat)

  /** Like the (newCtx, err) pair the decorators return; C is the type of contexts. */
  datatype AnteResult<+C> = AnteResult(newCtx: C, err: Option<AnteError>)

  type AnteHandler<!C> = (C, Tx, bool) -> AnteResult<C>
  type AnteDecorator<!C> = (C, Tx, bool, AnteHandler<C>) -> AnteResult<C>

  function Terminal<C>(): AnteHandler<C> {
    (ctx: C, tx: Tx, simulate: bool) => AnteResult(ctx, None)
  }

  /** sdk.ChainAnteDecorators: the first decorator runs with the handler of the others as next. */
  function Chain<C>(decorators: seq<AnteDecorator<C>>): AnteHandler<C> {
    if decorators == [] then Terminal()
    else
      var first, next := decorators[0], Chain(decorators[1..]);
      (ctx: C, tx: Tx, simulate: bool) => first(ctx, tx, simulate, next)
  }

  lemma ChainUnfolds<C>(d: AnteDecorator<C>, rest: seq<AnteDecorator<C>>, ctx: C, tx: Tx, simulate: bool)
    ensures Chain([d] + rest)(ctx, tx, simulate) == d(ctx, tx, simulate, Chain(rest))
  {
    assert ([d] + rest)[1..] == rest;
  }

  // ----- Left-to-right runs -----

  /** What a decorator is called with, apart from next. */
  datatype Call<+C> = Call(ctx: C, tx: Tx, simulate: bool)

  /** What a decorator makes of the result of next. */
  type Post<!C> = AnteResult<C> -> AnteResult<C>

  /** The decorator returns r without using next. */
  ghost predicate Stops<C(!new)>(d: AnteDecorator<C>, c: Call<C>, r: AnteResult<C>) {
    forall next: AnteHandler<C> :: d(c.ctx, c.tx, c.simulate, next) == r
  }

  /** The decorator calls next once, on c', and returns what post makes of the result. */
  ghost predicate CallsNext<C(!new)>(d: AnteDecorator<C>, c: Call<C>, c': Call<C>, post: Post<C>) {
    forall next: AnteHandler<C> :: d(c.ctx, c.tx, c.simulate, next) == post(next(c'.ctx, c'.tx, c'.simulate))
  }

  ghost predicate StopsOrCallsNext<C(!new)>(d: AnteDecorator<C>, c: Call<C>) {
    (exists r: AnteResult<C> :: Stops(d, c, r)) || (exists c': Call<C>, post: Post<C> :: CallsNext(d, c, c', post))
  }

  /** Whatever it is called with, the decorator calls next at most once. */
  ghost predicate CallsNextAtMostOnce<C(!new)>(d: AnteDecorator<C>) {
    forall c: Call<C> :: StopsOrCallsNext(d, c)
  }

  /** calls[i] is what the i-th decorator is called with. All but possibly the last call next,
      and posts[i] is what they do with the result; last comes from a decorator that stops or,
      when all have called next, from the end of the chain. */
  ghost predicate IsRun<C(!new)>(decorators: seq<AnteDecorator<C>>, calls: seq<Call<C>>, posts: seq<Post<C>>,
                                 last: AnteResult<C>)
  {
    && 1 <= |calls| <= |decorators| + 1 && |posts| == |calls| - 1
    && (forall i | 0 <= i < |posts| :: CallsNext(decorators[i], calls[i], calls[i + 1], posts[i]))
    && (if |calls| == |decorators| + 1 then last == AnteResult(calls[|posts|].ctx, None)
        else Stops(decorators[|posts|], calls[|posts|], last))
  }

  /** On the way back each decorator that called next acts on the result, the innermost first. */
  ghost function Unwind<C>(posts: seq<Post<C>>, last: AnteResult<C>): AnteResult<C> {
    if posts == [] then last else posts[0](Unwind(posts[1..], last))
  }

  /** A chain of decorators that call next at most once is a left-to-right run with early exit,
      each decorator reached exactly once, unwound at its end. */
  lemma {:induction false} ChainIsRun<C(!new)>(decorators: seq<AnteDecorator<C>>, c: Call<C>)
    returns (calls: seq<Call<C>>, posts: seq<Post<C>>, last: AnteResult<C>)
    requires forall d <- decorators :: CallsNextAtMostOnce(d)
    ensures IsRun(decorators, calls, posts, last) && calls[0] == c
    ensures Chain(decorators)(c.ctx, c.tx, c.simulate) == Unwind(posts, last)
  {
    calls, posts, last := [c], [], AnteResult(c.ctx, None);
    if decorators != [] {
      var d, rest := decorators[0], decorators[1..];
      assert d in decorators;
      assert StopsOrCallsNext(d, c);
      if r: AnteResult<C> :| Stops(d, c, r) {
        last := r;
        assert Chain(decorators)(c.ctx, c.tx, c.simulate) == d(c.ctx, c.tx, c.simulate, Chain(rest)) == r;
      } else {
        var c': Call<C>, post: Post<C> :| CallsNext(d, c, c', post);
        var calls', posts', last' := ChainIsRun(rest, c');
        calls, posts, last := [c] + calls', [post] + posts', last';
        assert Chain(decorators)(c.ctx, c.tx, c.simulate) == post(Chain(rest)(c'.ctx, c'.tx, c'.simulate));
        RunCons(d, rest, c, post, calls', posts', last');
      }
    }
  }

  lemma RunCons<C(!new)>(d: AnteDecorator<C>, rest: seq<AnteDecorator<C>>, c: Call<C>, post: Post<C>,
                         calls: seq<Call<C>>, posts: seq<Post<C>>, last: AnteResult<C>)
    requires IsRun(rest, calls, posts, last) && CallsNext(d, c, calls[0], post)
    ensures IsRun([d] + rest, [c] + calls, [post] + posts, last)
    ensures Unwind([post] + posts, last) == post(Unwind(posts, last))
  {
    forall i | 0 <= i < |[post] + posts|
      ensures CallsNext(([d] + rest)[i], ([c] + calls)[i], ([c] + calls)[i + 1], ([post] + posts)[i])
    {
      if i > 0 {
        assert CallsNext(rest[i - 1], calls[i - 1], calls[i], posts[i - 1]);
      }
    }
    assert ([post] + posts)[1..] == posts;
  }

  /** Conversely any run decides the result of the chain. */
  lemma {:induction false} RunDecidesChain<C(!new)>(decorators: seq<AnteDecorator<C>>, calls: seq<Call<C>>,
                                                    posts: seq<Post<C>>, last: AnteResult<C>)
    requires IsRun(decorators, calls, posts, last)
    ensures Chain(decorators)(calls[0].ctx, calls[0].tx, calls[0].simulate) == Unwind(posts, last)
    decreases |decorators|
  {
    if decorators != [] {
      var rest := decorators[1..];
      if posts == [] {
        assert decorators[0](calls[0].ctx, calls[0].tx, calls[0].simulate, Chain(rest)) == last;
      } else {
        assert CallsNext(decorators[0], calls[0], calls[1], posts[0]);
        forall i | 0 <= i < |posts[1..]|
          ensures CallsNext(rest[i], calls[1..][i], calls[1..][i + 1], posts[1..][i])
        {
          assert CallsNext(decorators[i + 1], calls[i + 1], calls[i + 2], posts[i + 1]);
        }
        RunDecidesChain(rest, calls[1..], posts[1..], last);
      }
    }
  }

  // ----- When success means that all ran -----

  ghost predicate KeepsErrors<C(!new)>(post: Post<C>) {
    forall r: AnteResult<C> :: r.err.Some? ==> post(r).err.Some?
  }

  /** In the run no error is turned into success, and a decorator that stops does so with an error. */
  ghost predicate NoFalseSuccess<C(!new)>(decorators: seq<AnteDecorator<C>>, posts: seq<Post<C>>, last: AnteResult<C>) {
    (forall post <- posts :: KeepsErrors(post)) && (|posts| < |decorators| ==> last.err.Some?)
  }

  /** A decorator that never hides an error: it stops only with one, and keeps those of next. */
  ghost predicate ReportsErrors<C(!new)>(d: AnteDecorator<C>) {
    && (forall c: Call<C>, r: AnteResult<C> :: Stops(d, c, r) ==> r.err.Some?)
    && (forall c: Call<C>, c': Call<C>, post: Post<C> :: CallsNext(d, c, c', post) ==> KeepsErrors(post))
  }

  lemma ReportingRun<C(!new)>(decorators: seq<AnteDecorator<C>>, calls: seq<Call<C>>, posts: seq<Post<C>>,
                              last: AnteResult<C>)
    requires IsRun(decorators, calls, posts, last) && forall d <- decorators :: ReportsErrors(d)
    ensures NoFalseSuccess(decorators, posts, last)
  {
    forall i | 0 <= i < |posts| ensures KeepsErrors(posts[i]) {
      assert ReportsErrors(decorators[i]) && CallsNext(decorators[i], calls[i], calls[i + 1], posts[i]);
    }
    if |posts| < |decorators| {
      assert ReportsErrors(decorators[|posts|]) && Stops(decorators[|posts|], calls[|posts|], last);
    }
  }

  lemma {:induction false} UnwindKeepsErrors<C(!new)>(posts: seq<Post<C>>, last: AnteResult<C>)
    requires (forall post <- posts :: KeepsErrors(post)) && last.err.Some?
    ensures Unwind(posts, last).err.Some?
  {
    if posts != [] {
      UnwindKeepsErrors(posts[1..], last);
      assert KeepsErrors(posts[0]);
    }
  }

  /** Then success means that every decorator ran. */
  lemma SuccessMeansAllRan<C(!new)>(decorators: seq<AnteDecorator<C>>, calls: seq<Call<C>>, posts: seq<Post<C>>,
                                    last: AnteResult<C>)
    requires IsRun(decorators, calls, posts, last) && NoFalseSuccess(decorators, posts, last)
    ensures Unwind(posts, last).err == None ==> |calls| == |decorators| + 1
  {
    if |posts| < |decorators| {
      UnwindKeepsErrors(posts, last);
    }
  }

  // ----- When one of them always refuses -----

  /** The decorator stops with an error. */
  ghost predicate Refuses<C(!new)>(d: AnteDecorator<C>, c: Call<C>) {
    exists r: AnteResult<C> :: Stops(d, c, r) && r.err.Some?
  }

  ghost predicate AlwaysRefuses<C(!new)>(d: AnteDecorator<C>) {
    forall c: Call<C> :: Refuses(d, c)
  }

  lemma {:induction false} UnwindFails<C(!new)>(posts: seq<Post<C>>, last: AnteResult<C>, i: nat)
    requires i < |posts| && (forall post <- posts :: KeepsErrors(post))
    requires forall r: AnteResult<C> :: posts[i](r).err.Some?
    ensures Unwind(posts, last).err.Some?
  {
    if i > 0 {
      UnwindFails(posts[1..], last, i - 1);
      assert KeepsErrors(posts[0]);
    }
  }

  /** Where no decorator hides errors, one that always refuses makes the chain refuse. */
  lemma RefusalRejects<C(!new)>(decorators: seq<AnteDecorator<C>>, c: Call<C>, i: nat)
    requires forall d <- decorators :: CallsNextAtMostOnce(d) && ReportsErrors(d)
    requires i < |decorators| && AlwaysRefuses(decorators[i])
    ensures Chain(decorators)(c.ctx, c.tx, c.simulate).err.Some?
  {
    var calls, posts, last := ChainIsRun(decorators, c);
    ReportingRun(decorators, calls, posts, last);
    SuccessMeansAllRan(decorators, calls, posts, last);
    if i < |posts| {
      assert CallsNext(decorators[i], calls[i], calls[i + 1], posts[i]);
      assert Refuses(decorators[i], calls[i]);
      var refusal: AnteResult<C> :| Stops(decorators[i], calls[i], refusal) && refusal.err.Some?;
      forall r: AnteResult<C> ensures posts[i](r).err.Some? {
        var next: AnteHandler<C> := (ctx: C, tx: Tx, simulate: bool) => r;
        assert decorators[i](calls[i].ctx, calls[i].tx, calls[i].simulate, next) == refusal;
      }
      UnwindFails(posts, last, i);
    }
  }

  /** The decorator calls next once, on c', and returns what next returns. */
  ghost predicate Forwards<C(!new)>(d: AnteDecorator<C>, c: Call<C>, c': Call<C>) {
    CallsNext(d, c, c', r => r)
  }

  // ----- The limiter as a decorator -----

  /** AuthzLimiterDecorator.AnteHandle: outermost messages are checked at level 1, not as inner ones. */
  function LimiterAnteHandle<C>(lim: Limiter.AuthzLimiterDecorator): AnteDecorator<C> {
    (ctx: C, tx: Tx, simulate: bool, next: AnteHandler<C>) =>
      match Limiter.Check(lim, tx.GetMsgs(), false, 1)
      case Fail(e) => AnteResult(ctx, Some(Unauthorized(e)))
      case Pass => next(ctx, tx, simulate)
  }

  /** The limiter hands on context, transaction and simulate flag untouched, or stops with an
      error and the untouched context; it hands on exactly what it accepts. */
  lemma LimiterForwardsUnchanged<C(!new)>(lim: Limiter.AuthzLimiterDecorator, c: Call<C>)
    ensures Limiter.Accepts(lim, c.tx.GetMsgs(), false, 1) ==> Forwards(LimiterAnteHandle<C>(lim), c, c)
    ensures !Limiter.Accepts(lim, c.tx.GetMsgs(), false, 1) ==>
              Stops(LimiterAnteHandle<C>(lim), c,
                    AnteResult(c.ctx, Some(Unauthorized(Limiter.Check(lim, c.tx.GetMsgs(), false, 1).error))))
    ensures StopsOrCallsNext(LimiterAnteHandle<C>(lim), c)
  {
    if Limiter.Accepts(lim, c.tx.GetMsgs(), false, 1) {
      assert Forwards(LimiterAnteHandle<C>(lim), c, c);
    } else {
      var e := Limiter.Check(lim, c.tx.GetMsgs(), false, 1).error;
      assert Stops(LimiterAnteHandle<C>(lim), c, AnteResult(c.ctx, Some(Unauthorized(e))));
    }
  }
}
