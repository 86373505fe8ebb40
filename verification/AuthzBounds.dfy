// How large an accepted transaction can be, and how much work a rejected one can cause.
module AuthzBounds {
  import opened AuthzAcceptance
  import opened AuthzLimiter
  import opened Common
  import opened Messages

  // ----- Counting MsgExecs in the listing -----

  ghost function ExecVisits(visits: seq<Visit>): nat {
    if visits == [] then 0 else (if visits[0].msg.Exec? then 1 else 0) + ExecVisits(visits[1..])
  }

  ghost function ExecsAtLevel(visits: seq<Visit>, level: int): nat {
    if visits == [] then 0
    else (if visits[0].msg.Exec? && visits[0].level == level then 1 else 0) + ExecsAtLevel(visits[1..], level)
  }

  lemma {:induction false} ExecVisitsConcat(a: seq<Visit>, b: seq<Visit>)
    ensures ExecVisits(a + b) == ExecVisits(a) + ExecVisits(b)
  {
    if a == [] {
      assert a + b == b;
    } else {
      assert (a + b)[1..] == a[1..] + b;
      ExecVisitsConcat(a[1..], b);
    }
  }

  lemma {:induction false} ExecsAtLevelConcat(a: seq<Visit>, b: seq<Visit>, level: int)
    ensures ExecsAtLevel(a + b, level) == ExecsAtLevel(a, level) + ExecsAtLevel(b, level)
  {
    if a == [] {
      assert a + b == b;
    } else {
      assert (a + b)[1..] == a[1..] + b;
      ExecsAtLevelConcat(a[1..], b, level);
    }
  }

  /** TotalExecs counts the MsgExec nodes of the listing. */
  lemma {:induction false} TotalExecsCountsNodes(msgs: seq<Msg>, base: nat, prefix: seq<nat>, lvl: int, inner: bool)
    ensures ExecVisits(Listing(msgs, base, prefix, lvl, inner)) == TotalExecs(msgs)
    decreases msgs
  {
    if msgs == [] {
    } else if msgs[0].Exec? {
      var head := [Visit(prefix + [base], msgs[0], lvl + 1, inner)];
      var below := Listing(msgs[0].inner, 0, prefix + [base], lvl + 1, true);
      var rest := Listing(msgs[1..], base + 1, prefix, lvl + 1, inner);
      TotalExecsCountsNodes(msgs[0].inner, 0, prefix + [base], lvl + 1, true);
      TotalExecsCountsNodes(msgs[1..], base + 1, prefix, lvl + 1, inner);
      ExecVisitsConcat(head + below, rest);
      ExecVisitsConcat(head, below);
    } else {
      TotalExecsCountsNodes(msgs[1..], base + 1, prefix, lvl, inner);
      ExecVisitsConcat([Visit(prefix + [base], msgs[0], lvl, inner)], Listing(msgs[1..], base + 1, prefix, lvl, inner));
    }
  }

  /** One step of the count at weight w above the entry level. */
  lemma ExecsAtLevelStep(msgs: seq<Msg>, base: nat, prefix: seq<nat>, lvl: int, inner: bool, w: int)
    requires msgs != []
    ensures ExecsAtLevel(Listing(msgs, base, prefix, lvl, inner), lvl + w) ==
            if msgs[0].Exec? then
              (if w == 1 then 1 else 0)
              + ExecsAtLevel(Listing(msgs[0].inner, 0, prefix + [base], lvl + 1, true), lvl + w)
              + ExecsAtLevel(Listing(msgs[1..], base + 1, prefix, lvl + 1, inner), lvl + w)
            else ExecsAtLevel(Listing(msgs[1..], base + 1, prefix, lvl, inner), lvl + w)
  {
    if msgs[0].Exec? {
      var head := [Visit(prefix + [base], msgs[0], lvl + 1, inner)];
      var below := Listing(msgs[0].inner, 0, prefix + [base], lvl + 1, true);
      ExecsAtLevelConcat(head + below, Listing(msgs[1..], base + 1, prefix, lvl + 1, inner), lvl + w);
      ExecsAtLevelConcat(head, below, lvl + w);
      assert head[1..] == [];
    } else {
      var head := [Visit(prefix + [base], msgs[0], lvl, inner)];
      ExecsAtLevelConcat(head, Listing(msgs[1..], base + 1, prefix, lvl, inner), lvl + w);
      assert head[1..] == [];
    }
  }

  /** In any forest at most 2^(w-1) MsgExecs lie at path weight w, and none at weight 0 or less. */
  lemma {:induction false} WeightBound(msgs: seq<Msg>, base: nat, prefix: seq<nat>, lvl: int, inner: bool, w: int)
    ensures ExecsAtLevel(Listing(msgs, base, prefix, lvl, inner), lvl + w) <= if w >= 1 then Pow2(w - 1) else 0
    decreases msgs
  {
    if msgs != [] {
      ExecsAtLevelStep(msgs, base, prefix, lvl, inner, w);
      if msgs[0].Exec? {
        assert lvl + w == (lvl + 1) + (w - 1);
        WeightBound(msgs[0].inner, 0, prefix + [base], lvl + 1, true, w - 1);
        WeightBound(msgs[1..], base + 1, prefix, lvl + 1, inner, w - 1);
      } else {
        WeightBound(msgs[1..], base + 1, prefix, lvl, inner, w);
      }
    }
  }

  /** Number of MsgExecs of a whole list that lie on a path of weight w. */
  ghost function ExecsAtWeight(msgs: seq<Msg>, w: int): nat {
    ExecsAtLevel(Listing(msgs, 0, [], 0, false), w)
  }

  lemma AtMostPow2AtWeight(msgs: seq<Msg>, w: nat)
    requires w >= 1
    ensures ExecsAtWeight(msgs, w) <= Pow2(w - 1)
  {
    WeightBound(msgs, 0, [], 0, false, w);
    assert 0 + w == w;
  }

  // ----- The exponential cap on accepted forests -----

  lemma {:induction false} TotalExecsBound(msgs: seq<Msg>)
    ensures TotalExecs(msgs) <= Pow2(Need(msgs)) - 1
  {
    if msgs == [] {
    } else if msgs[0].Exec? {
      TotalExecsBound(msgs[0].inner);
      TotalExecsBound(msgs[1..]);
      Pow2Monotone(Need(msgs[0].inner), Need(msgs) - 1);
      Pow2Monotone(Need(msgs[1..]), Need(msgs) - 1);
    } else {
      TotalExecsBound(msgs[1..]);
    }
  }

  /** An accepted forest holds at most 2^(M-1-L) - 1 MsgExecs, nested at most M-1-L deep. */
  lemma AcceptedSize(lim: AuthzLimiterDecorator, msgs: seq<Msg>, isInner: bool, lvl: int)
    requires Accepts(lim, msgs, isInner, lvl)
    ensures TotalExecs(msgs) <= Pow2(lim.maxNestedMsgs - 1 - lvl) - 1
    ensures Depth(msgs) <= lim.maxNestedMsgs - 1 - lvl
    ensures ExecCount(msgs) <= lim.maxNestedMsgs - 1 - lvl
  {
    AcceptedByNeed(lim, msgs, isInner, lvl);
    TotalExecsBound(msgs);
    Pow2Monotone(Need(msgs), lim.maxNestedMsgs - 1 - lvl);
    DepthAtMostNeed(msgs);
    CheckConcat(lim, msgs, [], isInner, lvl);
  }

  /** For a transaction under the limiter the application installs: 31 MsgExecs, 5 deep. */
  lemma AcceptedTxSize(disabled: seq<string>, msgs: seq<Msg>)
    requires Accepts(NewAuthzLimiterDecorator(disabled), msgs, false, 1)
    ensures TotalExecs(msgs) <= 31 && Depth(msgs) <= 5
  {
    AcceptedSize(NewAuthzLimiterDecorator(disabled), msgs, false, 1);
    assert Pow2(5) == 2 * Pow2(4) == 4 * Pow2(3) == 8 * Pow2(2) == 32;
  }

  // ----- Depth -----

  lemma {:induction false} DepthAtMostNeed(msgs: seq<Msg>)
    ensures Depth(msgs) <= Need(msgs)
  {
    if msgs != [] {
      if msgs[0].Exec? {
        DepthAtMostNeed(msgs[0].inner);
      }
      DepthAtMostNeed(msgs[1..]);
    }
  }

  /** No list of the forest holds two MsgExecs. */
  ghost predicate Narrow(msgs: seq<Msg>) {
    ExecCount(msgs) <= 1 && forall m <- msgs | m.Exec? :: Narrow(m.inner)
  }

  lemma {:induction false} NoExecNoNeed(msgs: seq<Msg>)
    requires ExecCount(msgs) == 0
    ensures Need(msgs) == 0
  {
    if msgs != [] {
      NoExecNoNeed(msgs[1..]);
    }
  }

  lemma {:induction false} NarrowNeedIsDepth(msgs: seq<Msg>)
    requires Narrow(msgs)
    ensures Need(msgs) == Depth(msgs)
  {
    if msgs != [] {
      if msgs[0].Exec? {
        assert msgs[0] in msgs;
        NarrowNeedIsDepth(msgs[0].inner);
        NoExecNoNeed(msgs[1..]);
      }
      NarrowNeedIsDepth(msgs[1..]);
    }
  }

  /** When every list holds at most one MsgExec, the cap is a plain depth limit. */
  lemma NarrowAcceptedByDepth(lim: AuthzLimiterDecorator, msgs: seq<Msg>, isInner: bool, lvl: int)
    requires Narrow(msgs)
    ensures Accepts(lim, msgs, isInner, lvl) <==>
            Clean(lim, msgs, isInner) && lvl + Depth(msgs) <= lim.maxNestedMsgs - 1
  {
    AcceptedByNeed(lim, msgs, isInner, lvl);
    NarrowNeedIsDepth(msgs);
  }

  /** A list of n empty MsgExecs. */
  function Flat(n: nat): seq<Msg> {
    if n == 0 then [] else [Exec([])] + Flat(n - 1)
  }

  lemma {:induction false} FlatMeasures(lim: AuthzLimiterDecorator, n: nat, inner: bool)
    ensures Need(Flat(n)) == n && Depth(Flat(n)) <= 1 && Clean(lim, Flat(n), inner)
  {
    if n > 0 {
      assert Flat(n)[0] == Exec([]) && Flat(n)[1..] == Flat(n - 1);
      FlatMeasures(lim, n - 1, inner);
      CleanCons(lim, Flat(n), inner);
    }
  }

  /** In general it is not: siblings use up levels too, although they nest nothing. */
  lemma SiblingsUseUpLevels(lim: AuthzLimiterDecorator, n: nat, isInner: bool, lvl: int)
    ensures Depth(Flat(n)) <= 1
    ensures Accepts(lim, Flat(n), isInner, lvl) <==> lvl + n <= lim.maxNestedMsgs - 1
  {
    FlatMeasures(lim, n, isInner);
    AcceptedByNeed(lim, Flat(n), isInner, lvl);
  }

  // ----- The bounds are attained: binomial forests -----

  /** The largest forest that needs n levels. */
  function Binomial(n: nat): seq<Msg> {
    if n == 0 then [] else [Exec(Binomial(n - 1))] + Binomial(n - 1)
  }

  lemma BinomialStep(n: nat)
    requires n > 0
    ensures Binomial(n) != [] && Binomial(n)[0] == Exec(Binomial(n - 1)) && Binomial(n)[1..] == Binomial(n - 1)
  {
  }

  lemma {:induction false} BinomialMeasures(n: nat)
    ensures Need(Binomial(n)) == n && Depth(Binomial(n)) == n && ExecCount(Binomial(n)) == n
    ensures TotalExecs(Binomial(n)) == Pow2(n) - 1
  {
    if n > 0 {
      BinomialStep(n);
      BinomialMeasures(n - 1);
    }
  }

  lemma {:induction false} BinomialClean(lim: AuthzLimiterDecorator, n: nat, inner: bool)
    ensures Clean(lim, Binomial(n), inner)
  {
    if n > 0 {
      BinomialStep(n);
      BinomialClean(lim, n - 1, true);
      BinomialClean(lim, n - 1, inner);
      CleanCons(lim, Binomial(n), inner);
    }
  }

  lemma {:induction false} BinomialWeights(n: nat, base: nat, prefix: seq<nat>, lvl: int, inner: bool, w: nat)
    requires 1 <= w <= n
    ensures ExecsAtLevel(Listing(Binomial(n), base, prefix, lvl, inner), lvl + w) == Pow2(w - 1)
    decreases n
  {
    BinomialStep(n);
    ExecsAtLevelStep(Binomial(n), base, prefix, lvl, inner, w);
    assert lvl + w == (lvl + 1) + (w - 1);
    if w == 1 {
      WeightBound(Binomial(n - 1), 0, prefix + [base], lvl + 1, true, 0);
      WeightBound(Binomial(n - 1), base + 1, prefix, lvl + 1, inner, 0);
    } else {
      BinomialWeights(n - 1, 0, prefix + [base], lvl + 1, true, w - 1);
      BinomialWeights(n - 1, base + 1, prefix, lvl + 1, inner, w - 1);
    }
  }

  /** At every level below the cap the binomial forest is accepted with every bound attained. */
  lemma BoundsAttained(lim: AuthzLimiterDecorator, isInner: bool, lvl: int)
    requires lvl < lim.maxNestedMsgs
    ensures var n := lim.maxNestedMsgs - 1 - lvl;
            && Accepts(lim, Binomial(n), isInner, lvl)
            && TotalExecs(Binomial(n)) == Pow2(n) - 1
            && Depth(Binomial(n)) == n
            && forall w: nat | 1 <= w <= n :: ExecsAtWeight(Binomial(n), w) == Pow2(w - 1)
  {
    var n: nat := lim.maxNestedMsgs - 1 - lvl;
    BinomialMeasures(n);
    BinomialClean(lim, n, isInner);
    AcceptedByNeed(lim, Binomial(n), isInner, lvl);
    forall w: nat | 1 <= w <= n
      ensures ExecsAtWeight(Binomial(n), w) == Pow2(w - 1)
    {
      BinomialWeights(n, 0, [], 0, false, w);
      assert 0 + w == w;
    }
  }

  /** Under the limiter the application installs, whatever it disables, a transaction of 31
      MsgExecs, 5 of them side by side and 5 deep, is accepted. */
  lemma InstalledBoundsAttained(disabled: seq<string>)
    ensures Accepts(NewAuthzLimiterDecorator(disabled), Binomial(5), false, 1)
    ensures TotalExecs(Binomial(5)) == 31 && Depth(Binomial(5)) == 5 && ExecCount(Binomial(5)) == 5
  {
    BinomialMeasures(5);
    BinomialClean(NewAuthzLimiterDecorator(disabled), 5, false);
    AcceptedByNeed(NewAuthzLimiterDecorator(disabled), Binomial(5), false, 1);
    assert Pow2(5) == 2 * Pow2(4) == 4 * Pow2(3) == 8 * Pow2(2) == 32;
  }

  // ----- Work -----

  lemma {:induction false} LoopWork(lim: AuthzLimiterDecorator, msgs: seq<Msg>, lvl: int, isInner: bool)
    requires lvl < lim.maxNestedMsgs
    ensures LoopInvocations(lim, msgs, lvl, isInner) <= Pow2(lim.maxNestedMsgs - 1 - lvl)
    ensures Scan(lim, msgs, isInner, lvl).Pass? ==>
              LoopInvocations(lim, msgs, lvl, isInner) == TotalExecs(msgs) <= Pow2(lim.maxNestedMsgs - 1 - lvl) - 1
  {
    if msgs == [] {
    } else if msgs[0].Exec? {
      if lvl + 1 < lim.maxNestedMsgs {
        LoopWork(lim, msgs[0].inner, lvl + 1, true);
        LoopWork(lim, msgs[1..], lvl + 1, isInner);
      }
    } else {
      LoopWork(lim, msgs[1..], lvl, isInner);
    }
  }

  /** Whatever the transaction, entering at level L below the cap M makes at most 2^(M-1-L) + 1
      invocations; an accepted one makes exactly one per MsgExec and one for the whole. */
  lemma WorkBound(lim: AuthzLimiterDecorator, msgs: seq<Msg>, isInner: bool, lvl: int)
    requires lvl < lim.maxNestedMsgs
    ensures Invocations(lim, msgs, lvl, isInner) <= Pow2(lim.maxNestedMsgs - 1 - lvl) + 1
    ensures Accepts(lim, msgs, isInner, lvl) ==> Invocations(lim, msgs, lvl, isInner) == 1 + TotalExecs(msgs)
  {
    LoopWork(lim, msgs, lvl, isInner);
  }

  /** The work bound is attained by a full binomial forest with one MsgExec too many. */
  lemma WorkBoundAttained(lim: AuthzLimiterDecorator, isInner: bool, lvl: int)
    requires lvl < lim.maxNestedMsgs
    ensures var n := lim.maxNestedMsgs - 1 - lvl;
            && Check(lim, Binomial(n) + [Exec([])], isInner, lvl) == Fail(TooNested(lim.maxNestedMsgs))
            && Invocations(lim, Binomial(n) + [Exec([])], lvl, isInner) == Pow2(n) + 1
  {
    var n: nat := lim.maxNestedMsgs - 1 - lvl;
    BoundsAttained(lim, isInner, lvl);
    BinomialMeasures(n);
    WorkBound(lim, Binomial(n), isInner, lvl);
    ScanConcat(lim, Binomial(n), [Exec([])], isInner, lvl);
    assert Check(lim, [], true, lim.maxNestedMsgs).Fail?;
    assert Invocations(lim, [], lim.maxNestedMsgs, true) == 1;
    assert LoopInvocations(lim, [Exec([])], lim.maxNestedMsgs - 1, isInner) == 1;
    assert Scan(lim, [Exec([])], isInner, lim.maxNestedMsgs - 1) == Fail(TooNested(lim.maxNestedMsgs));
  }
}
