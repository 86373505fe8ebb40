// Deleting messages never turns an accepted transaction into a rejected one, and the
// accepted shapes are exactly the prunings of one binomial forest.
module AuthzPruning {
  import opened Messages
  import Acceptance = AuthzAcceptance
  import Bounds = AuthzBounds
  import Limiter = AuthzLimiter

  /** a is b with some messages deleted, at any depths. */
  ghost predicate Pruned(a: seq<Msg>, b: seq<Msg>)
    decreases b
  {
    || a == []
    || (b != [] && Pruned(a, b[1..]))
    || (b != [] && Pruned(a[1..], b[1..])
        && (a[0] == b[0] || (a[0].Exec? && b[0].Exec? && Pruned(a[0].inner, b[0].inner))))
  }

  lemma {:induction false} PrunedNeedsLess(a: seq<Msg>, b: seq<Msg>)
    requires Pruned(a, b)
    ensures Need(a) <= Need(b)
    decreases b
  {
    if a != [] {
      if Pruned(a, b[1..]) {
        PrunedNeedsLess(a, b[1..]);
      } else {
        PrunedNeedsLess(a[1..], b[1..]);
        if a[0] != b[0] {
          PrunedNeedsLess(a[0].inner, b[0].inner);
        }
      }
    }
  }

  /** strict disables everything that lax disables. */
  ghost predicate DisablesNoMore(lax: Limiter.AuthzLimiterDecorator, strict: Limiter.AuthzLimiterDecorator) {
    forall url <- lax.disabledMsgTypes :: url in strict.disabledMsgTypes
  }

  lemma {:induction false} CleanMsgRelaxed(lax: Limiter.AuthzLimiterDecorator, strict: Limiter.AuthzLimiterDecorator,
                                           m: Msg, laxInner: bool, strictInner: bool)
    requires DisablesNoMore(lax, strict) && (laxInner ==> strictInner) && Acceptance.CleanMsg(strict, m, strictInner)
    ensures Acceptance.CleanMsg(lax, m, laxInner)
    decreases m
  {
    if m.Exec? {
      forall x <- m.inner ensures Acceptance.CleanMsg(lax, x, true) {
        CleanMsgRelaxed(lax, strict, x, true, true);
      }
    }
  }

  lemma {:induction false} PrunedClean(lax: Limiter.AuthzLimiterDecorator, strict: Limiter.AuthzLimiterDecorator,
                                       a: seq<Msg>, b: seq<Msg>, laxInner: bool, strictInner: bool)
    requires Pruned(a, b) && DisablesNoMore(lax, strict) && (laxInner ==> strictInner)
    requires Acceptance.Clean(strict, b, strictInner)
    ensures Acceptance.Clean(lax, a, laxInner)
    decreases b
  {
    if a != [] {
      Acceptance.CleanCons(strict, b, strictInner);
      if Pruned(a, b[1..]) {
        PrunedClean(lax, strict, a, b[1..], laxInner, strictInner);
      } else {
        PrunedClean(lax, strict, a[1..], b[1..], laxInner, strictInner);
        if a[0] == b[0] {
          CleanMsgRelaxed(lax, strict, a[0], laxInner, strictInner);
        } else {
          PrunedClean(lax, strict, a[0].inner, b[0].inner, true, true);
        }
        Acceptance.CleanCons(lax, a, laxInner);
      }
    }
  }

  /** Acceptance survives pruning, more room below the cap, fewer disabled types, and
      treating an inner list as an outer one - all of these at once. */
  lemma AcceptanceMonotone(lax: Limiter.AuthzLimiterDecorator, strict: Limiter.AuthzLimiterDecorator, a: seq<Msg>,
                           b: seq<Msg>, laxInner: bool, strictInner: bool, laxLvl: int, strictLvl: int)
    requires Limiter.Accepts(strict, b, strictInner, strictLvl)
    requires Pruned(a, b) && DisablesNoMore(lax, strict) && (laxInner ==> strictInner)
    requires lax.maxNestedMsgs - laxLvl >= strict.maxNestedMsgs - strictLvl
    ensures Limiter.Accepts(lax, a, laxInner, laxLvl)
  {
    Acceptance.AcceptedByNeed(strict, b, strictInner, strictLvl);
    PrunedClean(lax, strict, a, b, laxInner, strictInner);
    PrunedNeedsLess(a, b);
    Acceptance.AcceptedByNeed(lax, a, laxInner, laxLvl);
  }

  // ----- Accepted shapes -----

  /** The forest without its leaves: only the MsgExecs remain. */
  function Skeleton(msgs: seq<Msg>): seq<Msg> {
    if msgs == [] then []
    else (if msgs[0].Exec? then [Exec(Skeleton(msgs[0].inner))] else []) + Skeleton(msgs[1..])
  }

  lemma SkeletonStep(msgs: seq<Msg>)
    requires msgs != []
    ensures msgs[0].Exec? ==>
              && Skeleton(msgs) != []
              && Skeleton(msgs)[0] == Exec(Skeleton(msgs[0].inner))
              && Skeleton(msgs)[1..] == Skeleton(msgs[1..])
    ensures !msgs[0].Exec? ==> Skeleton(msgs) == Skeleton(msgs[1..])
  {
  }

  lemma {:induction false} SkeletonNeed(msgs: seq<Msg>)
    ensures Need(Skeleton(msgs)) == Need(msgs)
  {
    if msgs != [] {
      SkeletonStep(msgs);
      SkeletonNeed(msgs[1..]);
      if msgs[0].Exec? {
        SkeletonNeed(msgs[0].inner);
      }
    }
  }

  lemma {:induction false} SkeletonInBinomial(msgs: seq<Msg>, n: nat)
    requires Need(msgs) <= n
    ensures Pruned(Skeleton(msgs), Bounds.Binomial(n))
    decreases msgs
  {
    if msgs != [] {
      SkeletonStep(msgs);
      if msgs[0].Exec? {
        Bounds.BinomialStep(n);
        SkeletonInBinomial(msgs[0].inner, n - 1);
        SkeletonInBinomial(msgs[1..], n - 1);
      } else {
        SkeletonInBinomial(msgs[1..], n);
      }
    }
  }

  /** The accepted forests are the clean ones whose MsgExecs form a pruning of the binomial
      forest of order M-1-L. */
  lemma AcceptedShapes(lim: Limiter.AuthzLimiterDecorator, msgs: seq<Msg>, isInner: bool, lvl: int)
    requires lvl < lim.maxNestedMsgs
    ensures Limiter.Accepts(lim, msgs, isInner, lvl) <==>
            Acceptance.Clean(lim, msgs, isInner) && Pruned(Skeleton(msgs), Bounds.Binomial(lim.maxNestedMsgs - 1 - lvl))
  {
    var n: nat := lim.maxNestedMsgs - 1 - lvl;
    Acceptance.AcceptedByNeed(lim, msgs, isInner, lvl);
    if Need(msgs) <= n {
      SkeletonInBinomial(msgs, n);
    }
    if Pruned(Skeleton(msgs), Bounds.Binomial(n)) {
      PrunedNeedsLess(Skeleton(msgs), Bounds.Binomial(n));
      SkeletonNeed(msgs);
      Bounds.BinomialMeasures(n);
    }
  }
}
