// The order of siblings matters to the limiter. This module finds the best order.
module AuthzOrder {
  import opened AuthzLimiter
  import opened Messages
  import Acceptance = AuthzAcceptance
  import Bounds = AuthzBounds

  /** MsgExecs of the list come in non-increasing order of need; other messages may stand anywhere. */
  ghost predicate HeavyFirst(msgs: seq<Msg>) {
    forall i, j | 0 <= i < j < |msgs| && msgs[i].Exec? && msgs[j].Exec? :: Need(msgs[i].inner) >= Need(msgs[j].inner)
  }

  /** Number of MsgExecs of the list whose inner list needs at least n levels. */
  ghost function HeavyCount(msgs: seq<Msg>, n: int): nat {
    if msgs == [] then 0
    else (if msgs[0].Exec? && Need(msgs[0].inner) >= n then 1 else 0) + HeavyCount(msgs[1..], n)
  }

  /** In any order, c MsgExecs that each need n levels force the last of them to level c + n. */
  lemma {:induction false} HeavyCountForcesNeed(msgs: seq<Msg>, n: int)
    requires HeavyCount(msgs, n) > 0
    ensures HeavyCount(msgs, n) + n <= Need(msgs)
  {
    if HeavyCount(msgs[1..], n) > 0 {
      HeavyCountForcesNeed(msgs[1..], n);
    }
  }

  /** With the heaviest first, the need is no more than such a group forces. */
  lemma {:induction false} HeavyFirstNeed(msgs: seq<Msg>) returns (n: int)
    requires HeavyFirst(msgs) && Need(msgs) > 0
    ensures HeavyCount(msgs, n) > 0 && Need(msgs) == HeavyCount(msgs, n) + n
  {
    assert HeavyFirst(msgs[1..]);
    if !msgs[0].Exec? {
      n := HeavyFirstNeed(msgs[1..]);
    } else if Need(msgs[0].inner) >= Need(msgs[1..]) {
      n := Need(msgs[0].inner);
      if HeavyCount(msgs[1..], n) > 0 {
        HeavyCountForcesNeed(msgs[1..], n);
      }
    } else {
      n := HeavyFirstNeed(msgs[1..]);
      var i := HeavyWitness(msgs[1..], n);
      assert msgs[i + 1] == msgs[1..][i];
    }
  }

  lemma {:induction false} HeavyWitness(msgs: seq<Msg>, n: int) returns (i: nat)
    requires HeavyCount(msgs, n) > 0
    ensures i < |msgs| && msgs[i].Exec? && Need(msgs[i].inner) >= n
  {
    if msgs[0].Exec? && Need(msgs[0].inner) >= n {
      i := 0;
    } else {
      i := HeavyWitness(msgs[1..], n);
      i := i + 1;
    }
  }

  lemma {:induction false} HeavyCountConcat(a: seq<Msg>, b: seq<Msg>, n: int)
    ensures HeavyCount(a + b, n) == HeavyCount(a, n) + HeavyCount(b, n)
  {
    if a == [] {
      assert a + b == b;
    } else {
      assert (a + b)[1..] == a[1..] + b;
      HeavyCountConcat(a[1..], b, n);
    }
  }

  ghost function Without(msgs: seq<Msg>, i: nat): seq<Msg>
    requires i < |msgs|
  {
    msgs[..i] + msgs[i + 1..]
  }

  lemma HeavyCountWithout(msgs: seq<Msg>, i: nat, n: int)
    requires i < |msgs|
    ensures multiset(Without(msgs, i)) == multiset(msgs) - multiset{msgs[i]}
    ensures HeavyCount(msgs, n) == HeavyCount(Without(msgs, i), n) + HeavyCount([msgs[i]], n)
  {
    assert msgs == msgs[..i] + ([msgs[i]] + msgs[i + 1..]);
    HeavyCountConcat(msgs[..i], msgs[i + 1..], n);
    HeavyCountConcat(msgs[..i], [msgs[i]] + msgs[i + 1..], n);
    HeavyCountConcat([msgs[i]], msgs[i + 1..], n);
  }

  lemma {:induction false} HeavyCountPermuted(a: seq<Msg>, b: seq<Msg>, n: int)
    requires multiset(a) == multiset(b)
    ensures HeavyCount(a, n) == HeavyCount(b, n)
    decreases |a|
  {
    assert |a| == |multiset(a)| == |multiset(b)| == |b|;
    if a != [] {
      assert a[0] in multiset(b);
      var i: nat :| i < |b| && b[i] == a[0];
      HeavyCountWithout(a, 0, n);
      HeavyCountWithout(b, i, n);
      HeavyCountPermuted(Without(a, 0), Without(b, i), n);
    }
  }

  lemma CleanPermuted(lim: AuthzLimiterDecorator, a: seq<Msg>, b: seq<Msg>, inner: bool)
    requires multiset(a) == multiset(b)
    ensures Acceptance.Clean(lim, a, inner) <==> Acceptance.Clean(lim, b, inner)
  {
    assert forall m :: m in a <==> m in multiset(a);
    assert forall m :: m in b <==> m in multiset(b);
  }

  /** Heaviest first is an optimal order: no permutation of the list needs fewer levels. */
  lemma HeavyFirstIsLeast(a: seq<Msg>, b: seq<Msg>)
    requires multiset(a) == multiset(b) && HeavyFirst(b)
    ensures Need(b) <= Need(a)
  {
    if Need(b) > 0 {
      var n := HeavyFirstNeed(b);
      HeavyCountPermuted(a, b, n);
      HeavyCountForcesNeed(a, n);
    }
  }

  // ----- The order exists -----

  function Insert(m: Msg, msgs: seq<Msg>): seq<Msg> {
    if msgs == [] then [m]
    else if m.Exec? && (msgs[0].Exec? ==> Need(m.inner) >= Need(msgs[0].inner)) then [m] + msgs
    else [msgs[0]] + Insert(m, msgs[1..])
  }

  /** The MsgExecs by non-increasing need, then the other messages. */
  function HeaviestFirst(msgs: seq<Msg>): seq<Msg> {
    if msgs == [] then [] else Insert(msgs[0], HeaviestFirst(msgs[1..]))
  }

  /** All MsgExecs before all other messages, and heaviest first. */
  ghost predicate ExecsLead(msgs: seq<Msg>) {
    && HeavyFirst(msgs)
    && forall i, j | 0 <= i < j < |msgs| && msgs[j].Exec? :: msgs[i].Exec?
  }

  lemma ConsKeepsOrder(m: Msg, msgs: seq<Msg>)
    requires ExecsLead(msgs)
    requires forall x <- msgs | x.Exec? :: m.Exec? && Need(m.inner) >= Need(x.inner)
    ensures ExecsLead([m] + msgs)
  {
  }

  /** An insertion adds the message and nothing else. */
  lemma {:induction false} InsertAdds(m: Msg, msgs: seq<Msg>)
    ensures multiset(Insert(m, msgs)) == multiset{m} + multiset(msgs)
    ensures forall x <- Insert(m, msgs) :: x == m || x in msgs
  {
    if msgs != [] {
      InsertAdds(m, msgs[1..]);
      assert msgs == [msgs[0]] + msgs[1..];
    }
  }

  lemma {:induction false} InsertKeepsOrder(m: Msg, msgs: seq<Msg>)
    requires ExecsLead(msgs)
    ensures ExecsLead(Insert(m, msgs))
  {
    if msgs == [] {
    } else if m.Exec? && (msgs[0].Exec? ==> Need(m.inner) >= Need(msgs[0].inner)) {
      ConsKeepsOrder(m, msgs);
    } else {
      TailKeepsOrder(msgs);
      InsertKeepsOrder(m, msgs[1..]);
      InsertAdds(m, msgs[1..]);
      ConsKeepsOrder(msgs[0], Insert(m, msgs[1..]));
    }
  }

  lemma TailKeepsOrder(msgs: seq<Msg>)
    requires msgs != [] && ExecsLead(msgs)
    ensures ExecsLead(msgs[1..])
    ensures forall x <- msgs[1..] | x.Exec? :: msgs[0].Exec? && Need(msgs[0].inner) >= Need(x.inner)
  {
  }

  lemma {:induction false} HeaviestFirstSorts(msgs: seq<Msg>)
    ensures ExecsLead(HeaviestFirst(msgs)) && multiset(HeaviestFirst(msgs)) == multiset(msgs)
  {
    if msgs != [] {
      HeaviestFirstSorts(msgs[1..]);
      InsertKeepsOrder(msgs[0], HeaviestFirst(msgs[1..]));
      InsertAdds(msgs[0], HeaviestFirst(msgs[1..]));
      assert msgs == [msgs[0]] + msgs[1..];
    }
  }

  /** If some order of the messages is accepted, then every order whose MsgExecs come by
      non-increasing need is accepted, and HeaviestFirst is such an order. */
  lemma BestSiblingOrder(lim: AuthzLimiterDecorator, msgs: seq<Msg>, accepted: seq<Msg>, b: seq<Msg>, isInner: bool,
                         lvl: int)
    requires multiset(accepted) == multiset(msgs) == multiset(b) && HeavyFirst(b)
    requires Accepts(lim, accepted, isInner, lvl)
    ensures Accepts(lim, b, isInner, lvl)
    ensures Accepts(lim, HeaviestFirst(msgs), isInner, lvl)
  {
    Acceptance.AcceptedByNeed(lim, accepted, isInner, lvl);
    CleanPermuted(lim, accepted, b, isInner);
    HeavyFirstIsLeast(accepted, b);
    Acceptance.AcceptedByNeed(lim, b, isInner, lvl);
    HeaviestFirstSorts(msgs);
    CleanPermuted(lim, accepted, HeaviestFirst(msgs), isInner);
    HeavyFirstIsLeast(accepted, HeaviestFirst(msgs));
    Acceptance.AcceptedByNeed(lim, HeaviestFirst(msgs), isInner, lvl);
  }

  // ----- The best order at all depths at once -----

  /** b is a with the messages of any of its lists, at any depths, in another order. */
  ghost predicate Reordered(a: seq<Msg>, b: seq<Msg>)
    decreases a
  {
    if a == [] then b == []
    else
      exists i: nat | i < |b| ::
        Reordered(a[1..], Without(b, i))
        && if a[0].Exec? then b[i].Exec? && Reordered(a[0].inner, b[i].inner) else a[0] == b[i]
  }

  /** Every inner list put in its best order; the outer list is left as it is. */
  function InnerHeaviestFirst(msgs: seq<Msg>): seq<Msg>
    decreases msgs, 0
  {
    if msgs == [] then []
    else
      [if msgs[0].Exec? then Exec(DeepHeaviestFirst(msgs[0].inner)) else msgs[0]] + InnerHeaviestFirst(msgs[1..])
  }

  /** The forest with its MsgExecs heaviest first at every depth. */
  function DeepHeaviestFirst(msgs: seq<Msg>): seq<Msg>
    decreases msgs, 1
  {
    HeaviestFirst(InnerHeaviestFirst(msgs))
  }

  lemma InnerHeaviestFirstStep(msgs: seq<Msg>)
    requires msgs != []
    ensures InnerHeaviestFirst(msgs) ==
            [if msgs[0].Exec? then Exec(DeepHeaviestFirst(msgs[0].inner)) else msgs[0]] + InnerHeaviestFirst(msgs[1..])
    ensures DeepHeaviestFirst(msgs) ==
            Insert(if msgs[0].Exec? then Exec(DeepHeaviestFirst(msgs[0].inner)) else msgs[0],
                   DeepHeaviestFirst(msgs[1..]))
  {
    var head := if msgs[0].Exec? then Exec(DeepHeaviestFirst(msgs[0].inner)) else msgs[0];
    assert InnerHeaviestFirst(msgs)[0] == head && InnerHeaviestFirst(msgs)[1..] == InnerHeaviestFirst(msgs[1..]);
  }

  /** Whatever the reordering, no more MsgExecs are heavy in the deep order than in it. */
  lemma {:induction false} DeepOrderIsLightest(msgs: seq<Msg>, b: seq<Msg>, n: int)
    requires Reordered(msgs, b)
    ensures HeavyCount(InnerHeaviestFirst(msgs), n) <= HeavyCount(b, n)
    decreases msgs, 0
  {
    if msgs != [] {
      var i: nat :| i < |b| && Reordered(msgs[1..], Without(b, i))
                    && if msgs[0].Exec? then b[i].Exec? && Reordered(msgs[0].inner, b[i].inner) else msgs[0] == b[i];
      var head := if msgs[0].Exec? then Exec(DeepHeaviestFirst(msgs[0].inner)) else msgs[0];
      if msgs[0].Exec? {
        DeepOrderNeedsLeast(msgs[0].inner, b[i].inner);
      }
      DeepOrderIsLightest(msgs[1..], Without(b, i), n);
      HeavyCountWithout(b, i, n);
      InnerHeaviestFirstStep(msgs);
      HeavyCountConcat([head], InnerHeaviestFirst(msgs[1..]), n);
      assert [head][1..] == [] && [b[i]][1..] == [];
    }
  }

  /** No reordering at any depths needs fewer levels than the deep order. */
  lemma {:induction false} DeepOrderNeedsLeast(msgs: seq<Msg>, b: seq<Msg>)
    requires Reordered(msgs, b)
    ensures Need(DeepHeaviestFirst(msgs)) <= Need(b)
    decreases msgs, 1
  {
    var deep := DeepHeaviestFirst(msgs);
    HeaviestFirstSorts(InnerHeaviestFirst(msgs));
    if Need(deep) > 0 {
      var n := HeavyFirstNeed(deep);
      HeavyCountPermuted(deep, InnerHeaviestFirst(msgs), n);
      DeepOrderIsLightest(msgs, b, n);
      HeavyCountForcesNeed(b, n);
    }
  }

  /** Insertion puts the message somewhere and keeps the rest as it is. */
  lemma {:induction false} InsertSplits(m: Msg, msgs: seq<Msg>) returns (i: nat)
    ensures i <= |msgs| && Insert(m, msgs) == msgs[..i] + [m] + msgs[i..]
  {
    i := 0;
    if msgs != [] && !(m.Exec? && (msgs[0].Exec? ==> Need(m.inner) >= Need(msgs[0].inner))) {
      var tail := msgs[1..];
      var k := InsertSplits(m, tail);
      i := k + 1;
      assert msgs[..i] == [msgs[0]] + tail[..k] && msgs[i..] == tail[k..];
      assert [msgs[0]] + (tail[..k] + [m] + tail[k..]) == ([msgs[0]] + tail[..k]) + [m] + tail[k..];
    }
  }

  lemma WithoutInserted(m: Msg, msgs: seq<Msg>, i: nat)
    requires i <= |msgs|
    ensures (msgs[..i] + [m] + msgs[i..])[i] == m && Without(msgs[..i] + [m] + msgs[i..], i) == msgs
  {
  }

  /** The deep order is a reordering. */
  lemma {:induction false} DeepOrderReorders(msgs: seq<Msg>)
    ensures Reordered(msgs, DeepHeaviestFirst(msgs))
    decreases msgs
  {
    if msgs != [] {
      InnerHeaviestFirstStep(msgs);
      var head := if msgs[0].Exec? then Exec(DeepHeaviestFirst(msgs[0].inner)) else msgs[0];
      var rest := DeepHeaviestFirst(msgs[1..]);
      var i := InsertSplits(head, rest);
      WithoutInserted(head, rest, i);
      DeepOrderReorders(msgs[1..]);
      if msgs[0].Exec? {
        DeepOrderReorders(msgs[0].inner);
      }
      assert Reordered(msgs[1..], Without(DeepHeaviestFirst(msgs), i));
    }
  }

  lemma CleanWithout(lim: AuthzLimiterDecorator, msgs: seq<Msg>, i: nat, inner: bool)
    requires i < |msgs|
    ensures Acceptance.Clean(lim, msgs, inner) <==>
            Acceptance.CleanMsg(lim, msgs[i], inner) && Acceptance.Clean(lim, Without(msgs, i), inner)
  {
    assert msgs == msgs[..i] + [msgs[i]] + msgs[i + 1..];
    assert forall m :: m in msgs <==> m == msgs[i] || m in Without(msgs, i);
  }

  lemma {:induction false} ReorderedClean(lim: AuthzLimiterDecorator, a: seq<Msg>, b: seq<Msg>, inner: bool)
    requires Reordered(a, b)
    ensures Acceptance.Clean(lim, a, inner) <==> Acceptance.Clean(lim, b, inner)
    decreases a
  {
    if a != [] {
      var i: nat :| i < |b| && Reordered(a[1..], Without(b, i))
                    && if a[0].Exec? then b[i].Exec? && Reordered(a[0].inner, b[i].inner) else a[0] == b[i];
      ReorderedClean(lim, a[1..], Without(b, i), inner);
      if a[0].Exec? {
        ReorderedClean(lim, a[0].inner, b[i].inner, true);
      }
      Acceptance.CleanCons(lim, a, inner);
      CleanWithout(lim, b, i, inner);
    }
  }

  /** If some reordering of a forest, at any depths, is accepted, then the forest with its
      MsgExecs heaviest first at every depth is, and that is a reordering too. */
  lemma BestDeepOrder(lim: AuthzLimiterDecorator, msgs: seq<Msg>, accepted: seq<Msg>, isInner: bool, lvl: int)
    requires Reordered(msgs, accepted) && Accepts(lim, accepted, isInner, lvl)
    ensures Reordered(msgs, DeepHeaviestFirst(msgs))
    ensures Accepts(lim, DeepHeaviestFirst(msgs), isInner, lvl)
  {
    DeepOrderReorders(msgs);
    Acceptance.AcceptedByNeed(lim, accepted, isInner, lvl);
    ReorderedClean(lim, msgs, accepted, isInner);
    ReorderedClean(lim, msgs, DeepHeaviestFirst(msgs), isInner);
    DeepOrderNeedsLeast(msgs, accepted);
    Acceptance.AcceptedByNeed(lim, DeepHeaviestFirst(msgs), isInner, lvl);
  }

  // ----- Where order matters -----

  /** At every level with room for two MsgExecs in a list, some list of two is accepted in one
      order and rejected in the other. */
  lemma OrderMatters(lim: AuthzLimiterDecorator, isInner: bool, lvl: int)
    requires lvl <= lim.maxNestedMsgs - 3
    ensures var heavy, light := Exec(Bounds.Binomial(lim.maxNestedMsgs - 2 - lvl)), Exec([]);
            Accepts(lim, [heavy, light], isInner, lvl) && !Accepts(lim, [light, heavy], isInner, lvl)
  {
    var n: nat := lim.maxNestedMsgs - 2 - lvl;
    var heavy, light := Exec(Bounds.Binomial(n)), Exec([]);
    Bounds.BinomialMeasures(n);
    Bounds.BinomialClean(lim, n, true);
    assert [heavy, light][1..] == [light] && [light, heavy][1..] == [heavy] && [heavy][1..] == [light][1..] == [];
    assert Need([light]) == 1 && Need([heavy]) == n + 1;
    assert Need([heavy, light]) == n + 1 && Need([light, heavy]) == n + 2;
    assert Acceptance.CleanMsg(lim, light, isInner) && Acceptance.CleanMsg(lim, heavy, isInner);
    Acceptance.AcceptedByNeed(lim, [heavy, light], isInner, lvl);
    Acceptance.AcceptedByNeed(lim, [light, heavy], isInner, lvl);
  }

  /** At higher levels the order of a list makes no difference. */
  lemma OrderIrrelevantNearCap(lim: AuthzLimiterDecorator, a: seq<Msg>, b: seq<Msg>, isInner: bool, lvl: int)
    requires multiset(a) == multiset(b) && lvl > lim.maxNestedMsgs - 3
    ensures Accepts(lim, a, isInner, lvl) <==> Accepts(lim, b, isInner, lvl)
  {
    if Accepts(lim, a, isInner, lvl) {
      LoneExecAccepted(lim, a, b, isInner, lvl);
    } else if Accepts(lim, b, isInner, lvl) {
      LoneExecAccepted(lim, b, a, isInner, lvl);
    }
  }

  lemma LoneExecAccepted(lim: AuthzLimiterDecorator, a: seq<Msg>, b: seq<Msg>, isInner: bool, lvl: int)
    requires multiset(a) == multiset(b) && lvl > lim.maxNestedMsgs - 3
    requires Accepts(lim, a, isInner, lvl)
    ensures Accepts(lim, b, isInner, lvl)
  {
    Acceptance.AcceptedByNeed(lim, a, isInner, lvl);
    if HeavyCount(a, 0) > 0 {
      HeavyCountForcesNeed(a, 0);
    }
    HeavyCountPermuted(a, b, 0);
    LoneExecIsHeavyFirst(b);
    BestSiblingOrder(lim, a, a, b, isInner, lvl);
  }

  lemma {:induction false} LoneExecIsHeavyFirst(msgs: seq<Msg>)
    requires HeavyCount(msgs, 0) <= 1
    ensures HeavyFirst(msgs)
    ensures HeavyCount(msgs, 0) == 0 ==> forall m <- msgs :: !m.Exec?
  {
    if msgs != [] {
      LoneExecIsHeavyFirst(msgs[1..]);
      assert forall m :: m in msgs <==> m == msgs[0] || m in msgs[1..];
      forall i, j | 0 <= i < j < |msgs| && msgs[i].Exec? && msgs[j].Exec?
        ensures Need(msgs[i].inner) >= Need(msgs[j].inner)
      {
        assert msgs[j] == msgs[1..][j - 1];
        if i > 0 {
          assert msgs[i] == msgs[1..][i - 1];
        }
      }
    }
  }
}
