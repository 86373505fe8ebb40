// What the limiter accepts, said without its loop: by the pre-order listing of the
// forest, by the weights of its paths, and by the single number Need.
module AuthzAcceptance {
  import opened AuthzLimiter
  import opened Common
  import opened Messages

  // ----- The pre-order listing -----

  /** One node of the forest, the level in force there, and whether it sits inside a MsgExec. */
  datatype Visit = Visit(path: seq<nat>, msg: Msg, level: int, inner: bool)

  /** The nodes of msgs, whose first element has index base in the list at position prefix. */
  ghost function Listing(msgs: seq<Msg>, base: nat, prefix: seq<nat>, lvl: int, inner: bool): seq<Visit> {
    if msgs == [] then []
    else if msgs[0].Exec? then
      [Visit(prefix + [base], msgs[0], lvl + 1, inner)]
      + Listing(msgs[0].inner, 0, prefix + [base], lvl + 1, true)
      + Listing(msgs[1..], base + 1, prefix, lvl + 1, inner)
    else
      [Visit(prefix + [base], msgs[0], lvl, inner)] + Listing(msgs[1..], base + 1, prefix, lvl, inner)
  }

  /** What is wrong with one node, looked at alone. */
  function VisitOutcome(lim: AuthzLimiterDecorator, msg: Msg, level: int, inner: bool): Outcome {
    match msg
    case Exec(_) => if level >= lim.maxNestedMsgs then Fail(TooNested(lim.maxNestedMsgs)) else Pass
    case ExecUndecodable(reason) => Fail(Undecodable(reason))
    case GrantUndecodable(reason) => Fail(Undecodable(reason))
    case Grant(url) => if url in lim.disabledMsgTypes then Fail(DisabledType(url)) else Pass
    case Other(url) => if inner && url in lim.disabledMsgTypes then Fail(DisabledType(url)) else Pass
  }

  ghost function FirstFailure(lim: AuthzLimiterDecorator, visits: seq<Visit>): Outcome {
    if visits == [] then Pass
    else
      var o := VisitOutcome(lim, visits[0].msg, visits[0].level, visits[0].inner);
      if o.Fail? then o else FirstFailure(lim, visits[1..])
  }

  lemma {:induction false} FirstFailureConcat(lim: AuthzLimiterDecorator, a: seq<Visit>, b: seq<Visit>)
    ensures FirstFailure(lim, a + b) ==
            if FirstFailure(lim, a).Fail? then FirstFailure(lim, a) else FirstFailure(lim, b)
  {
    if a == [] {
      assert a + b == b;
    } else {
      assert (a + b)[1..] == a[1..] + b;
      FirstFailureConcat(lim, a[1..], b);
    }
  }

  lemma {:induction false} ScanIsFirstFailure(lim: AuthzLimiterDecorator, msgs: seq<Msg>, base: nat, prefix: seq<nat>,
                                              lvl: int, inner: bool)
    requires lvl < lim.maxNestedMsgs
    ensures Scan(lim, msgs, inner, lvl) == FirstFailure(lim, Listing(msgs, base, prefix, lvl, inner))
    decreases msgs
  {
    if msgs != [] {
      var next := if msgs[0].Exec? then lvl + 1 else lvl;
      var head := [Visit(prefix + [base], msgs[0], next, inner)];
      var rest := Listing(msgs[1..], base + 1, prefix, next, inner);
      if msgs[0].Exec? {
        var below := Listing(msgs[0].inner, 0, prefix + [base], next, true);
        FirstFailureConcat(lim, head + below, rest);
        FirstFailureConcat(lim, head, below);
        if next < lim.maxNestedMsgs {
          ScanIsFirstFailure(lim, msgs[0].inner, 0, prefix + [base], next, true);
          ScanIsFirstFailure(lim, msgs[1..], base + 1, prefix, next, inner);
        }
      } else {
        FirstFailureConcat(lim, head, rest);
        ScanIsFirstFailure(lim, msgs[1..], base + 1, prefix, next, inner);
      }
    }
  }

  /** The check reports the first failure of the pre-order listing, and success when there is none. */
  lemma CheckIsFirstFailure(lim: AuthzLimiterDecorator, msgs: seq<Msg>, isInner: bool, lvl: int)
    ensures Check(lim, msgs, isInner, lvl) ==
            if lvl >= lim.maxNestedMsgs then Fail(TooNested(lim.maxNestedMsgs))
            else FirstFailure(lim, Listing(msgs, 0, [], lvl, isInner))
  {
    if lvl < lim.maxNestedMsgs {
      ScanIsFirstFailure(lim, msgs, 0, [], lvl, isInner);
    }
  }

  // ----- The listing is the pre-order of all nodes, each with its weight -----

  /** The visit of the node at p when the list's first element has index base. */
  ghost function VisitAt(msgs: seq<Msg>, p: seq<nat>, base: nat, prefix: seq<nat>, lvl: int, inner: bool): Visit
    requires ValidPath(msgs, p)
  {
    Visit(prefix + [base + p[0]] + p[1..], At(msgs, p), lvl + PathWeight(msgs, p), inner || |p| > 1)
  }

  lemma {:induction false} VisitAtInTail(msgs: seq<Msg>, p: seq<nat>, base: nat, prefix: seq<nat>, lvl: int,
                                         inner: bool)
    requires p != [] && p[0] > 0 && ValidPath(msgs, p)
    ensures ValidPath(msgs[1..], [p[0] - 1] + p[1..])
    ensures VisitAt(msgs, p, base, prefix, lvl, inner) ==
            VisitAt(msgs[1..], [p[0] - 1] + p[1..], base + 1, prefix, lvl + (if msgs[0].Exec? then 1 else 0), inner)
  {
    PathInTail(msgs, p);
  }

  lemma {:induction false} VisitAtInHead(msgs: seq<Msg>, p: seq<nat>, base: nat, prefix: seq<nat>, lvl: int,
                                         inner: bool)
    requires p != [] && p[0] == 0 && |p| > 1 && ValidPath(msgs, p)
    ensures VisitAt(msgs, p, base, prefix, lvl, inner) ==
            VisitAt(msgs[0].inner, p[1..], 0, prefix + [base], lvl + 1, true)
  {
    var q := p[1..];
    ExecCountOfFirst(msgs);
    assert prefix + [base + p[0]] + p[1..] == prefix + [base] + [0 + q[0]] + q[1..];
  }

  /** Element i of a listing: the head, something below it, or something later in the list. */
  lemma ListingSplit(msgs: seq<Msg>, base: nat, prefix: seq<nat>, lvl: int, inner: bool, i: nat)
    requires i < |Listing(msgs, base, prefix, lvl, inner)|
    ensures msgs != []
    ensures var step := if msgs[0].Exec? then 1 else 0;
            var below := if msgs[0].Exec? then Listing(msgs[0].inner, 0, prefix + [base], lvl + 1, true) else [];
            var rest := Listing(msgs[1..], base + 1, prefix, lvl + step, inner);
            && |Listing(msgs, base, prefix, lvl, inner)| == 1 + |below| + |rest|
            && Listing(msgs, base, prefix, lvl, inner)[i] ==
               if i == 0 then Visit(prefix + [base], msgs[0], lvl + step, inner)
               else if i <= |below| then below[i - 1]
               else rest[i - 1 - |below|]
  {
  }

  lemma VisitAtHead(msgs: seq<Msg>, base: nat, prefix: seq<nat>, lvl: int, inner: bool)
    requires msgs != []
    ensures ValidPath(msgs, [0])
    ensures VisitAt(msgs, [0], base, prefix, lvl, inner) ==
            Visit(prefix + [base], msgs[0], lvl + (if msgs[0].Exec? then 1 else 0), inner)
  {
    var p: seq<nat> := [0];
    ExecCountOfFirst(msgs);
    assert prefix + [base + p[0]] + p[1..] == prefix + [base];
  }

  /** Every node is listed. */
  lemma {:induction false} ListingComplete(msgs: seq<Msg>, p: seq<nat>, base: nat, prefix: seq<nat>, lvl: int,
                                           inner: bool)
    requires ValidPath(msgs, p)
    ensures VisitAt(msgs, p, base, prefix, lvl, inner) in Listing(msgs, base, prefix, lvl, inner)
    decreases msgs
  {
    if p[0] > 0 {
      VisitAtInTail(msgs, p, base, prefix, lvl, inner);
      ListingComplete(msgs[1..], [p[0] - 1] + p[1..], base + 1, prefix,
                      lvl + (if msgs[0].Exec? then 1 else 0), inner);
    } else if |p| > 1 {
      VisitAtInHead(msgs, p, base, prefix, lvl, inner);
      ListingComplete(msgs[0].inner, p[1..], 0, prefix + [base], lvl + 1, true);
    } else {
      assert p == [0];
      VisitAtHead(msgs, base, prefix, lvl, inner);
      ListingSplit(msgs, base, prefix, lvl, inner, 0);
    }
  }

  /** Nothing else is listed. */
  lemma {:induction false} ListingSound(msgs: seq<Msg>, i: nat, base: nat, prefix: seq<nat>, lvl: int, inner: bool)
    returns (p: seq<nat>)
    requires i < |Listing(msgs, base, prefix, lvl, inner)|
    ensures ValidPath(msgs, p)
    ensures Listing(msgs, base, prefix, lvl, inner)[i] == VisitAt(msgs, p, base, prefix, lvl, inner)
    decreases msgs
  {
    var step := if msgs[0].Exec? then 1 else 0;
    var below := if msgs[0].Exec? then Listing(msgs[0].inner, 0, prefix + [base], lvl + 1, true) else [];
    ListingSplit(msgs, base, prefix, lvl, inner, i);
    if i == 0 {
      p := [0];
      VisitAtHead(msgs, base, prefix, lvl, inner);
    } else if i <= |below| {
      var q := ListingSound(msgs[0].inner, i - 1, 0, prefix + [base], lvl + 1, true);
      p := [0] + q;
      assert p[1..] == q;
      VisitAtInHead(msgs, p, base, prefix, lvl, inner);
    } else {
      var q := ListingSound(msgs[1..], i - 1 - |below|, base + 1, prefix, lvl + step, inner);
      p := [q[0] + 1] + q[1..];
      assert [p[0] - 1] + p[1..] == q;
      PathInTail(msgs, p);
      VisitAtInTail(msgs, p, base, prefix, lvl, inner);
    }
  }

  /** path goes through the list at position prefix, at index base or later. */
  ghost predicate Under(prefix: seq<nat>, base: nat, path: seq<nat>) {
    |prefix| < |path| && path[..|prefix|] == prefix && base <= path[|prefix|]
  }

  ghost predicate AllUnder(prefix: seq<nat>, base: nat, visits: seq<Visit>) {
    forall v <- visits :: Under(prefix, base, v.path)
  }

  ghost predicate Ordered(visits: seq<Visit>) {
    forall i, j | 0 <= i < j < |visits| :: LexLess(visits[i].path, visits[j].path)
  }

  lemma ListingUnder(msgs: seq<Msg>, base: nat, prefix: seq<nat>, lvl: int, inner: bool)
    ensures AllUnder(prefix, base, Listing(msgs, base, prefix, lvl, inner))
  {
    var vs := Listing(msgs, base, prefix, lvl, inner);
    forall i | 0 <= i < |vs|
      ensures Under(prefix, base, vs[i].path)
    {
      var p := ListingSound(msgs, i, base, prefix, lvl, inner);
      PathOfVisitAt(msgs, p, base, prefix, lvl, inner);
    }
  }

  lemma PathOfVisitAt(msgs: seq<Msg>, p: seq<nat>, base: nat, prefix: seq<nat>, lvl: int, inner: bool)
    requires ValidPath(msgs, p)
    ensures Under(prefix, base, VisitAt(msgs, p, base, prefix, lvl, inner).path)
  {
  }

  lemma VisitAtTop(msgs: seq<Msg>, p: seq<nat>, lvl: int, inner: bool)
    requires ValidPath(msgs, p)
    ensures VisitAt(msgs, p, 0, [], lvl, inner) ==
            Visit(p, At(msgs, p), lvl + PathWeight(msgs, p), inner || |p| > 1)
  {
  }

  lemma HeadBeforeBelow(prefix: seq<nat>, base: nat, path: seq<nat>)
    requires Under(prefix + [base], 0, path)
    ensures LexLess(prefix + [base], path)
  {
    assert LexAt(prefix + [base], path, |prefix| + 1);
  }

  lemma BelowBeforeRest(prefix: seq<nat>, base: nat, p: seq<nat>, q: seq<nat>)
    requires (p == prefix + [base] || Under(prefix + [base], 0, p)) && Under(prefix, base + 1, q)
    ensures LexLess(p, q)
  {
    assert p[..|prefix| + 1] == prefix + [base];
    assert p[..|prefix|] == p[..|prefix| + 1][..|prefix|] == prefix;
    assert p[|prefix|] == p[..|prefix| + 1][|prefix|] == base;
    assert LexAt(p, q, |prefix|);
  }

  lemma OrderedConcat(a: seq<Visit>, b: seq<Visit>)
    requires Ordered(a) && Ordered(b)
    requires forall v <- a, w <- b :: LexLess(v.path, w.path)
    ensures Ordered(a + b)
  {
  }

  lemma OrderedForest(head: Visit, below: seq<Visit>, rest: seq<Visit>, prefix: seq<nat>, base: nat)
    requires head.path == prefix + [base]
    requires Ordered(below) && AllUnder(prefix + [base], 0, below)
    requires Ordered(rest) && AllUnder(prefix, base + 1, rest)
    ensures Ordered([head] + below + rest)
  {
    forall v <- below ensures LexLess(head.path, v.path) {
      HeadBeforeBelow(prefix, base, v.path);
    }
    OrderedConcat([head], below);
    forall v <- [head] + below, w <- rest ensures LexLess(v.path, w.path) {
      BelowBeforeRest(prefix, base, v.path, w.path);
    }
    OrderedConcat([head] + below, rest);
  }

  /** The listing is in lexicographic order of positions: pre-order, each node once. */
  lemma {:induction false} ListingOrdered(msgs: seq<Msg>, base: nat, prefix: seq<nat>, lvl: int, inner: bool)
    ensures Ordered(Listing(msgs, base, prefix, lvl, inner))
    decreases msgs
  {
    if msgs == [] {
    } else if msgs[0].Exec? {
      var below := Listing(msgs[0].inner, 0, prefix + [base], lvl + 1, true);
      var rest := Listing(msgs[1..], base + 1, prefix, lvl + 1, inner);
      ListingOrdered(msgs[0].inner, 0, prefix + [base], lvl + 1, true);
      ListingUnder(msgs[0].inner, 0, prefix + [base], lvl + 1, true);
      ListingOrdered(msgs[1..], base + 1, prefix, lvl + 1, inner);
      ListingUnder(msgs[1..], base + 1, prefix, lvl + 1, inner);
      OrderedForest(Visit(prefix + [base], msgs[0], lvl + 1, inner), below, rest, prefix, base);
    } else {
      var rest := Listing(msgs[1..], base + 1, prefix, lvl, inner);
      ListingOrdered(msgs[1..], base + 1, prefix, lvl, inner);
      ListingUnder(msgs[1..], base + 1, prefix, lvl, inner);
      var head := Visit(prefix + [base], msgs[0], lvl, inner);
      OrderedForest(head, [], rest, prefix, base);
      assert [head] + [] + rest == [head] + rest;
    }
  }

  /** For a whole list the listing holds each node's own position... */
  lemma ListedOnlyNodes(msgs: seq<Msg>, lvl: int, isInner: bool, v: Visit)
    requires v in Listing(msgs, 0, [], lvl, isInner)
    ensures ValidPath(msgs, v.path)
    ensures v == Visit(v.path, At(msgs, v.path), lvl + PathWeight(msgs, v.path), isInner || |v.path| > 1)
  {
    var i: nat :| i < |Listing(msgs, 0, [], lvl, isInner)| && Listing(msgs, 0, [], lvl, isInner)[i] == v;
    var p := ListingSound(msgs, i, 0, [], lvl, isInner);
    VisitAtTop(msgs, p, lvl, isInner);
  }

  /** ...and every node is there. */
  lemma ListedEveryNode(msgs: seq<Msg>, lvl: int, isInner: bool, p: seq<nat>)
    requires ValidPath(msgs, p)
    ensures Visit(p, At(msgs, p), lvl + PathWeight(msgs, p), isInner || |p| > 1) in Listing(msgs, 0, [], lvl, isInner)
  {
    ListingComplete(msgs, p, 0, [], lvl, isInner);
    VisitAtTop(msgs, p, lvl, isInner);
  }

  // ----- Acceptance by paths -----

  /** A node at weight w is harmless when the list was entered at level lvl. */
  ghost predicate NodeOk(lim: AuthzLimiterDecorator, msg: Msg, level: int, inner: bool) {
    match msg
    case Exec(_) => level <= lim.maxNestedMsgs - 1
    case ExecUndecodable(_) => false
    case GrantUndecodable(_) => false
    case Grant(url) => url !in lim.disabledMsgTypes
    case Other(url) => inner ==> url !in lim.disabledMsgTypes
  }

  lemma {:induction false} PassesWhenAllPass(lim: AuthzLimiterDecorator, visits: seq<Visit>)
    ensures FirstFailure(lim, visits).Pass? <==> forall v <- visits :: NodeOk(lim, v.msg, v.level, v.inner)
  {
    if visits != [] {
      PassesWhenAllPass(lim, visits[1..]);
      assert visits == [visits[0]] + visits[1..];
    }
  }

  lemma AcceptedNodesOk(lim: AuthzLimiterDecorator, msgs: seq<Msg>, isInner: bool, lvl: int, p: seq<nat>)
    requires Accepts(lim, msgs, isInner, lvl) && ValidPath(msgs, p)
    ensures NodeOk(lim, At(msgs, p), lvl + PathWeight(msgs, p), isInner || |p| > 1)
  {
    CheckIsFirstFailure(lim, msgs, isInner, lvl);
    PassesWhenAllPass(lim, Listing(msgs, 0, [], lvl, isInner));
    ListedEveryNode(msgs, lvl, isInner, p);
  }

  lemma RejectedHasBadVisit(lim: AuthzLimiterDecorator, msgs: seq<Msg>, isInner: bool, lvl: int) returns (v: Visit)
    requires !Accepts(lim, msgs, isInner, lvl) && lvl < lim.maxNestedMsgs
    ensures v in Listing(msgs, 0, [], lvl, isInner) && !NodeOk(lim, v.msg, v.level, v.inner)
  {
    var vs := Listing(msgs, 0, [], lvl, isInner);
    CheckIsFirstFailure(lim, msgs, isInner, lvl);
    PassesWhenAllPass(lim, vs);
    v :| v in vs && !NodeOk(lim, v.msg, v.level, v.inner);
  }

  lemma RejectedHasBadNode(lim: AuthzLimiterDecorator, msgs: seq<Msg>, isInner: bool, lvl: int) returns (p: seq<nat>)
    requires !Accepts(lim, msgs, isInner, lvl) && lvl < lim.maxNestedMsgs
    ensures ValidPath(msgs, p)
    ensures !NodeOk(lim, At(msgs, p), lvl + PathWeight(msgs, p), isInner || |p| > 1)
  {
    var v := RejectedHasBadVisit(lim, msgs, isInner, lvl);
    ListedOnlyNodes(msgs, lvl, isInner, v);
    p := v.path;
  }

  /** Acceptance, node by node: the entry level is below the cap, every payload decodes, no
      grant names a disabled type, no disabled leaf is inside a MsgExec, and at every MsgExec
      the entry level plus the path weight stays below the cap. */
  lemma AcceptedByPaths(lim: AuthzLimiterDecorator, msgs: seq<Msg>, isInner: bool, lvl: int)
    ensures Accepts(lim, msgs, isInner, lvl) <==>
            && lvl < lim.maxNestedMsgs
            && forall p | ValidPath(msgs, p) ::
                 NodeOk(lim, At(msgs, p), lvl + PathWeight(msgs, p), isInner || |p| > 1)
  {
    if Accepts(lim, msgs, isInner, lvl) {
      forall p | ValidPath(msgs, p)
        ensures NodeOk(lim, At(msgs, p), lvl + PathWeight(msgs, p), isInner || |p| > 1)
      {
        AcceptedNodesOk(lim, msgs, isInner, lvl, p);
      }
    } else if lvl < lim.maxNestedMsgs {
      var p := RejectedHasBadNode(lim, msgs, isInner, lvl);
    }
  }

  // ----- The error of a rejection -----

  /** The error is the one that this node, at this level, calls for. */
  ghost predicate Explains(lim: AuthzLimiterDecorator, msg: Msg, level: int, inner: bool, e: CheckError) {
    match e
    case TooNested(limit) => msg.Exec? && limit == lim.maxNestedMsgs <= level
    case Undecodable(reason) => msg == ExecUndecodable(reason) || msg == GrantUndecodable(reason)
    case DisabledType(url) => url in lim.disabledMsgTypes && (msg == Grant(url) || (inner && msg == Other(url)))
  }

  /** The node at p explains the error, and there is nothing wrong with any node before it. */
  ghost predicate FirstWrong(lim: AuthzLimiterDecorator, msgs: seq<Msg>, isInner: bool, lvl: int, p: seq<nat>,
                             e: CheckError)
  {
    && ValidPath(msgs, p)
    && Explains(lim, At(msgs, p), lvl + PathWeight(msgs, p), isInner || |p| > 1, e)
    && forall q | ValidPath(msgs, q) && LexLess(q, p) ::
         NodeOk(lim, At(msgs, q), lvl + PathWeight(msgs, q), isInner || |q| > 1)
  }

  lemma {:induction false} FirstFailureAt(lim: AuthzLimiterDecorator, visits: seq<Visit>) returns (i: nat)
    requires FirstFailure(lim, visits).Fail?
    ensures i < |visits|
    ensures VisitOutcome(lim, visits[i].msg, visits[i].level, visits[i].inner) == FirstFailure(lim, visits)
    ensures forall j | 0 <= j < i :: NodeOk(lim, visits[j].msg, visits[j].level, visits[j].inner)
  {
    if VisitOutcome(lim, visits[0].msg, visits[0].level, visits[0].inner).Fail? {
      i := 0;
    } else {
      var k := FirstFailureAt(lim, visits[1..]);
      i := k + 1;
    }
  }

  lemma ListedBefore(visits: seq<Visit>, j: nat, i: nat)
    requires Ordered(visits) && j < |visits| && i < |visits| && LexLess(visits[j].path, visits[i].path)
    ensures j < i
  {
    LexIrreflexive(visits[i].path);
    if i < j {
      LexTransitive(visits[i].path, visits[j].path, visits[i].path);
    }
  }

  lemma NodeListed(msgs: seq<Msg>, isInner: bool, lvl: int, q: seq<nat>)
    returns (j: nat)
    requires ValidPath(msgs, q)
    ensures var visits := Listing(msgs, 0, [], lvl, isInner);
            j < |visits| && visits[j] == Visit(q, At(msgs, q), lvl + PathWeight(msgs, q), isInner || |q| > 1)
  {
    ListedEveryNode(msgs, lvl, isInner, q);
    j :| 0 <= j < |Listing(msgs, 0, [], lvl, isInner)|
      && Listing(msgs, 0, [], lvl, isInner)[j] == Visit(q, At(msgs, q), lvl + PathWeight(msgs, q), isInner || |q| > 1);
  }

  lemma EarlierNodeOk(lim: AuthzLimiterDecorator, msgs: seq<Msg>, isInner: bool, lvl: int, i: nat, q: seq<nat>)
    requires i < |Listing(msgs, 0, [], lvl, isInner)|
    requires forall j | 0 <= j < i ::
               var v := Listing(msgs, 0, [], lvl, isInner)[j]; NodeOk(lim, v.msg, v.level, v.inner)
    requires ValidPath(msgs, q) && LexLess(q, Listing(msgs, 0, [], lvl, isInner)[i].path)
    ensures NodeOk(lim, At(msgs, q), lvl + PathWeight(msgs, q), isInner || |q| > 1)
  {
    var j := NodeListed(msgs, isInner, lvl, q);
    ListingOrdered(msgs, 0, [], lvl, isInner);
    ListedBefore(Listing(msgs, 0, [], lvl, isInner), j, i);
  }

  lemma OutcomeExplained(lim: AuthzLimiterDecorator, msg: Msg, level: int, inner: bool)
    requires VisitOutcome(lim, msg, level, inner).Fail?
    ensures Explains(lim, msg, level, inner, VisitOutcome(lim, msg, level, inner).error)
  {
  }

  /** A rejection by the loop carries the error of the first node, in pre-order, that has
      anything wrong with it. */
  lemma RejectedByFirstWrong(lim: AuthzLimiterDecorator, msgs: seq<Msg>, isInner: bool, lvl: int) returns (p: seq<nat>)
    requires !Accepts(lim, msgs, isInner, lvl) && lvl < lim.maxNestedMsgs
    ensures FirstWrong(lim, msgs, isInner, lvl, p, Check(lim, msgs, isInner, lvl).error)
  {
    var visits := Listing(msgs, 0, [], lvl, isInner);
    CheckIsFirstFailure(lim, msgs, isInner, lvl);
    var i := FirstFailureAt(lim, visits);
    var v := visits[i];
    p := v.path;
    OutcomeExplained(lim, v.msg, v.level, v.inner);
    ListedOnlyNodes(msgs, lvl, isInner, v);
    forall q | ValidPath(msgs, q) && LexLess(q, p)
      ensures NodeOk(lim, At(msgs, q), lvl + PathWeight(msgs, q), isInner || |q| > 1)
    {
      EarlierNodeOk(lim, msgs, isInner, lvl, i, q);
    }
  }

  // ----- Acceptance by one number -----

  /** Nothing in the message is disabled where it stands, and every payload decodes. */
  ghost predicate CleanMsg(lim: AuthzLimiterDecorator, msg: Msg, inner: bool) {
    match msg
    case Exec(msgs) => forall m <- msgs :: CleanMsg(lim, m, true)
    case ExecUndecodable(_) => false
    case GrantUndecodable(_) => false
    case Grant(url) => url !in lim.disabledMsgTypes
    case Other(url) => inner ==> url !in lim.disabledMsgTypes
  }

  ghost predicate Clean(lim: AuthzLimiterDecorator, msgs: seq<Msg>, inner: bool) {
    forall m <- msgs :: CleanMsg(lim, m, inner)
  }

  lemma CleanCons(lim: AuthzLimiterDecorator, msgs: seq<Msg>, inner: bool)
    requires msgs != []
    ensures Clean(lim, msgs, inner) <==> CleanMsg(lim, msgs[0], inner) && Clean(lim, msgs[1..], inner)
    ensures msgs[0].Exec? ==> (CleanMsg(lim, msgs[0], inner) <==> Clean(lim, msgs[0].inner, true))
  {
  }

  /** Acceptance is cleanliness, which ignores levels and order, plus one inequality. */
  lemma {:induction false} AcceptedByNeed(lim: AuthzLimiterDecorator, msgs: seq<Msg>, isInner: bool, lvl: int)
    ensures Accepts(lim, msgs, isInner, lvl) <==>
            Clean(lim, msgs, isInner) && lvl + Need(msgs) <= lim.maxNestedMsgs - 1
    decreases msgs
  {
    if msgs != [] {
      CleanCons(lim, msgs, isInner);
      if msgs[0].Exec? {
        AcceptedByNeed(lim, msgs[0].inner, true, lvl + 1);
        AcceptedByNeed(lim, msgs[1..], isInner, lvl + 1);
      } else {
        AcceptedByNeed(lim, msgs[1..], isInner, lvl);
      }
    }
  }

  /** No MsgExec lies on a path heavier than Need... */
  lemma {:induction false} NeedBoundsWeights(msgs: seq<Msg>, p: seq<nat>)
    requires ValidPath(msgs, p) && At(msgs, p).Exec?
    ensures 1 <= PathWeight(msgs, p) <= Need(msgs)
    decreases msgs
  {
    ExecCountOfFirst(msgs);
    if p[0] > 0 {
      PathInTail(msgs, p);
      NeedBoundsWeights(msgs[1..], [p[0] - 1] + p[1..]);
    } else if |p| > 1 {
      NeedBoundsWeights(msgs[0].inner, p[1..]);
    }
  }

  /** ...and some MsgExec lies on a path exactly that heavy. */
  lemma {:induction false} NeedAttained(msgs: seq<Msg>) returns (p: seq<nat>)
    requires Need(msgs) > 0
    ensures ValidPath(msgs, p) && At(msgs, p).Exec? && PathWeight(msgs, p) == Need(msgs)
  {
    ExecCountOfFirst(msgs);
    if msgs[0].Exec? && Need(msgs[0].inner) >= Need(msgs[1..]) {
      if Need(msgs[0].inner) == 0 {
        p := [0];
      } else {
        var q := NeedAttained(msgs[0].inner);
        p := [0] + q;
        assert p[1..] == q;
      }
    } else {
      var q := NeedAttained(msgs[1..]);
      p := [q[0] + 1] + q[1..];
      assert [p[0] - 1] + p[1..] == q;
      PathInTail(msgs, p);
    }
  }

  /** Need is the maximum over the list's MsgExecs of their rank plus the need of their inner list. */
  lemma {:induction false} NeedByRank(msgs: seq<Msg>, i: nat)
    requires i < |msgs| && msgs[i].Exec?
    ensures ExecCount(msgs[..i + 1]) + Need(msgs[i].inner) <= Need(msgs)
  {
    if i == 0 {
      ExecCountOfFirst(msgs);
    } else {
      NeedByRank(msgs[1..], i - 1);
      assert msgs[..i + 1][1..] == msgs[1..][..i];
    }
  }

  lemma {:induction false} NeedByRankAttained(msgs: seq<Msg>) returns (i: nat)
    requires Need(msgs) > 0
    ensures i < |msgs| && msgs[i].Exec? && ExecCount(msgs[..i + 1]) + Need(msgs[i].inner) == Need(msgs)
  {
    if msgs[0].Exec? && Need(msgs[0].inner) >= Need(msgs[1..]) {
      i := 0;
      ExecCountOfFirst(msgs);
    } else {
      var k := NeedByRankAttained(msgs[1..]);
      i := k + 1;
      assert msgs[..i + 1][1..] == msgs[1..][..i];
    }
  }
}
