// The authz limiter: a recursive check over the message forest whose level counter
// is advanced inside the loop over siblings.
module AuthzLimiter {
  import opened Messages

  datatype CheckError =
    | TooNested(limit: int)
    | Undecodable(reason: string)
    | DisabledType(url: string)

  datatype Outcome = Pass | Fail(error: CheckError)

  const MAX_NESTED_MSGS := 7

  function NewAuthzLimiterDecorator(disabledMsgTypes: seq<string>): AuthzLimiterDecorator {
    AuthzLimiterDecorator(disabledMsgTypes, MAX_NESTED_MSGS)
  }

  /** The decorator's state. The cap is a field so that results hold for every cap. */
  datatype AuthzLimiterDecorator = AuthzLimiterDecorator(disabledMsgTypes: seq<string>, maxNestedMsgs: int) {

    method IsDisabledMsg(msgTypeURL: string) returns (found: bool)
      ensures found <==> msgTypeURL in disabledMsgTypes
    {
      for i := 0 to |disabledMsgTypes|
        invariant msgTypeURL !in disabledMsgTypes[..i]
      {
        if msgTypeURL == disabledMsgTypes[i] {
          return true;
        }
      }
      return false;
    }

    /** The check as a loop with recursion. The recursion terminates because the level
        of an inner call is above the level of entry; "calls" counts invocations. */
    method CheckDisabledMsgs(msgs: seq<Msg>, isAuthzInnerMsg: bool, entryLvl: int)
      returns (r: Outcome, ghost calls: nat)
      ensures r == Check(this, msgs, isAuthzInnerMsg, entryLvl)
      ensures calls == Invocations(this, msgs, entryLvl, isAuthzInnerMsg)
      decreases maxNestedMsgs - entryLvl
    {
      calls := 1;
      if entryLvl >= maxNestedMsgs {
        return Fail(TooNested(maxNestedMsgs)), calls;
      }
      var nestedLvl := entryLvl;
      for i := 0 to |msgs|
        invariant entryLvl <= nestedLvl < maxNestedMsgs
        invariant Scan(this, msgs, isAuthzInnerMsg, entryLvl) == Scan(this, msgs[i..], isAuthzInnerMsg, nestedLvl)
        invariant LoopInvocations(this, msgs, entryLvl, isAuthzInnerMsg)
               == calls - 1 + LoopInvocations(this, msgs[i..], nestedLvl, isAuthzInnerMsg)
      {
        assert msgs[i..][0] == msgs[i] && msgs[i..][1..] == msgs[i + 1..];
        match msgs[i] {
          case ExecUndecodable(reason) =>
            return Fail(Undecodable(reason)), calls;
          case Exec(innerMsgs) =>
            nestedLvl := nestedLvl + 1;
            var err, innerCalls := CheckDisabledMsgs(innerMsgs, true, nestedLvl);
            calls := calls + innerCalls;
            if err.Fail? {
              return err, calls;
            }
          case GrantUndecodable(reason) =>
            return Fail(Undecodable(reason)), calls;
          case Grant(url) =>
            var disabled := IsDisabledMsg(url);
            if disabled {
              return Fail(DisabledType(url)), calls;
            }
          case Other(url) =>
            if isAuthzInnerMsg {
              var disabled := IsDisabledMsg(url);
              if disabled {
                return Fail(DisabledType(url)), calls;
              }
            }
        }
      }
      return Pass, calls;
    }
  }

  /** What CheckDisabledMsgs returns. */
  function Check(lim: AuthzLimiterDecorator, msgs: seq<Msg>, isInner: bool, lvl: int): Outcome
    decreases msgs, 1
  {
    if lvl >= lim.maxNestedMsgs then Fail(TooNested(lim.maxNestedMsgs)) else Scan(lim, msgs, isInner, lvl)
  }

  /** What its loop returns from the given remaining messages and current level. */
  function Scan(lim: AuthzLimiterDecorator, msgs: seq<Msg>, isInner: bool, lvl: int): Outcome
    decreases msgs, 0
  {
    if msgs == [] then Pass
    else
      match msgs[0]
      case ExecUndecodable(reason) => Fail(Undecodable(reason))
      case GrantUndecodable(reason) => Fail(Undecodable(reason))
      case Exec(inner) =>
        var err := Check(lim, inner, true, lvl + 1);
        if err.Fail? then err else Scan(lim, msgs[1..], isInner, lvl + 1)
      case Grant(url) =>
        if url in lim.disabledMsgTypes then Fail(DisabledType(url)) else Scan(lim, msgs[1..], isInner, lvl)
      case Other(url) =>
        if isInner && url in lim.disabledMsgTypes then Fail(DisabledType(url))
        else Scan(lim, msgs[1..], isInner, lvl)
  }

  /** Number of invocations of the check, the outermost one included. */
  ghost function Invocations(lim: AuthzLimiterDecorator, msgs: seq<Msg>, lvl: int, isInner: bool): nat
    decreases msgs, 1
  {
    1 + if lvl >= lim.maxNestedMsgs then 0 else LoopInvocations(lim, msgs, lvl, isInner)
  }

  /** Number of invocations made by the loop, stopping where the loop returns early. */
  ghost function LoopInvocations(lim: AuthzLimiterDecorator, msgs: seq<Msg>, lvl: int, isInner: bool): nat
    decreases msgs, 0
  {
    if msgs == [] then 0
    else
      match msgs[0]
      case ExecUndecodable(_) => 0
      case GrantUndecodable(_) => 0
      case Exec(inner) =>
        Invocations(lim, inner, lvl + 1, true)
        + if Check(lim, inner, true, lvl + 1).Fail? then 0 else LoopInvocations(lim, msgs[1..], lvl + 1, isInner)
      case Grant(url) =>
        if url in lim.disabledMsgTypes then 0 else LoopInvocations(lim, msgs[1..], lvl, isInner)
      case Other(url) =>
        if isInner && url in lim.disabledMsgTypes then 0 else LoopInvocations(lim, msgs[1..], lvl, isInner)
  }

  ghost predicate Accepts(lim: AuthzLimiterDecorator, msgs: seq<Msg>, isInner: bool, lvl: int)
    ensures Accepts(lim, msgs, isInner, lvl) <==> lvl < lim.maxNestedMsgs && Scan(lim, msgs, isInner, lvl).Pass?
  {
    Check(lim, msgs, isInner, lvl).Pass?
  }

  /** Concatenation: the second list starts at the level the first one has used up. */
  lemma {:induction false} ScanConcat(lim: AuthzLimiterDecorator, a: seq<Msg>, b: seq<Msg>, isInner: bool, lvl: int)
    requires lvl < lim.maxNestedMsgs
    ensures Scan(lim, a + b, isInner, lvl) ==
            if Scan(lim, a, isInner, lvl).Fail? then Scan(lim, a, isInner, lvl)
            else Scan(lim, b, isInner, lvl + ExecCount(a))
    ensures LoopInvocations(lim, a + b, lvl, isInner) == LoopInvocations(lim, a, lvl, isInner) +
            if Scan(lim, a, isInner, lvl).Fail? then 0
            else LoopInvocations(lim, b, lvl + ExecCount(a), isInner)
    ensures Scan(lim, a, isInner, lvl).Pass? ==> lvl + ExecCount(a) < lim.maxNestedMsgs
  {
    if a == [] {
      assert a + b == b;
    } else {
      assert (a + b)[0] == a[0] && (a + b)[1..] == a[1..] + b;
      if a[0].Exec? {
        if Check(lim, a[0].inner, true, lvl + 1).Pass? {
          ScanConcat(lim, a[1..], b, isInner, lvl + 1);
        }
      } else {
        ScanConcat(lim, a[1..], b, isInner, lvl);
      }
    }
  }

  lemma CheckConcat(lim: AuthzLimiterDecorator, a: seq<Msg>, b: seq<Msg>, isInner: bool, lvl: int)
    ensures Check(lim, a + b, isInner, lvl) ==
            if Check(lim, a, isInner, lvl).Fail? then Check(lim, a, isInner, lvl)
            else Check(lim, b, isInner, lvl + ExecCount(a))
    ensures Accepts(lim, a, isInner, lvl) ==> lvl + ExecCount(a) < lim.maxNestedMsgs
  {
    if lvl < lim.maxNestedMsgs {
      ScanConcat(lim, a, b, isInner, lvl);
    }
  }
}
