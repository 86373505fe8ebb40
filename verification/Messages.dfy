// Transactions carry a list of messages. A MsgExec carries a further list, so a
// transaction is a forest. This module holds the forest and its measures.
module Messages {
  import opened Common

  /** An sdk.Msg as the authz limiter sees it. Unpacking the payload of a MsgExec
      or a MsgGrant can fail; every other message only shows its type URL. */
  datatype Msg =
    | Exec(inner: seq<Msg>)
    | ExecUndecodable(reason: string)
    | Grant(url: string)
    | GrantUndecodable(reason: string)
    | Other(url: string)

  /** Number of (decodable) MsgExecs in the list itself. */
  function ExecCount(msgs: seq<Msg>): nat {
    if msgs == [] then 0
    else (if msgs[0].Exec? then 1 else 0) + ExecCount(msgs[1..])
  }

  /** Number of MsgExecs at all depths. */
  function TotalExecs(msgs: seq<Msg>): nat {
    if msgs == [] then 0
    else (if msgs[0].Exec? then 1 + TotalExecs(msgs[0].inner) else 0) + TotalExecs(msgs[1..])
  }

  /** How many levels the forest consumes: the height of the binary tree whose left
      child is "first inner MsgExec" and whose right child is "next MsgExec sibling". */
  function Need(msgs: seq<Msg>): nat {
    if msgs == [] then 0
    else if msgs[0].Exec? then 1 + Max(Need(msgs[0].inner), Need(msgs[1..]))
    else Need(msgs[1..])
  }

  /** Nesting depth of MsgExecs. */
  function Depth(msgs: seq<Msg>): nat {
    if msgs == [] then 0
    else Max(if msgs[0].Exec? then 1 + Depth(msgs[0].inner) else 0, Depth(msgs[1..]))
  }

  // ----- Positions in the forest -----

  /** A path names a node by its index in each list from the root. */
  ghost predicate ValidPath(msgs: seq<Msg>, p: seq<nat>) {
    && p != []
    && p[0] < |msgs|
    && (|p| > 1 ==> msgs[p[0]].Exec? && ValidPath(msgs[p[0]].inner, p[1..]))
  }

  ghost function At(msgs: seq<Msg>, p: seq<nat>): Msg
    requires ValidPath(msgs, p)
  {
    if |p| == 1 then msgs[p[0]] else At(msgs[p[0]].inner, p[1..])
  }

  /** Sum over the path of the 1-based rank of each step among the MsgExecs of its list. */
  ghost function PathWeight(msgs: seq<Msg>, p: seq<nat>): nat
    requires ValidPath(msgs, p)
  {
    ExecCount(msgs[..p[0] + 1]) + if |p| == 1 then 0 else PathWeight(msgs[p[0]].inner, p[1..])
  }

  lemma ExecCountOfFirst(msgs: seq<Msg>)
    requires msgs != []
    ensures ExecCount(msgs[..1]) == if msgs[0].Exec? then 1 else 0
  {
  }

  /** Moving a path one place to the right shifts its weight by the list's first message. */
  lemma {:induction false} PathInTail(msgs: seq<Msg>, p: seq<nat>)
    requires msgs != [] && p != [] && p[0] > 0
    ensures ValidPath(msgs, p) <==> ValidPath(msgs[1..], [p[0] - 1] + p[1..])
    ensures ValidPath(msgs, p) ==>
              && At(msgs, p) == At(msgs[1..], [p[0] - 1] + p[1..])
              && PathWeight(msgs, p) ==
                 (if msgs[0].Exec? then 1 else 0) + PathWeight(msgs[1..], [p[0] - 1] + p[1..])
  {
    var q := [p[0] - 1] + p[1..];
    assert q[1..] == p[1..];
    if p[0] < |msgs| {
      assert msgs[1..][q[0]] == msgs[p[0]];
      assert msgs[..p[0] + 1][1..] == msgs[1..][..q[0] + 1];
    }
  }
}
