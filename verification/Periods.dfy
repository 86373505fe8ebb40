// The period records of F1 fee distribution: which period each validator is in, how often
// each ended period is referred to, and from which period each delegation starts.
module Periods {
  import opened Common
  import opened Staking

  datatype StartingInfo = StartingInfo(previousPeriod: nat, height: int)

  datatype Books = Books(
    period: map<Addr, nat>,                     // the current period of each validator
    historical: map<(Addr, nat), nat>,          // (validator, period) to reference count
    starting: map<(Addr, Addr), StartingInfo>,  // by (validator, delegator)
    slashEvents: map<(Addr, nat), nat>)         // (validator, number of the event) to period

  function RefsAt(historical: map<(Addr, nat), nat>, v: Addr, p: nat): nat {
    if (v, p) in historical then historical[(v, p)] else 0
  }

  // ----- The keeper's steps -----

  /** A record whose count drops to zero is deleted; there is no going below zero. */
  function Unref(historical: map<(Addr, nat), nat>, v: Addr, p: nat): Option<map<(Addr, nat), nat>> {
    if RefsAt(historical, v, p) == 0 then None
    else if RefsAt(historical, v, p) == 1 then Some(historical - {(v, p)})
    else Some(historical[(v, p) := RefsAt(historical, v, p) - 1])
  }

  /** The keeper panics when there are more than two references already. */
  function AddRef(historical: map<(Addr, nat), nat>, v: Addr, p: nat): Option<map<(Addr, nat), nat>> {
    if RefsAt(historical, v, p) > 2 then None
    else Some(historical[(v, p) := RefsAt(historical, v, p) + 1])
  }

  /** The current period moves its reference from the last ended period to itself and ends. */
  function EndPeriod(b: Books, v: Addr): Option<Books> {
    if v !in b.period || b.period[v] == 0 then None
    else
      var refs :- Unref(b.historical, v, b.period[v] - 1);
      Some(b.(historical := refs[(v, b.period[v]) := 1], period := b.period[v := b.period[v] + 1]))
  }

  /** A delegation starts from the last ended period. */
  function Track(b: Books, v: Addr, del: Addr, height: int): Option<Books> {
    if v !in b.period || b.period[v] == 0 then None
    else
      var refs :- AddRef(b.historical, v, b.period[v] - 1);
      Some(b.(historical := refs, starting := b.starting[(v, del) := StartingInfo(b.period[v] - 1, height)]))
  }

  function Untrack(b: Books, v: Addr, del: Addr): Option<Books> {
    if (v, del) !in b.starting then None
    else
      var refs :- Unref(b.historical, v, b.starting[(v, del)].previousPeriod);
      Some(b.(historical := refs, starting := b.starting - {(v, del)}))
  }

  /** A validator starts afresh in period 1, with one reference to period 0. */
  function Renew(b: Books, v: Addr): Books {
    b.(historical := b.historical[(v, 0) := 1], period := b.period[v := 1])
  }

  // ----- The reference-count invariant -----

  /** The tracked delegations to v that start at the end of period p. */
  ghost function Trackers(b: Books, tracked: set<(Addr, Addr)>, v: Addr, p: nat): set<(Addr, Addr)> {
    set k | k in tracked && k in b.starting && k.0 == v && b.starting[k].previousPeriod == p
  }

  ghost function SlashRefs(b: Books, v: Addr, p: nat): set<(Addr, nat)> {
    set e | e in b.slashEvents && e.0 == v && b.slashEvents[e] == p
  }

  /** References that period p of validator v ought to have: one per tracked delegation that
      starts there, one per slash event, and one if it is the last period ended. */
  ghost function ExpectedRefs(b: Books, tracked: set<(Addr, Addr)>, v: Addr, p: nat): nat {
    |Trackers(b, tracked, v, p)| + |SlashRefs(b, v, p)|
    + if v in b.period && b.period[v] == p + 1 then 1 else 0
  }

  ghost predicate PeriodsOk(b: Books, vals: set<Addr>, tracked: set<(Addr, Addr)>) {
    && (forall v <- vals :: v in b.period && b.period[v] >= 1)
    && (forall k <- tracked :: k in b.starting && k.0 in vals && b.starting[k].previousPeriod < b.period[k.0])
    && (forall e <- b.slashEvents.Keys | e.0 in vals :: b.slashEvents[e] < b.period[e.0])
  }

  ghost predicate CountsOk(b: Books, vals: set<Addr>, tracked: set<(Addr, Addr)>) {
    forall v, p: nat | v in vals :: RefsAt(b.historical, v, p) == ExpectedRefs(b, tracked, v, p)
  }

  /** Every historical record counts exactly its references. */
  ghost predicate RefsOk(b: Books, vals: set<Addr>, tracked: set<(Addr, Addr)>) {
    PeriodsOk(b, vals, tracked) && CountsOk(b, vals, tracked)
  }

  /** Ending a period succeeds, keeps the counts right and leaves one reference to that period. */
  lemma EndPeriodWorks(b: Books, v: Addr, vals: set<Addr>, tracked: set<(Addr, Addr)>)
    requires RefsOk(b, vals, tracked) && v in vals
    ensures EndPeriod(b, v).Some?
    ensures var b' := EndPeriod(b, v).value;
            && RefsOk(b', vals, tracked) && b'.starting == b.starting
            && b'.period[v] == b.period[v] + 1 && RefsAt(b'.historical, v, b.period[v]) == 1
  {
    assert RefsAt(b.historical, v, b.period[v] - 1) == ExpectedRefs(b, tracked, v, b.period[v] - 1);
    var b' := EndPeriod(b, v).value;
    forall w, p: nat | w in vals
      ensures RefsAt(b'.historical, w, p) == ExpectedRefs(b', tracked, w, p)
    {
      assert RefsAt(b.historical, w, p) == ExpectedRefs(b, tracked, w, p);
      assert Trackers(b', tracked, w, p) == Trackers(b, tracked, w, p);
      assert SlashRefs(b', w, p) == SlashRefs(b, w, p);
      if w == v && p == b.period[v] {
        assert Trackers(b, tracked, w, p) == {} && SlashRefs(b, w, p) == {};
      }
    }
  }

  /** Tracking one more delegation adds it to the trackers of its own starting period only. */
  lemma TrackersAfterTrack(b: Books, b': Books, v: Addr, del: Addr, w: Addr, p: nat, tracked: set<(Addr, Addr)>)
    requires (v, del) !in tracked && (v, del) in b'.starting
    requires b'.starting == b.starting[(v, del) := b'.starting[(v, del)]]
    ensures |Trackers(b', tracked + {(v, del)}, w, p)| == |Trackers(b, tracked, w, p)| +
            if w == v && p == b'.starting[(v, del)].previousPeriod then 1 else 0
  {
    if w == v && p == b'.starting[(v, del)].previousPeriod {
      assert Trackers(b', tracked + {(v, del)}, w, p) == Trackers(b, tracked, w, p) + {(v, del)};
    } else {
      assert Trackers(b', tracked + {(v, del)}, w, p) == Trackers(b, tracked, w, p);
    }
  }

  lemma TrackersAfterUntrack(b: Books, b': Books, v: Addr, del: Addr, w: Addr, p: nat, tracked: set<(Addr, Addr)>)
    requires (v, del) in tracked && (v, del) in b.starting && b'.starting == b.starting - {(v, del)}
    ensures |Trackers(b', tracked - {(v, del)}, w, p)| == |Trackers(b, tracked, w, p)| -
            if w == v && p == b.starting[(v, del)].previousPeriod then 1 else 0
  {
    if w == v && p == b.starting[(v, del)].previousPeriod {
      assert Trackers(b', tracked - {(v, del)}, w, p) == Trackers(b, tracked, w, p) - {(v, del)};
    } else {
      assert Trackers(b', tracked - {(v, del)}, w, p) == Trackers(b, tracked, w, p);
    }
  }

  /** Tracking a new delegation just after a period has ended succeeds and keeps the counts right. */
  lemma TrackWorks(b: Books, v: Addr, del: Addr, height: int, vals: set<Addr>, tracked: set<(Addr, Addr)>)
    requires RefsOk(b, vals, tracked) && v in vals && (v, del) !in tracked
    requires RefsAt(b.historical, v, b.period[v] - 1) == 1
    ensures Track(b, v, del, height).Some?
    ensures RefsOk(Track(b, v, del, height).value, vals, tracked + {(v, del)})
  {
    var b' := Track(b, v, del, height).value;
    var tracked' := tracked + {(v, del)};
    assert CountsOk(b', vals, tracked') by {
      forall w, p: nat | w in vals
        ensures RefsAt(b'.historical, w, p) == ExpectedRefs(b', tracked', w, p)
      {
        assert RefsAt(b.historical, w, p) == ExpectedRefs(b, tracked, w, p);
        assert SlashRefs(b', w, p) == SlashRefs(b, w, p);
        TrackersAfterTrack(b, b', v, del, w, p, tracked);
      }
    }
    assert PeriodsOk(b', vals, tracked');
  }

  /** A period from which a tracked delegation starts is live. */
  lemma LiveStart(b: Books, vals: set<Addr>, tracked: set<(Addr, Addr)>, v: Addr, del: Addr)
    requires RefsOk(b, vals, tracked) && (v, del) in tracked
    ensures RefsAt(b.historical, v, b.starting[(v, del)].previousPeriod) > 0
  {
    var p := b.starting[(v, del)].previousPeriod;
    assert (v, del) in Trackers(b, tracked, v, p);
    assert RefsAt(b.historical, v, p) == ExpectedRefs(b, tracked, v, p);
  }

  lemma UntrackWorks(b: Books, v: Addr, del: Addr, vals: set<Addr>, tracked: set<(Addr, Addr)>)
    requires RefsOk(b, vals, tracked) && v in vals && (v, del) in tracked
    ensures Untrack(b, v, del).Some?
    ensures RefsOk(Untrack(b, v, del).value, vals, tracked - {(v, del)})
  {
    LiveStart(b, vals, tracked, v, del);
    var b' := Untrack(b, v, del).value;
    var tracked' := tracked - {(v, del)};
    assert CountsOk(b', vals, tracked') by {
      forall w, p: nat | w in vals
        ensures RefsAt(b'.historical, w, p) == ExpectedRefs(b', tracked', w, p)
      {
        assert RefsAt(b.historical, w, p) == ExpectedRefs(b, tracked, w, p);
        assert SlashRefs(b', w, p) == SlashRefs(b, w, p);
        TrackersAfterUntrack(b, b', v, del, w, p, tracked);
      }
    }
    assert PeriodsOk(b', vals, tracked');
  }

  /** What a reward withdrawal does to the books: end the period, then restart the delegation. */
  function Restart(b: Books, v: Addr, del: Addr, height: int): Option<Books> {
    var ended :- EndPeriod(b, v);
    var untracked :- Untrack(ended, v, del);
    Track(untracked, v, del, height)
  }

  lemma RestartWorks(b: Books, v: Addr, del: Addr, height: int, vals: set<Addr>, tracked: set<(Addr, Addr)>)
    requires RefsOk(b, vals, tracked) && v in vals && (v, del) in tracked
    ensures Restart(b, v, del, height).Some?
    ensures RefsOk(Restart(b, v, del, height).value, vals, tracked)
  {
    EndPeriodWorks(b, v, vals, tracked);
    var ended := EndPeriod(b, v).value;
    assert ended.starting[(v, del)].previousPeriod < b.period[v];
    UntrackWorks(ended, v, del, vals, tracked);
    TrackWorks(Untrack(ended, v, del).value, v, del, height, vals, tracked - {(v, del)});
    assert tracked - {(v, del)} + {(v, del)} == tracked;
  }

  /** What the two delegation hooks do to the books. */
  function Start(b: Books, v: Addr, del: Addr, height: int): Option<Books> {
    var ended :- EndPeriod(b, v);
    Track(ended, v, del, height)
  }

  lemma StartWorks(b: Books, v: Addr, del: Addr, height: int, vals: set<Addr>, tracked: set<(Addr, Addr)>)
    requires RefsOk(b, vals, tracked) && v in vals && (v, del) !in tracked
    ensures Start(b, v, del, height).Some?
    ensures RefsOk(Start(b, v, del, height).value, vals, tracked + {(v, del)})
  {
    EndPeriodWorks(b, v, vals, tracked);
    TrackWorks(EndPeriod(b, v).value, v, del, height, vals, tracked);
  }

  // ----- Sums of counts -----

  /** Sum of a validator's reference counts over the periods below n. */
  ghost function RefSum(b: Books, v: Addr, n: nat): nat {
    if n == 0 then 0 else RefSum(b, v, n - 1) + RefsAt(b.historical, v, n - 1)
  }

  ghost function TrackersBelow(b: Books, tracked: set<(Addr, Addr)>, v: Addr, n: nat): set<(Addr, Addr)> {
    set k | k in tracked && k in b.starting && k.0 == v && b.starting[k].previousPeriod < n
  }

  lemma TrackersBelowStep(b: Books, tracked: set<(Addr, Addr)>, v: Addr, n: nat)
    ensures |TrackersBelow(b, tracked, v, 0)| == 0
    ensures |TrackersBelow(b, tracked, v, n + 1)| == |TrackersBelow(b, tracked, v, n)| + |Trackers(b, tracked, v, n)|
  {
    var below, here := TrackersBelow(b, tracked, v, n), Trackers(b, tracked, v, n);
    assert TrackersBelow(b, tracked, v, 0) == {};
    assert TrackersBelow(b, tracked, v, n + 1) == below + here;
    assert below !! here;
  }

  lemma {:induction false} RefSumCountsTrackers(b: Books, vals: set<Addr>, tracked: set<(Addr, Addr)>, v: Addr, n: nat)
    requires RefsOk(b, vals, tracked) && v in vals && b.slashEvents == map[]
    ensures RefSum(b, v, n) == |TrackersBelow(b, tracked, v, n)| + if b.period[v] <= n then 1 else 0
    decreases n
  {
    if n == 0 {
      TrackersBelowStep(b, tracked, v, 0);
    } else {
      RefSumCountsTrackers(b, vals, tracked, v, n - 1);
      TrackersBelowStep(b, tracked, v, n - 1);
      assert RefsAt(b.historical, v, n - 1) == ExpectedRefs(b, tracked, v, n - 1);
      assert SlashRefs(b, v, n - 1) == {};
    }
  }
}
