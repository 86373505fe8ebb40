// The validator list of an exported genesis: sorted by power in place, stably, then cut
// to the number of active consensus validators.
module ValidatorExport {
  import opened Common

  datatype GenesisValidator = GenesisValidator(address: seq<nat>, name: string, power: int)

  ghost predicate SortedByPower(s: seq<GenesisValidator>) {
    forall i, j | 0 <= i < j < |s| :: s[i].power >= s[j].power
  }

  /** The validators of power p, in their order. */
  ghost function WithPower(s: seq<GenesisValidator>, p: int): seq<GenesisValidator> {
    if s == [] then []
    else (if s[0].power == p then [s[0]] else []) + WithPower(s[1..], p)
  }

  /** Validators of equal power stand in the same order in both lists, and none is added or lost. */
  ghost predicate SameByPower(s: seq<GenesisValidator>, t: seq<GenesisValidator>) {
    forall p :: WithPower(s, p) == WithPower(t, p)
  }

  /** r is a stable sort of s by descending power. */
  ghost predicate IsStableSort(s: seq<GenesisValidator>, r: seq<GenesisValidator>) {
    SortedByPower(r) && SameByPower(s, r)
  }

  lemma {:induction false} WithPowerConcat(a: seq<GenesisValidator>, b: seq<GenesisValidator>, p: int)
    ensures WithPower(a + b, p) == WithPower(a, p) + WithPower(b, p)
  {
    if a == [] {
      assert a + b == b;
    } else {
      var head := if a[0].power == p then [a[0]] else [];
      assert (a + b)[0] == a[0] && (a + b)[1..] == a[1..] + b;
      WithPowerConcat(a[1..], b, p);
      calc {
        WithPower(a + b, p);
        head + WithPower(a[1..] + b, p);
        head + (WithPower(a[1..], p) + WithPower(b, p));
        head + WithPower(a[1..], p) + WithPower(b, p);
        WithPower(a, p) + WithPower(b, p);
      }
    }
  }

  lemma {:induction false} CountWithPower(s: seq<GenesisValidator>, v: GenesisValidator)
    ensures multiset(WithPower(s, v.power))[v] == multiset(s)[v]
  {
    if s != [] {
      var head := if s[0].power == v.power then [s[0]] else [];
      CountWithPower(s[1..], v);
      assert s == [s[0]] + s[1..];
      assert multiset(s) == multiset{s[0]} + multiset(s[1..]);
      assert multiset(WithPower(s, v.power)) == multiset(head) + multiset(WithPower(s[1..], v.power));
    }
  }

  lemma StableSortPermutes(s: seq<GenesisValidator>, r: seq<GenesisValidator>)
    requires SameByPower(s, r)
    ensures multiset(s) == multiset(r) && |s| == |r|
  {
    forall v: GenesisValidator
      ensures multiset(s)[v] == multiset(r)[v]
    {
      CountWithPower(s, v);
      CountWithPower(r, v);
      assert WithPower(s, v.power) == WithPower(r, v.power);
    }
    assert multiset(s) == multiset(r);
    assert |s| == |multiset(s)| == |multiset(r)| == |r|;
  }

  /** A stable sort is determined by its input. */
  lemma {:induction false} StableSortUnique(s: seq<GenesisValidator>, q: seq<GenesisValidator>,
                                            r: seq<GenesisValidator>)
    requires IsStableSort(s, q) && IsStableSort(s, r)
    ensures q == r
  {
    SortedWithSamePowersEqual(q, r);
  }

  lemma {:induction false} SortedWithSamePowersEqual(q: seq<GenesisValidator>, r: seq<GenesisValidator>)
    requires SortedByPower(q) && SortedByPower(r) && forall p :: WithPower(q, p) == WithPower(r, p)
    ensures q == r
  {
    StableSortPermutes(q, r);
    if q != [] {
      assert q[0] in multiset(r) && r[0] in multiset(q);
      assert q[0].power == r[0].power;
      assert WithPower(q, q[0].power)[0] == q[0] && WithPower(r, q[0].power)[0] == r[0];
      forall p
        ensures WithPower(q[1..], p) == WithPower(r[1..], p)
      {
        var head := if q[0].power == p then [q[0]] else [];
        assert WithPower(q, p) == head + WithPower(q[1..], p) == head + WithPower(r[1..], p);
        assert WithPower(q[1..], p) == WithPower(q, p)[|head|..] == WithPower(r[1..], p);
      }
      SortedWithSamePowersEqual(q[1..], r[1..]);
      assert q == [q[0]] + q[1..] && r == [r[0]] + r[1..];
    }
  }

  // ----- Sorting in place -----

  /** Exchanging neighbours of different power disturbs no group of equal power. */
  lemma SwapKeepsGroups(s: seq<GenesisValidator>, t: seq<GenesisValidator>, j: nat)
    requires 0 < j < |s| == |t| && s[j - 1].power != s[j].power
    requires t == s[j - 1 := s[j]][j := s[j - 1]]
    ensures SameByPower(s, t)
  {
    var x, y := s[j - 1], s[j];
    assert s == s[..j - 1] + ([x, y] + s[j + 1..]);
    assert t == s[..j - 1] + ([y, x] + s[j + 1..]);
    forall p
      ensures WithPower(s, p) == WithPower(t, p)
    {
      WithPowerConcat(s[..j - 1], [x, y] + s[j + 1..], p);
      WithPowerConcat(s[..j - 1], [y, x] + s[j + 1..], p);
      WithPowerConcat([x, y], s[j + 1..], p);
      WithPowerConcat([y, x], s[j + 1..], p);
      assert [x, y][1..] == [y] && [y, x][1..] == [x] && [x][1..] == [] && [y][1..] == [];
    }
  }

  /** Sorts by descending power, in place and stably (what sort.SliceStable does). */
  method SortStable(a: array<GenesisValidator>)
    modifies a
    ensures IsStableSort(old(a[..]), a[..])
  {
    for i := 0 to a.Length
      invariant SortedByPower(a[..i])
      invariant SameByPower(old(a[..]), a[..])
    {
      SinkIntoPlace(a, i);
    }
    assert a[..a.Length] == a[..];
  }

  method SinkIntoPlace(a: array<GenesisValidator>, i: nat)
    requires i < a.Length && SortedByPower(a[..i])
    modifies a
    ensures SortedByPower(a[..i + 1])
    ensures SameByPower(old(a[..]), a[..])
  {
    var j := i;
    while j > 0 && a[j].power > a[j - 1].power
      invariant 0 <= j <= i
      invariant forall k, l | 0 <= k < l <= i && l != j :: a[k].power >= a[l].power
      invariant SameByPower(old(a[..]), a[..])
    {
      ghost var before := a[..];
      a[j - 1], a[j] := a[j], a[j - 1];
      SwapKeepsGroups(before, a[..], j);
      j := j - 1;
    }
  }

  /** Sorts the validators and keeps the first maxVals; None when slicing to a negative
      bound would panic. */
  method SortAndTrim(validators: array<GenesisValidator>, maxVals: int) returns (kept: Option<seq<GenesisValidator>>)
    modifies validators
    ensures IsStableSort(old(validators[..]), validators[..])
    ensures kept == None <==> maxVals < 0
    ensures kept.Some? ==> IsExport(old(validators[..]), maxVals, kept.value)
    ensures kept.Some? ==>
              && |kept.value| == Min(validators.Length, maxVals)
              && multiset(kept.value) <= multiset(old(validators[..])) && SortedByPower(kept.value)
  {
    SortStable(validators);
    ghost var sorted := validators[..];
    StableSortPermutes(old(validators[..]), sorted);
    if validators.Length > maxVals {
      if maxVals < 0 {
        return None;
      }
      kept := Some(validators[..maxVals]);
    } else {
      kept := Some(validators[..]);
    }
    assert IsExportOf(old(validators[..]), sorted, maxVals, kept.value);
    ExportSize(old(validators[..]), maxVals, kept.value);
  }

  // ----- What is exported -----

  ghost predicate IsExportOf(s: seq<GenesisValidator>, sorted: seq<GenesisValidator>, maxVals: nat,
                             kept: seq<GenesisValidator>)
  {
    IsStableSort(s, sorted) && kept <= sorted && |kept| == if |s| < maxVals then |s| else maxVals
  }

  /** kept is the exported list for the validators s. */
  ghost predicate IsExport(s: seq<GenesisValidator>, maxVals: nat, kept: seq<GenesisValidator>) {
    exists sorted :: IsExportOf(s, sorted, maxVals, kept)
  }

  /** The exported list is a function of the validators and their order in the store. */
  lemma ExportUnique(s: seq<GenesisValidator>, maxVals: nat, k: seq<GenesisValidator>, l: seq<GenesisValidator>)
    requires IsExport(s, maxVals, k) && IsExport(s, maxVals, l)
    ensures k == l
  {
    var q :| IsExportOf(s, q, maxVals, k);
    var r :| IsExportOf(s, r, maxVals, l);
    StableSortUnique(s, q, r);
  }

  function Min(a: int, b: int): int {
    if a < b then a else b
  }

  /** As many are exported as there are, up to the maximum; they are strongest first. */
  lemma ExportSize(s: seq<GenesisValidator>, maxVals: nat, kept: seq<GenesisValidator>)
    requires IsExport(s, maxVals, kept)
    ensures |kept| == Min(|s|, maxVals) && multiset(kept) <= multiset(s) && SortedByPower(kept)
  {
    var sorted :| IsExportOf(s, sorted, maxVals, kept);
    StableSortPermutes(s, sorted);
    assert sorted == kept + sorted[|kept|..];
    assert multiset(s) == multiset(kept) + multiset(sorted[|kept|..]);
  }

  /** No validator left out is stronger than one kept, and of several equally strong ones the
      first in store order are kept. */
  lemma NoStrongerDropped(s: seq<GenesisValidator>, maxVals: nat, kept: seq<GenesisValidator>)
    requires IsExport(s, maxVals, kept)
    ensures multiset(kept) <= multiset(s)
    ensures forall v <- kept, w <- multiset(s) - multiset(kept) :: w.power <= v.power
    ensures forall p :: WithPower(kept, p) <= WithPower(s, p)
  {
    var sorted :| IsExportOf(s, sorted, maxVals, kept);
    var rest := sorted[|kept|..];
    assert sorted == kept + rest;
    StableSortPermutes(s, sorted);
    assert multiset(s) == multiset(kept) + multiset(rest);
    forall v <- kept, w <- multiset(s) - multiset(kept)
      ensures w.power <= v.power
    {
      assert w in multiset(rest);
      var i :| 0 <= i < |kept| && kept[i] == v;
      var j :| 0 <= j < |rest| && rest[j] == w;
      assert sorted[i] == v && sorted[|kept| + j] == w;
    }
    forall p
      ensures WithPower(kept, p) <= WithPower(s, p)
    {
      WithPowerConcat(kept, rest, p);
    }
  }

  ghost function TotalPower(s: seq<GenesisValidator>): int {
    if s == [] then 0 else s[0].power + TotalPower(s[1..])
  }

  lemma {:induction false} TotalPowerConcat(a: seq<GenesisValidator>, b: seq<GenesisValidator>)
    ensures TotalPower(a + b) == TotalPower(a) + TotalPower(b)
  {
    if a == [] {
      assert a + b == b;
    } else {
      assert (a + b)[1..] == a[1..] + b;
      TotalPowerConcat(a[1..], b);
    }
  }

  lemma RemoveOne(s: seq<GenesisValidator>, i: nat)
    requires i < |s|
    ensures var t := s[..i] + s[i + 1..];
            && multiset(t) == multiset(s) - multiset{s[i]}
            && TotalPower(s) == s[i].power + TotalPower(t)
  {
    assert s == s[..i] + ([s[i]] + s[i + 1..]);
    TotalPowerConcat(s[..i], s[i + 1..]);
    TotalPowerConcat(s[..i], [s[i]] + s[i + 1..]);
  }

  /** Leaving out r's first member, or any other when that one is not selected. */
  lemma RestSelected(r: seq<GenesisValidator>, sel: seq<GenesisValidator>, i: nat)
    requires r != [] && i < |sel| && multiset(sel) <= multiset(r)
    requires r[0] in sel ==> sel[i] == r[0]
    ensures multiset(sel[..i] + sel[i + 1..]) <= multiset(r[1..])
    ensures sel[i] in r
  {
    RemoveOne(sel, i);
    assert multiset(r) == multiset{r[0]} + multiset(r[1..]) by {
      assert r == [r[0]] + r[1..];
    }
    assert sel[i] in multiset(sel);
    assert sel[i] in multiset(r);
    if r[0] !in sel {
      assert multiset(sel)[r[0]] == 0;
    }
  }

  /** Of a sorted list, no selection of at most k members beats the first k. */
  lemma {:induction false} PrefixIsStrongest(r: seq<GenesisValidator>, k: nat, sel: seq<GenesisValidator>)
    requires SortedByPower(r) && (forall v <- r :: v.power >= 0)
    requires k <= |r| && |sel| <= k && multiset(sel) <= multiset(r)
    ensures TotalPower(sel) <= TotalPower(r[..k])
    decreases k
  {
    if k > 0 {
      assert r[..k][0] == r[0] && r[..k][1..] == r[1..][..k - 1];
      if sel == [] {
        PrefixIsStrongest(r[1..], k - 1, []);
      } else {
        var i: nat :| i < |sel| && (r[0] in sel ==> sel[i] == r[0]);
        RestSelected(r, sel, i);
        RemoveOne(sel, i);
        PrefixIsStrongest(r[1..], k - 1, sel[..i] + sel[i + 1..]);
      }
    }
  }

  /** The exported validators have the largest total power of any selection of at most maxVals. */
  lemma ExportIsStrongest(s: seq<GenesisValidator>, maxVals: nat, kept: seq<GenesisValidator>,
                          sel: seq<GenesisValidator>)
    requires IsExport(s, maxVals, kept) && (forall v <- s :: v.power >= 0)
    requires |sel| <= maxVals && multiset(sel) <= multiset(s)
    ensures TotalPower(sel) <= TotalPower(kept)
  {
    var sorted :| IsExportOf(s, sorted, maxVals, kept);
    StableSortPermutes(s, sorted);
    forall v: GenesisValidator | v in sorted ensures v.power >= 0 {
      assert v in multiset(sorted);
      assert v in s;
    }
    assert |multiset(sel)| <= |multiset(s)| by {
      assert multiset(s) == multiset(sel) + (multiset(s) - multiset(sel));
    }
    PrefixIsStrongest(sorted, |kept|, sel);
    assert sorted[..|kept|] == kept;
  }
}
