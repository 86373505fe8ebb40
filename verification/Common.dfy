// Notions shared by the two halves of the model: optional values, powers of two
// and the lexicographic order used both for positions in a message forest and
// for keys in a key-value store.
module Common {

  datatype Option<+T> = None | Some(value: T) {
    predicate IsFailure() {
      None?
    }

    function PropagateFailure<U>(): Option<U>
      requires None?
    {
      None
    }

    function Extract(): T
      requires Some?
    {
      value
    }
  }

  function Max(a: int, b: int): int {
    if a < b then b else a
  }

  function Pow2(n: nat): (r: nat)
    ensures r >= 1
  {
    if n == 0 then 1 else 2 * Pow2(n - 1)
  }

  lemma {:induction false} Pow2Monotone(m: nat, n: nat)
    requires m <= n
    ensures Pow2(m) <= Pow2(n)
    decreases n
  {
    if m < n {
      Pow2Monotone(m, n - 1);
    }
  }

  /** p and q agree on their first n entries, and p ends there or is smaller at n. */
  predicate LexAt(p: seq<nat>, q: seq<nat>, n: int) {
    && 0 <= n <= |p| && n < |q|
    && p[..n] == q[..n]
    && (n == |p| || p[n] < q[n])
  }

  /** Lexicographic order; a proper prefix comes first. */
  predicate LexLess(p: seq<nat>, q: seq<nat>) {
    exists n :: 0 <= n <= |p| && LexAt(p, q, n)
  }

  lemma LexIrreflexive(p: seq<nat>)
    ensures !LexLess(p, p)
  {
  }

  lemma LexTransitive(p: seq<nat>, q: seq<nat>, r: seq<nat>)
    requires LexLess(p, q) && LexLess(q, r)
    ensures LexLess(p, r)
  {
    var n :| 0 <= n <= |p| && LexAt(p, q, n);
    var m :| 0 <= m <= |q| && LexAt(q, r, m);
    var k := if n < m then n else m;
    assert p[..k] == p[..n][..k] == q[..n][..k] == q[..k];
    assert q[..k] == q[..m][..k] == r[..m][..k] == r[..k];
    assert LexAt(p, r, k);
  }

  lemma LexTotal(p: seq<nat>, q: seq<nat>)
    requires p != q
    ensures LexLess(p, q) || LexLess(q, p)
  {
    LexTotalFrom(p, q, 0);
  }

  lemma {:induction false} LexTotalFrom(p: seq<nat>, q: seq<nat>, n: nat)
    requires p != q && n <= |p| && n <= |q| && p[..n] == q[..n]
    ensures LexLess(p, q) || LexLess(q, p)
    decreases |p| - n
  {
    if n < |p| && n < |q| && p[n] == q[n] {
      assert p[..n + 1] == q[..n] + [p[n]] == q[..n + 1];
      LexTotalFrom(p, q, n + 1);
    } else {
      assert p[..|p|] == p && q[..|q|] == q;
      assert LexAt(p, q, n) || LexAt(q, p, n);
    }
  }
}
