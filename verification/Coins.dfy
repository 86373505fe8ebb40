// Decimal coins: a non-negative amount for each of finitely many denominations.
module Coins {

  type Quantity = q: real | q >= 0.0

  datatype DecCoins = DecCoins(amounts: map<string, Quantity>)

  const NO_COINS := DecCoins(map[])

  function AmountOf(c: DecCoins, denom: string): Quantity {
    if denom in c.amounts then c.amounts[denom] else 0.0
  }

  function Add(a: DecCoins, b: DecCoins): (r: DecCoins)
    ensures forall x :: AmountOf(r, x) == AmountOf(a, x) + AmountOf(b, x)
  {
    DecCoins(map x | x in a.amounts.Keys + b.amounts.Keys :: AmountOf(a, x) + AmountOf(b, x))
  }

  /** No denomination has more in b than in a. */
  predicate Covers(a: DecCoins, b: DecCoins)
    ensures Covers(a, b) <==> forall x :: AmountOf(a, x) >= AmountOf(b, x)
  {
    forall x <- b.amounts.Keys :: AmountOf(a, x) >= AmountOf(b, x)
  }

  /** The library panics when a does not cover b. */
  function Sub(a: DecCoins, b: DecCoins): (r: DecCoins)
    requires Covers(a, b)
    ensures forall x :: AmountOf(r, x) == AmountOf(a, x) - AmountOf(b, x)
  {
    DecCoins(map x | x in a.amounts.Keys + b.amounts.Keys :: AmountOf(a, x) - AmountOf(b, x))
  }

  /** The whole coins of an amount; what is left is less than one coin of each denomination. */
  function Truncate(c: DecCoins): (r: DecCoins)
    ensures forall x :: AmountOf(r, x) == AmountOf(r, x).Floor as real
    ensures forall x :: AmountOf(r, x) <= AmountOf(c, x) < AmountOf(r, x) + 1.0
    ensures Covers(c, r)
  {
    DecCoins(map x | x in c.amounts.Keys :: c.amounts[x].Floor as real)
  }

  /** The smaller amount of each denomination. */
  function Intersect(a: DecCoins, b: DecCoins): (r: DecCoins)
    ensures Covers(a, r) && Covers(b, r)
    ensures forall x :: AmountOf(r, x) == AmountOf(a, x) || AmountOf(r, x) == AmountOf(b, x)
  {
    DecCoins(map x | x in a.amounts.Keys ::
               if AmountOf(a, x) <= AmountOf(b, x) then AmountOf(a, x) else AmountOf(b, x))
  }

  predicate IsZero(c: DecCoins)
    ensures IsZero(c) <==> forall x :: AmountOf(c, x) == 0.0
  {
    forall x <- c.amounts.Keys :: AmountOf(c, x) == 0.0
  }
}
