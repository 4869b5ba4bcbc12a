/** Amounts and the per-person share of an expense.

    Amounts are integer hundredths of the currency unit. The application
    computes `round(amount / (len(split_with) + 1), 2)` on floats; here the
    share is the quotient rounded to the nearest hundredth, a tie rounding up
    (towards positive infinity). */
module Money {

  /** The per-person share, in hundredths, of `amount` hundredths divided
      among `shares` people: the integer nearest to amount / shares, ties up. */
  function PerPerson(amount: int, shares: int): (p: int)
    requires shares > 0
    ensures -shares < 2 * (shares * p - amount) <= shares
  {
    var d := 2 * shares;
    var x := 2 * amount + shares;
    var p := x / d;
    assert x == d * p + x % d;
    p
  }

  /** A multiple of `n` strictly between -n and n is zero. */
  lemma {:induction false} SmallMultiple(n: int, k: int)
    requires n > 0 && -n < n * k < n
    ensures k == 0
  {
  }

  /** The rounding rule determines the share: no other value is as close. */
  lemma {:induction false} PerPersonUnique(amount: int, shares: int, q: int)
    requires shares > 0
    requires -shares < 2 * (shares * q - amount) <= shares
    ensures q == PerPerson(amount, shares)
  {
    var p := PerPerson(amount, shares);
    assert 2 * (shares * q - amount) - 2 * (shares * p - amount) == (2 * shares) * (q - p);
    SmallMultiple(2 * shares, q - p);
  }

  /** What the shares leave over (positive) or over-collect (negative): the
      amount minus `shares` times the rounded share. */
  function Remainder(amount: int, shares: int): (r: int)
    requires shares > 0
    ensures -shares <= 2 * r < shares
  {
    amount - shares * PerPerson(amount, shares)
  }

  /** The shares add up to the amount exactly when the amount divides evenly. */
  lemma {:induction false} RemainderZeroIff(amount: int, shares: int)
    requires shares > 0
    ensures Remainder(amount, shares) == 0 <==> amount % shares == 0
  {
    var p := PerPerson(amount, shares);
    var q, m := amount / shares, amount % shares;
    assert amount == shares * q + m && 0 <= m < shares;
    if m == 0 {
      PerPersonUnique(amount, shares, q);
    } else if Remainder(amount, shares) == 0 {
      assert shares * (q - p) == -m;
      SmallMultiple(shares, q - p);
    }
  }

  /** A split that does not divide evenly leaves a remainder: 1.00 split three
      ways is 0.33 each and 0.01 is never collected. */
  lemma ThreeWaySplitOfOne()
    ensures PerPerson(100, 3) == 33 && Remainder(100, 3) == 1
  {
    PerPersonUnique(100, 3, 33);
  }
}
