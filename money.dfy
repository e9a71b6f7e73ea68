/** Fixed-point arithmetic for the DECIMAL columns of the transactions table. */
module Money {

  /** An amount, a price or a result is an integer count of 10^-8 units:
      the columns hold eight fractional digits. */
  const Scale: int := 100_000_000

  function Abs(x: int): nat
  {
    if x < 0 then -x else x
  }

  /** `(amount * price).toFixed(8)` on exact values. The product of two scaled
      values counts 10^-16 units; it is rounded to the nearest 10^-8 unit, and
      a half is rounded away from zero (toFixed rounds the magnitude and then
      puts the sign back). */
  function ScaledProduct(amount: int, price: int): (r: int)
    ensures 2 * Abs(r * Scale - amount * price) <= Scale
    ensures 2 * Abs(r * Scale - amount * price) == Scale ==> Abs(r * Scale) > Abs(amount * price)
    ensures (amount * price) % Scale == 0 ==> r * Scale == amount * price
  {
    var n := amount * price;
    if n >= 0 then (n + Scale / 2) / Scale
    else -((-n + Scale / 2) / Scale)
  }

  /** Two units of an asset priced at 0.05 give 0.10000000. */
  lemma ScaledProductExample()
    ensures ScaledProduct(2 * Scale, 5_000_000) == 10_000_000
  {
  }
}
