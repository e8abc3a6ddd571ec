/** Money in whole cents. */
module Money {

  /** The nearest cent, halves up. */
  function Cents(amount: real): int {
    (amount * 100.0 + 0.5).Floor
  }

  function SumOf(amounts: seq<real>): real {
    if amounts == [] then 0.0 else amounts[0] + SumOf(amounts[1..])
  }

  /** Price times quantity, added up. */
  function SumOfProducts(prices: seq<real>, quantities: seq<real>): real
    requires |prices| == |quantities|
  {
    if prices == [] then 0.0 else prices[0] * quantities[0] + SumOfProducts(prices[1..], quantities[1..])
  }
}
