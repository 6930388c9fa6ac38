/** The click counter: a module-level count that three buttons increment,
    decrement and reset, each writing the count to the display and choosing
    its colour. */
module Counter {

  /** The three CSS colour variables the handlers use. */
  datatype Colour = Primary | Success | Danger

  /** The counter display: untouched until the first click, then the count
      last written and its colour. */
  datatype Display = Untouched | Showing(count: int, colour: Colour)

  /** 2^53. The count is a JavaScript Number, a 64-bit double: every integer
      of magnitude up to 2^53 is exact, and adding one to 2^53 rounds back to
      2^53 (ties go to the even significand), so `++` and `--` stop there. */
  const ExactLimit: int := 0x20_0000_0000_0000

  /** `n + 1` in double arithmetic, for an exact integer `n`. */
  function NumberIncrement(n: int): (r: int)
    requires -ExactLimit <= n <= ExactLimit
    ensures -ExactLimit <= r <= ExactLimit
    ensures n < ExactLimit ==> r == n + 1
    ensures n == ExactLimit ==> r == n
  {
    if n < ExactLimit then n + 1 else n
  }

  /** `n - 1` in double arithmetic, for an exact integer `n`. */
  function NumberDecrement(n: int): (r: int)
    requires -ExactLimit <= n <= ExactLimit
    ensures -ExactLimit <= r <= ExactLimit
    ensures -ExactLimit < n ==> r == n - 1
    ensures n == -ExactLimit ==> r == n
  {
    if -ExactLimit < n then n - 1 else n
  }

  /** Away from the limits, a decrement undoes an increment and the reverse. */
  lemma IncrementDecrementInverse(n: int)
    requires -ExactLimit <= n < ExactLimit
    ensures NumberDecrement(NumberIncrement(n)) == n
    ensures -ExactLimit < n ==> NumberIncrement(NumberDecrement(n)) == n
  {
  }

  /** A colour never contradicts the sign of the count it is shown with. */
  predicate ColourAgreesWithSign(colour: Colour, count: int) {
    (colour == Success ==> count > 0) && (colour == Danger ==> count < 0)
  }

  class ClickCounter {
    var clickCount: int
    var display: Display

    /** The count is an exactly represented integer, and the display, once
        written, shows the current count in a colour that agrees with its
        sign. */
    ghost predicate Valid()
      reads this
    {
      -ExactLimit <= clickCount <= ExactLimit
      && (display.Showing? ==> display.count == clickCount && ColourAgreesWithSign(display.colour, clickCount))
    }

    constructor ()
      ensures Valid() && clickCount == 0 && display == Untouched
    {
      clickCount := 0;
      display := Untouched;
    }

    method Increment()
      requires Valid()
      modifies this
      ensures Valid()
      ensures clickCount == NumberIncrement(old(clickCount))
      ensures display.Showing? && display.count == clickCount
      ensures display.colour == Success <==> clickCount > 0
      ensures display.colour != Danger
    {
      clickCount := NumberIncrement(clickCount);
      display := Showing(clickCount, if clickCount > 0 then Success else Primary);
    }

    method Decrement()
      requires Valid()
      modifies this
      ensures Valid()
      ensures clickCount == NumberDecrement(old(clickCount))
      ensures display.Showing? && display.count == clickCount
      ensures display.colour == Danger <==> clickCount < 0
      ensures display.colour != Success
    {
      clickCount := NumberDecrement(clickCount);
      display := Showing(clickCount, if clickCount < 0 then Danger else Primary);
    }

    method Reset()
      requires Valid()
      modifies this
      ensures Valid()
      ensures clickCount == 0 && display == Showing(0, Primary)
    {
      clickCount := 0;
      display := Showing(clickCount, Primary);
    }
  }
}
