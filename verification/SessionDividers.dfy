/**
  Where the divider of a split is, saved as a ratio and put back by a timer
  (src/gtk/session.c:1023-1048, 1102-1162).  The program computes with doubles, so
  a ratio and a product are the exact values only up to rounding.
 */
module SessionDividers {
  import opened Options

  const ATTEMPTS: nat := 60
  const LEAST_SIZE: int := 10
  const TWO_TO_THE_48: real := 281474976710656.0
  const TWO_TO_THE_53: real := 9007199254740992.0
  const TWO_TO_THE_54: real := 18014398509481984.0

  // ---- rounding ----

  /** `m` is `x` rounded to a double: the error is at most one part in 2^53. */
  predicate Rounds(m: real, x: real) {
    && -x <= (m - x) * TWO_TO_THE_53 <= x
  }

  /** `m` is a multiple of `1 / scale` nearest to `x`. */
  predicate Nearest(m: real, x: real, scale: real) {
    && (m * scale).Floor as real == m * scale
    && -1.0 <= 2.0 * (m - x) * scale <= 1.0
  }

  // ---- saving ----

  function Within(position: int, size: int): int {
    if position > size then size else if position < 0 then 0 else position
  }

  /** The exact ratio that saving rounds; a widget without a size has one half. */
  function PanedRatio(size: int, position: int): (r: real)
    ensures 0.0 <= r <= 1.0
  {
    if size <= 1 then 0.5
    else
      Quotient(Within(position, size), size);
      Within(position, size) as real / size as real
  }

  lemma Quotient(p: int, size: int)
    requires 0 <= p <= size && 0 < size
    ensures 0.0 <= p as real / size as real <= 1.0
    ensures (p as real / size as real) * size as real == p as real
  {
  }

  /** A widget that has a size saves how much of it is before the divider, none
      or all of it for a divider outside; one without a size saves one half. */
  lemma SavedRatioIs(size: int, position: int)
    ensures size <= 1 ==> PanedRatio(size, position) == 0.5
    ensures size > 1 && position <= 0 ==> PanedRatio(size, position) == 0.0
    ensures size > 1 && position >= size ==> PanedRatio(size, position) == 1.0
    ensures size > 1 && 0 <= position <= size ==> PanedRatio(size, position) * size as real == position as real
  {
    if size > 1 {
      Quotient(Within(position, size), size);
    }
  }

  // ---- restoring ----

  /** What the timer sets, from the product of ratio and size. */
  function RestoredPosition(product: real, size: int): int {
    Within(product.Floor, size)
  }

  /** The timer sets a position inside the widget, the whole pixels of the product
      if they are. */
  lemma RestoredPositionIs(product: real, size: int)
    requires size > 0
    ensures 0 <= RestoredPosition(product, size) <= size
    ensures product < 0.0 ==> RestoredPosition(product, size) == 0
    ensures product > size as real ==> RestoredPosition(product, size) == size
    ensures 0.0 <= product <= size as real ==>
              RestoredPosition(product, size) as real <= product < RestoredPosition(product, size) as real + 1.0
  {
  }

  lemma ErrorOfProduct(ratio: real, exact: real, size: real)
    requires 0.0 <= size && Rounds(ratio, exact)
    ensures Rounds(ratio * size, exact * size)
  {
    Scaled(exact - (ratio - exact) * TWO_TO_THE_53, size);
    Scaled(exact + (ratio - exact) * TWO_TO_THE_53, size);
    assert (ratio - exact) * size == ratio * size - exact * size;
    assert ((ratio - exact) * TWO_TO_THE_53) * size == ((ratio - exact) * size) * TWO_TO_THE_53;
  }

  lemma Scaled(x: real, size: real)
    requires 0.0 <= size && 0.0 <= x
    ensures 0.0 <= x * size
  {
  }

  /** At an unchanged size above 10 the divider comes back to where it was or
      one pixel before; it comes back to where it was exactly when the machine's
      product has not been rounded below the position. */
  lemma PositionRoundTrip(size: int, position: int, ratio: real, product: real)
    requires LEAST_SIZE < size < 0x8000_0000 && 0 <= position <= size
    requires Rounds(ratio, PanedRatio(size, position)) && Rounds(product, ratio * size as real)
    ensures RestoredPosition(product, size) == position || RestoredPosition(product, size) == position - 1
    ensures RestoredPosition(product, size) == position <==> product >= position as real
  {
    var p := position as real;
    Quotient(position, size);
    ErrorOfProduct(ratio, PanedRatio(size, position), size as real);
    SmallError(p, ratio * size as real, product);
    FloorNear(product, position, size);
  }

  lemma FloorNear(product: real, position: int, size: int)
    requires 0 <= position <= size && 0.0 <= product && position as real - 1.0 < product < position as real + 1.0
    ensures RestoredPosition(product, size) == position || RestoredPosition(product, size) == position - 1
    ensures RestoredPosition(product, size) == position <==> product >= position as real
  {
  }

  /** Two roundings of a number of pixels do not add up to a pixel. */
  lemma SmallError(p: real, q: real, product: real)
    requires 0.0 <= p < 2147483648.0 && Rounds(q, p) && Rounds(product, q)
    ensures p - 1.0 < product < p + 1.0 && 0.0 <= product
  {
    assert -p <= 9007199254740992.0 * (q - p) <= p;
    assert -q <= 9007199254740992.0 * (product - q) <= q;
  }

  /** With doubles, at size 100, position 29 comes back as 28. */
  lemma DividersCanDrift()
    ensures var ratio := 5224175567749775.0 / TWO_TO_THE_54;
            var product := 8162774324609023.0 / TWO_TO_THE_48;
            && Nearest(ratio, PanedRatio(100, 29), TWO_TO_THE_54) && 0.25 <= ratio < 0.5
            && Nearest(product, ratio * 100.0, TWO_TO_THE_48) && 16.0 <= product < 32.0
            && RestoredPosition(product, 100) == 28
  {
    var ratio := 5224175567749775.0 / TWO_TO_THE_54;
    var product := 8162774324609023.0 / TWO_TO_THE_48;
    assert ratio * TWO_TO_THE_54 == 5224175567749775.0;
    assert product * TWO_TO_THE_48 == 8162774324609023.0;
    assert product.Floor == 28;
  }

  // ---- the timer ----

  /** The tick that sets the divider, given the widget's size at each tick. */
  function TickThatSets(sizes: seq<int>, attemptsLeft: nat): Option<nat> {
    if sizes == [] then None
    else if sizes[0] > LEAST_SIZE then Some(0)
    else if attemptsLeft == 0 then None
    else
      var later := TickThatSets(sizes[1..], attemptsLeft - 1);
      if later.Some? then Some(later.value + 1) else None
  }

  /** The divider is set at the first tick that finds a size above 10, if that is
      one of the first 61; a widget that stays smaller never gets it. */
  lemma {:induction false} SetsAtFirstSize(sizes: seq<int>, attemptsLeft: nat)
    ensures var k := TickThatSets(sizes, attemptsLeft);
            && (k.Some? ==> && k.value <= attemptsLeft && k.value < |sizes| && sizes[k.value] > LEAST_SIZE
                            && forall j :: 0 <= j < k.value ==> sizes[j] <= LEAST_SIZE)
            && (k.None? <==> forall j :: 0 <= j < |sizes| && j <= attemptsLeft ==> sizes[j] <= LEAST_SIZE)
  {
    if sizes != [] && sizes[0] <= LEAST_SIZE && attemptsLeft > 0 {
      SetsAtFirstSize(sizes[1..], attemptsLeft - 1);
      assert forall j :: 1 <= j < |sizes| ==> sizes[j] == sizes[1..][j - 1];
      assert forall j :: 0 <= j < |sizes| - 1 ==> sizes[1..][j] == sizes[j + 1];
    }
  }

  /** What one timer holds. */
  class SplitRestore {
    var attemptsLeft: nat
    var position: Option<int>

    constructor ()
      ensures attemptsLeft == ATTEMPTS && position == None
    {
      attemptsLeft, position := ATTEMPTS, None;
    }

    /** One tick; `product` is ratio times size.  Tells whether to go on. */
    method Tick(size: int, product: real) returns (goOn: bool)
      modifies this
      ensures position == if size > LEAST_SIZE then Some(RestoredPosition(product, size)) else old(position)
      ensures goOn <==> size <= LEAST_SIZE && old(attemptsLeft) > 0
      ensures attemptsLeft == if goOn then old(attemptsLeft) - 1 else old(attemptsLeft)
    {
      if size > LEAST_SIZE {
        var p := product.Floor;
        if p < 0 {
          p := 0;
        }
        if p > size {
          p := size;
        }
        position := Some(p);
        return false;
      }
      if attemptsLeft > 0 {
        attemptsLeft := attemptsLeft - 1;
        return true;
      }
      return false;
    }

    /** The timer over the sizes it meets, until it ends or they do. */
    method RunTimer(sizes: seq<int>, products: seq<real>) returns (at: Option<nat>)
      requires |products| == |sizes| && position == None
      modifies this
      ensures at == TickThatSets(sizes, old(attemptsLeft))
      ensures position == if at.Some? && at.value < |sizes|
                          then Some(RestoredPosition(products[at.value], sizes[at.value])) else None
    {
      for i := 0 to |sizes|
        invariant position == None
        invariant var later := TickThatSets(sizes[i..], attemptsLeft);
                  TickThatSets(sizes, old(attemptsLeft)) == if later.Some? then Some(i + later.value) else None
      {
        assert sizes[i..][1..] == sizes[i + 1..];
        var goOn := Tick(sizes[i], products[i]);
        if !goOn {
          return if position.Some? then Some(i) else None;
        }
      }
      return None;
    }
  }
}
