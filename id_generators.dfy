/**
 * Sequential id generators backed by a 32-bit counter that starts at 1.
 * Generating returns the counter and advances it, wrapping from the largest
 * int to the smallest as Java's AtomicInteger.getAndIncrement does.
 */
module IdGenerators {

  const MaxInt: int := 0x7fff_ffff
  const MinInt: int := -0x8000_0000

  predicate IsInt32(x: int) {
    MinInt <= x <= MaxInt
  }

  /** Two's-complement successor of a 32-bit int. */
  function Succ32(x: int): (y: int)
    requires IsInt32(x)
    ensures IsInt32(y)
    ensures x < MaxInt ==> y == x + 1
    ensures x == MaxInt ==> y == MinInt
  {
    if x == MaxInt then MinInt else x + 1
  }

  /** The counter after n increments from 1, while no wrap-around has happened. */
  lemma {:induction false} NoWrapBeforeMax(x: int, n: nat)
    requires 1 <= x && x + n <= MaxInt
    ensures Iterate(x, n) == x + n
    decreases n
  {
    if n > 0 { NoWrapBeforeMax(x, n - 1); }
  }

  function Iterate(x: int, n: nat): (y: int)
    requires IsInt32(x)
    ensures IsInt32(y)
    decreases n
  {
    if n == 0 then x else Succ32(Iterate(x, n - 1))
  }

  /** Below the bound, the m-th and n-th ids drawn from a counter that starts at 1 differ. */
  lemma {:induction false} IdsNeverRepeat(m: nat, n: nat)
    requires m < n && 1 + n <= MaxInt
    ensures Iterate(1, m) != Iterate(1, n)
  {
    NoWrapBeforeMax(1, m);
    NoWrapBeforeMax(1, n);
  }

  /** The (2^31 - 1)-th increment from 1 wraps the counter to the smallest int: the 2^31-th id drawn is negative. */
  lemma WrapsAfterMax()
    ensures Iterate(1, MaxInt as nat) == MinInt
  {
    NoWrapBeforeMax(1, (MaxInt - 1) as nat);
  }

  class SeatHoldIdGenerator {
    var seatHoldCounter: int

    ghost predicate Valid()
      reads this
    {
      IsInt32(seatHoldCounter)
    }

    constructor ()
      ensures Valid() && seatHoldCounter == 1
    {
      seatHoldCounter := 1;
    }

    /** Returns the counter and advances it by one, with 32-bit wrap-around. */
    method Generate() returns (id: int)
      requires Valid()
      modifies this
      ensures Valid()
      ensures id == old(seatHoldCounter)
      ensures seatHoldCounter == Succ32(id)
    {
      id := seatHoldCounter;
      seatHoldCounter := Succ32(seatHoldCounter);
    }
  }

  class ReservationIdGenerator {
    var reservationId: int

    ghost predicate Valid()
      reads this
    {
      IsInt32(reservationId)
    }

    constructor ()
      ensures Valid() && reservationId == 1
    {
      reservationId := 1;
    }

    /** Returns the counter and advances it by one, with 32-bit wrap-around. */
    method Generate() returns (id: int)
      requires Valid()
      modifies this
      ensures Valid()
      ensures id == old(reservationId)
      ensures reservationId == Succ32(id)
    {
      id := reservationId;
      reservationId := Succ32(reservationId);
    }
  }

}
