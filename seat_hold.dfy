/**
 * A hold: an id, the customer's email, defensive copies of the held seats in
 * the order they were chosen, and the clock value at creation. All four are
 * fixed at construction, so the record is a datatype and its getters are the
 * field selectors.
 */
module Holds {

  import opened Seats

  datatype SeatHold = SeatHold(seatHoldId: int, customerEmail: string, holdSeats: seq<Seat>, createdDateTime: int)

  /** The ids of a sequence of seats. */
  ghost function IdsOf(seats: seq<Seat>): set<string> {
    set i | 0 <= i < |seats| :: seats[i].id
  }

  /** No seat id occurs twice. */
  ghost predicate DistinctIds(seats: seq<Seat>) {
    forall i, j :: 0 <= i < j < |seats| ==> seats[i].id != seats[j].id
  }

  ghost function SeatIds(h: SeatHold): set<string> {
    IdsOf(h.holdSeats)
  }

  /** The ids of the first i + 1 seats: those of the first i plus the id of seat i. */
  lemma IdsOfSnoc(seats: seq<Seat>, i: nat)
    requires i < |seats|
    ensures IdsOf(seats[..i + 1]) == IdsOf(seats[..i]) + {seats[i].id}
  {
    var a, b := seats[..i + 1], seats[..i];
    forall x | x in IdsOf(a) ensures x in IdsOf(b) + {seats[i].id} {
      var j :| 0 <= j < |a| && a[j].id == x;
      if j < i { assert b[j].id == x; }
    }
    forall x | x in IdsOf(b) ensures x in IdsOf(a) {
      var j :| 0 <= j < |b| && b[j].id == x;
      assert a[j].id == x;
    }
    assert a[i].id == seats[i].id;
  }

  /** A hold of n distinct seats covers n seat ids. */
  lemma {:induction false} DistinctIdsCount(seats: seq<Seat>)
    requires DistinctIds(seats)
    ensures |IdsOf(seats)| == |seats|
    decreases |seats|
  {
    if seats != [] {
      var n := |seats| - 1;
      var init := seats[..n];
      assert DistinctIds(init);
      IdsOfSnoc(seats, n);
      assert seats[..n + 1] == seats;
      assert seats[n].id !in IdsOf(init) by {
        forall i | 0 <= i < n ensures init[i].id != seats[n].id {
          assert init[i] == seats[i];
        }
      }
      DistinctIdsCount(init);
    }
  }

}
