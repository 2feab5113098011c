/** A seat of the venue: a position that never changes and a status that does. */
module Seats {

  import opened Text

  datatype SeatStatus = Available | Hold | Reserved

  /** The seat id: row, a dash, column, each written in decimal. */
  function SeatId(rowNum: int, columnNum: int): string {
    IntToString(rowNum) + "-" + IntToString(columnNum)
  }

  /** The row part of a seat id: what precedes the first dash after the leading character. */
  function RowPart(id: string): string
    requires |id| >= 1
  {
    id[..FirstDashFrom(id, 1)]
  }

  /** The column part of a seat id: what follows that dash, if any. */
  function ColumnPart(id: string): string
    requires |id| >= 1
  {
    var k := FirstDashFrom(id, 1);
    if k < |id| then id[k + 1..] else ""
  }

  /** Index of the first dash at or after position i, or |s| when there is none. */
  function FirstDashFrom(s: string, i: nat): (k: nat)
    requires i <= |s|
    ensures i <= k <= |s|
    decreases |s| - i
  {
    if i == |s| then |s| else if s[i] == '-' then i else FirstDashFrom(s, i + 1)
  }

  /** In a + "-" + b, with a a decimal int, the separator is the first dash after position 0. */
  lemma {:induction false} SeparatorIsFirstDash(a: string, b: string, i: nat)
    requires |a| >= 1 && forall k :: 1 <= k < |a| ==> a[k] != '-'
    requires 1 <= i <= |a|
    ensures FirstDashFrom(a + "-" + b, i) == |a|
    decreases |a| - i
  {
    var s := a + "-" + b;
    if i < |a| {
      assert s[i] == a[i];
      SeparatorIsFirstDash(a, b, i + 1);
    } else {
      assert s[i] == '-';
    }
  }

  /**
   * Splitting a seat id at the first dash after its leading character gives
   * back the decimal row and the decimal column: the dash of a negative row
   * is never taken for the separator.
   */
  lemma SeatIdRoundTrip(rowNum: int, columnNum: int)
    ensures RowPart(SeatId(rowNum, columnNum)) == IntToString(rowNum)
    ensures ColumnPart(SeatId(rowNum, columnNum)) == IntToString(columnNum)
  {
    var a, b := IntToString(rowNum), IntToString(columnNum);
    var id := SeatId(rowNum, columnNum);
    SeparatorIsFirstDash(a, b, 1);
    assert id[..|a|] == a;
    assert id[|a| + 1..] == b;
  }

  /** Distinct positions give distinct ids, so the id identifies a seat. */
  lemma SeatIdInjective(r1: int, c1: int, r2: int, c2: int)
    requires SeatId(r1, c1) == SeatId(r2, c2)
    ensures r1 == r2 && c1 == c2
  {
    SeatIdRoundTrip(r1, c1);
    SeatIdRoundTrip(r2, c2);
    IntToStringInjective(r1, r2);
    IntToStringInjective(c1, c2);
  }

  class Seat {
    const id: string
    const rowNum: int
    const columnNum: int
    var status: SeatStatus

    /** A new seat at (rowNum, columnNum); every seat starts AVAILABLE. */
    constructor (rowNum: int, columnNum: int)
      ensures this.rowNum == rowNum && this.columnNum == columnNum
      ensures id == SeatId(rowNum, columnNum)
      ensures status == Available
    {
      this.rowNum := rowNum;
      this.columnNum := columnNum;
      this.id := SeatId(rowNum, columnNum);
      status := Available;
    }

    /** A defensive copy: same id, position and status, a different object. */
    constructor Copy(seat: Seat)
      ensures rowNum == seat.rowNum && columnNum == seat.columnNum
      ensures id == seat.id && status == seat.status
    {
      rowNum := seat.rowNum;
      columnNum := seat.columnNum;
      id := seat.id;
      status := seat.status;
    }

    /** Changes the status; id, row and column are constants. */
    method SetStatus(status: SeatStatus)
      modifies this
      ensures this.status == status
    {
      this.status := status;
    }
  }

}
