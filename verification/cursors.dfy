/** The result sets the contacts provider hands back, read row by row. */
module Cursors {

  /** A query's result set. The rows are fixed when the query runs; the cursor
      holds a position, which runs from -1 (before the first row) to |rows|
      (after the last row), and whether it has been released. */
  class Cursor<T> {
    const rows: seq<T>
    var pos: int
    var closed: bool

    /** The position never leaves the range before-first .. after-last. */
    ghost predicate Valid()
      reads this
    {
      -1 <= pos <= |rows|
    }

    /** A fresh result set, open and positioned before its first row. */
    constructor (rows: seq<T>)
      ensures this.rows == rows
      ensures pos == -1 && !closed && Valid()
    {
      this.rows := rows;
      pos := -1;
      closed := false;
    }

    /** Moves to the first row and answers whether there is one; on an empty
        result set the cursor ends up after the (non-existent) last row. */
    method MoveToFirst() returns (ok: bool)
      requires !closed
      modifies this`pos
      ensures ok <==> 0 < |rows|
      ensures pos == if ok then 0 else |rows|
      ensures Valid()
    {
      ok := 0 < |rows|;
      pos := 0;
    }

    /** Moves one row on and answers whether the cursor is now on a row; past
        the last row it stays after the last row. */
    method MoveToNext() returns (ok: bool)
      requires !closed && Valid()
      modifies this`pos
      ensures ok <==> old(pos) + 1 < |rows|
      ensures pos == if ok then old(pos) + 1 else |rows|
      ensures Valid()
    {
      if pos + 1 < |rows| {
        pos, ok := pos + 1, true;
      } else {
        pos, ok := |rows|, false;
      }
    }

    /** Releases the result set; closing a closed cursor changes nothing. */
    method Close()
      modifies this`closed
      ensures closed
    {
      closed := true;
    }

    /** The row the cursor is on; reading needs an open cursor on a row. */
    function Row(): (r: T)
      reads this
      requires !closed && 0 <= pos < |rows|
      ensures r == rows[pos]
    {
      rows[pos]
    }
  }
}
