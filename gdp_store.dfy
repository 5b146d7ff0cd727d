/**
  The `Countries_by_GDP` table as the store sees it: stored rows with their AUTOINCREMENT ids,
  and the batch insert of the load step. Every column is NOT NULL, so a batch with a row
  that lacks a region fails as a whole and the table is left as it was (the insert runs in one
  transaction that is rolled back).
*/
module GdpStore {
  import opened Wrappers
  import opened SqlExecutor
  import opened GdpQueries

  /** A binding row of the shape `(Country, GDP_USD_billion, Region, Year)` with no NULL. */
  predicate Storable(row: Row) {
    |row| == 4 && row[0].TextValue? && row[1].RealValue? && row[2].TextValue? && row[3].IntValue?
  }

  /** The stored row a binding row becomes under the given id. */
  function StoredOf(row: Row, id: int): (x: StoredRow)
    requires Storable(row)
    ensures x.id == id && x.country == row[0].s && x.gdpBillion == row[1].r
    ensures x.region == row[2].s && x.year == row[3].i
  {
    StoredRow(id, row[0].s, row[1].r, row[2].s, row[3].i)
  }

  /** The rows a batch adds when the first new id is `first`: consecutive ids, batch order. */
  function StoredBatch(batch: seq<Row>, first: int): (r: seq<StoredRow>)
    requires forall i :: 0 <= i < |batch| ==> Storable(batch[i])
    ensures |r| == |batch|
    ensures forall i :: 0 <= i < |batch| ==> r[i] == StoredOf(batch[i], first + i)
  {
    seq(|batch|, i requires 0 <= i < |batch| => StoredOf(batch[i], first + i))
  }

  /** The batch the store takes: non-empty, with every row complete. */
  predicate Accepted(batch: seq<Row>)
    ensures Accepted(batch) <==> batch != [] && forall x :: x in batch ==> Storable(x)
  {
    |batch| > 0 && forall i :: 0 <= i < |batch| ==> Storable(batch[i])
  }

  class GdpTable {
    var rows: seq<StoredRow>
    var nextId: int

    /** Ids increase along the table and stay below the next id to hand out. */
    ghost predicate Valid()
      reads this
    {
      nextId >= 1 &&
      (forall i :: 0 <= i < |rows| ==> 1 <= rows[i].id < nextId) &&
      (forall i, j :: 0 <= i < j < |rows| ==> rows[i].id < rows[j].id)
    }

    /** A new, empty table (`CREATE TABLE IF NOT EXISTS` on a fresh store). */
    constructor ()
      ensures Valid() && rows == [] && nextId == 1
    {
      rows := [];
      nextId := 1;
    }

    /**
      `INSERT INTO ... VALUES (?, ?, ?, ?)` over a batch. An empty batch reaches the store as a
      plain execution without bindings, which fails. Otherwise the rows are inserted one by one
      within one transaction; the first row the table refuses rolls the whole batch back. The
      cursor's row count is the number of rows inserted; its last row id stays `None`, the
      value of a new cursor, because `executemany` does not update it.
    */
    method InsertBatch(batch: seq<Row>) returns (out: CursorOutcome)
      requires Valid()
      modifies this
      ensures Valid()
      ensures out.StoreError? <==> !Accepted(batch)
      ensures out.StoreError? ==> rows == old(rows) && nextId == old(nextId)
      ensures out.Executed? ==> out == Executed([], None, |batch|)
      ensures out.Executed? ==> nextId == old(nextId) + |batch|
      ensures out.Executed? ==> rows == old(rows) + StoredBatch(batch, old(nextId))
    {
      if |batch| == 0 {
        return StoreError("Incorrect number of bindings supplied");
      }
      var pending: seq<StoredRow> := [];
      var i := 0;
      while i < |batch|
        invariant 0 <= i <= |batch|
        invariant forall k :: 0 <= k < i ==> Storable(batch[k])
        invariant pending == StoredBatch(batch[..i], nextId)
      {
        if !Storable(batch[i]) {
          return StoreError("NOT NULL constraint failed");
        }
        pending := pending + [StoredOf(batch[i], nextId + i)];
        i := i + 1;
      }
      assert batch[..i] == batch;
      rows := rows + pending;
      nextId := nextId + |batch|;
      out := Executed([], None, |batch|);
    }
  }
}
