/**
 The sort-direction store: for each table, the one column that carries a
 sort direction and that direction.
 */
module SortStore {

  /** `'none' | 'desc' | 'asc'`. */
  datatype SortDir = Unsorted | Desc | Asc

  /** `{ t: column, dir }`: the sorted column of one table and its direction. */
  datatype SortEntry = SortEntry(t: string, dir: SortDir)

  /** What `useSort(table, column)` hands to a header. */
  datatype SortHook = SortHook(table: string, column: string, dir: SortDir)

  class Sorts {
    /** `sort`: the entry per table name. */
    var sort: map<string, SortEntry>

    /** The store starts with no entry, so every column reads `'none'`. */
    constructor ()
      ensures sort == map[]
      ensures forall table, column :: GetColumn(table, column) == Unsorted
    {
      sort := map[];
    }

    /** `getColumn(table, column)`: the recorded direction when `column` is the
        table's recorded column, `'none'` otherwise. */
    function GetColumn(table: string, column: string): (d: SortDir)
      reads this
      ensures (table in sort && sort[table].t == column) ==> d == sort[table].dir
      ensures !(table in sort && sort[table].t == column) ==> d == Unsorted
    {
      if table in sort && sort[table].t == column then sort[table].dir else Unsorted
    }

    /** `setIt(table, column, dir)`: overwrite the entry of `table`. */
    method SetIt(table: string, column: string, dir: SortDir)
      modifies this
      ensures sort == old(sort)[table := SortEntry(column, dir)]
      ensures GetColumn(table, column) == dir
      ensures forall c :: c != column ==> GetColumn(table, c) == Unsorted
      ensures forall t, c :: t != table ==> GetColumn(t, c) == old(GetColumn(t, c))
      ensures old(table in sort && sort[table] == SortEntry(column, dir)) ==> sort == old(sort)
    {
      sort := sort[table := SortEntry(column, dir)];
    }

    /** `useSort(table, column)`: the direction the header shows. */
    function UseSort(table: string, column: string): (h: SortHook)
      reads this
      ensures h.table == table && h.column == column
      ensures h.dir != Unsorted ==> table in sort && sort[table] == SortEntry(column, h.dir)
      ensures table in sort && sort[table].t == column ==> h.dir == sort[table].dir
    {
      SortHook(table, column, GetColumn(table, column))
    }

    /** `useSort(table, column).set(dir)`: `setIt` on the hook's table and column. */
    method SetVia(h: SortHook, dir: SortDir)
      modifies this
      ensures sort == old(sort)[h.table := SortEntry(h.column, dir)]
      ensures UseSort(h.table, h.column).dir == dir
    {
      SetIt(h.table, h.column, dir);
    }
  }

  /** At most one column of a table carries a direction. */
  lemma OneSortedColumn(s: Sorts, table: string, c1: string, c2: string)
    requires s.GetColumn(table, c1) != Unsorted && s.GetColumn(table, c2) != Unsorted
    ensures c1 == c2
  {
  }
}
