/**
 * The generic searchable, sortable table (src/components/ui/data-table.tsx):
 * a case-insensitive search over chosen fields, a single-column sort driven
 * by header clicks, and the rule that an empty result shows one placeholder row.
 */
module DataTable {
  import opened Wrappers
  import opened Text
  import Seqs
  import Domain

  /** A field value as the table reads it from a row object. */
  datatype Value =
    | Missing                                 // null or undefined
    | Num(n: int)
    | Str(s: string)
    | DateVal(ms: Domain.Instant, text: string) // text is String(date), which depends on the time zone

  /** A row object: field name to value; an absent key reads as undefined. */
  type Row = map<string, Value>

  function FieldOf(row: Row, field: string): Value {
    if field in row then row[field] else Missing
  }

  /** `String(v)` for a value that is present. */
  function ToText(v: Value): string
    requires !v.Missing?
  {
    match v
    case Num(n) => IntToString(n)
    case Str(s) => s
    case DateVal(_, text) => text
  }

  /** JavaScript truthiness of a value (NaN and booleans do not occur in rows). */
  predicate Truthy(v: Value) {
    match v
    case Missing => false
    case Num(n) => n != 0
    case Str(s) => s != ""
    case DateVal(_, _) => true
  }

  // ---------------------------------------------------------------------
  // Search
  // ---------------------------------------------------------------------

  /** The field holds a value whose lower-cased text contains the lower-cased query. */
  predicate FieldMatches(row: Row, field: string, query: string) {
    var v := FieldOf(row, field);
    !v.Missing? && Contains(Lower(ToText(v)), Lower(query))
  }

  /** The search keeps a row when there is nothing to search for, or when any search field matches. */
  predicate RowMatches(row: Row, fields: seq<string>, query: string) {
    query == "" || |fields| == 0 || exists k :: 0 <= k < |fields| && FieldMatches(row, fields[k], query)
  }

  /**
   * The search in terms of positions: with a query and search fields, a row
   * is kept exactly when, in some search field holding a value, the
   * lower-cased query occurs at some position of the lower-cased text.
   */
  lemma RowMatchesIff(row: Row, fields: seq<string>, query: string)
    ensures RowMatches(row, fields, query) <==>
              || query == "" || |fields| == 0
              || exists k, i :: 0 <= k < |fields| && !FieldOf(row, fields[k]).Missing?
                                && OccursAt(Lower(ToText(FieldOf(row, fields[k]))), Lower(query), i)
  {
    forall k | 0 <= k < |fields| && !FieldOf(row, fields[k]).Missing? {
      ContainsIff(Lower(ToText(FieldOf(row, fields[k]))), Lower(query));
    }
  }

  /** `filteredData`. */
  function FilterRows(data: seq<Row>, fields: seq<string>, query: string): (r: seq<Row>)
    ensures Seqs.IsSubsequence(r, data)
    ensures query == "" || |fields| == 0 ==> r == data
    ensures query != "" && |fields| > 0 ==>
              forall i :: 0 <= i < |r| ==> exists k :: 0 <= k < |fields| && FieldMatches(r[i], fields[k], query)
    ensures forall i :: 0 <= i < |data| && RowMatches(data[i], fields, query) ==> data[i] in r
    ensures forall x :: multiset(r)[x] == if RowMatches(x, fields, query) then multiset(data)[x] else 0
  {
    var keep := (row: Row) => RowMatches(row, fields, query);
    Seqs.FilterMultiset(data, keep);
    if query == "" || |fields| == 0 then
      Seqs.FilterAll(data, keep);
      Seqs.Filter(data, keep)
    else
      Seqs.Filter(data, keep)
  }

  /** A field that is null or undefined never matches, whatever the query. */
  lemma MissingNeverMatches(row: Row, fields: seq<string>, query: string)
    requires query != "" && |fields| > 0
    requires forall k :: 0 <= k < |fields| ==> FieldOf(row, fields[k]).Missing?
    ensures !RowMatches(row, fields, query)
    ensures row !in FilterRows([row], fields, query)
  {
  }

  // ---------------------------------------------------------------------
  // Sort
  // ---------------------------------------------------------------------

  datatype Direction = Asc | Desc

  /** The table's `sortColumn` and `sortDirection`. */
  datatype SortState = SortState(column: Option<string>, direction: Direction)

  const InitialSortState: SortState := SortState(None, Asc)

  /** A sort is in force when the column is set and not the (falsy) empty string. */
  predicate Active(st: SortState) {
    st.column.Some? && st.column.value != ""
  }

  /** `String(v || "")`: falsy values sort as the empty string. */
  function SortKey(v: Value): string {
    if Truthy(v) then ToText(v) else ""
  }

  /**
   * The comparator for one column's values: equal values tie, two dates
   * compare by time, anything else compares by text.
   */
  function CompareValues(dir: Direction, a: Value, b: Value): int {
    if a == b then 0
    else if a.DateVal? && b.DateVal? then
      (if dir == Asc then a.ms - b.ms else b.ms - a.ms)
    else if dir == Asc then LexCompare(SortKey(a), SortKey(b))
    else LexCompare(SortKey(b), SortKey(a))
  }

  /** The comparator handed to `sort`. */
  function CompareRows(st: SortState, a: Row, b: Row): int {
    if !Active(st) then 0
    else CompareValues(st.direction, FieldOf(a, st.column.value), FieldOf(b, st.column.value))
  }

  function RowOrder(st: SortState): (Row, Row) -> int {
    (a: Row, b: Row) => CompareRows(st, a, b)
  }

  /** Two dates compare by time: ascending puts the earlier first, descending the later. */
  lemma CompareDatesByTime(dir: Direction, a: Value, b: Value)
    requires a.DateVal? && b.DateVal?
    ensures dir == Asc ==> (CompareValues(dir, a, b) < 0 <==> a.ms < b.ms)
    ensures dir == Desc ==> (CompareValues(dir, a, b) < 0 <==> b.ms < a.ms)
    ensures a.ms == b.ms ==> CompareValues(dir, a, b) == 0
  {
  }

  /** Descending order is ascending order with the arguments swapped. */
  lemma DescendingSwapsAscending(a: Value, b: Value)
    ensures CompareValues(Desc, a, b) == CompareValues(Asc, b, a)
  {
  }

  /** Swapping the arguments flips the sign of the comparison; a value ties with itself. */
  lemma CompareValuesAntisymmetric(dir: Direction, a: Value, b: Value)
    ensures CompareValues(dir, b, a) == -CompareValues(dir, a, b)
    ensures CompareValues(dir, a, a) == 0
  {
    LexCompareAntisymmetric(SortKey(a), SortKey(b));
  }

  /** When not both values are dates, the comparison is by text alone, even for equal values. */
  lemma CompareValuesByText(dir: Direction, a: Value, b: Value)
    requires !(a.DateVal? && b.DateVal?)
    ensures CompareValues(dir, a, b)
            == if dir == Asc then LexCompare(SortKey(a), SortKey(b)) else LexCompare(SortKey(b), SortKey(a))
  {
    LexCompareZeroIff(SortKey(a), SortKey(b));
  }

  /** A column holds dates in every row or in none: the comparator is then a total preorder. */
  ghost predicate UniformColumn(rows: seq<Row>, column: string) {
    (forall i :: 0 <= i < |rows| ==> FieldOf(rows[i], column).DateVal?)
    || (forall i :: 0 <= i < |rows| ==> !FieldOf(rows[i], column).DateVal?)
  }

  lemma CompareValuesTransitive(dir: Direction, a: Value, b: Value, c: Value)
    requires (a.DateVal? && b.DateVal? && c.DateVal?) || (!a.DateVal? && !b.DateVal? && !c.DateVal?)
    requires CompareValues(dir, a, b) <= 0 && CompareValues(dir, b, c) <= 0
    ensures CompareValues(dir, a, c) <= 0
  {
    if !a.DateVal? {
      CompareValuesByText(dir, a, b);
      CompareValuesByText(dir, b, c);
      CompareValuesByText(dir, a, c);
      if dir == Asc {
        LexCompareTransitive(SortKey(a), SortKey(b), SortKey(c));
      } else {
        LexCompareTransitive(SortKey(c), SortKey(b), SortKey(a));
      }
    }
  }

  lemma UniformColumnPreorder(st: SortState, rows: seq<Row>)
    requires Active(st) && UniformColumn(rows, st.column.value)
    ensures Seqs.TotalPreorderOn(rows, RowOrder(st))
  {
    var cmp := RowOrder(st);
    var col := st.column.value;
    forall a, b | a in rows && b in rows
      ensures cmp(a, b) <= 0 || cmp(b, a) <= 0
    {
      CompareValuesAntisymmetric(st.direction, FieldOf(a, col), FieldOf(b, col));
    }
    forall a, b, c | a in rows && b in rows && c in rows && cmp(a, b) <= 0 && cmp(b, c) <= 0
      ensures cmp(a, c) <= 0
    {
      var i :| 0 <= i < |rows| && rows[i] == a;
      var j :| 0 <= j < |rows| && rows[j] == b;
      var k :| 0 <= k < |rows| && rows[k] == c;
      CompareValuesTransitive(st.direction, FieldOf(a, col), FieldOf(b, col), FieldOf(c, col));
    }
  }

  /** `sortedData`: a rearrangement of the rows, in the original order when no sort is in force. */
  function SortRows(st: SortState, rows: seq<Row>): (r: seq<Row>)
    ensures multiset(r) == multiset(rows)
    ensures !Active(st) ==> r == rows
  {
    if !Active(st) then
      Seqs.SortByNeutral(rows, RowOrder(st));
      Seqs.SortBy(rows, RowOrder(st))
    else
      Seqs.SortBy(rows, RowOrder(st))
  }

  /** On a column that holds dates in every row or in none, the sorted rows are in comparator order. */
  lemma SortRowsOrdered(st: SortState, rows: seq<Row>)
    requires Active(st) && UniformColumn(rows, st.column.value)
    ensures Seqs.SortedBy(SortRows(st, rows), RowOrder(st))
  {
    UniformColumnPreorder(st, rows);
    Seqs.SortBySorted(rows, RowOrder(st));
  }

  // ---------------------------------------------------------------------
  // Header clicks
  // ---------------------------------------------------------------------

  /** A column reads a field by key, or computes its cell with a render function. */
  datatype Accessor = Key(name: string) | Computed

  datatype Column = Column(header: string, accessor: Accessor, enableSorting: bool)

  predicate Sortable(col: Column) {
    col.accessor.Key? && col.enableSorting
  }

  function Flip(d: Direction): (r: Direction)
    ensures r != d
  {
    if d == Asc then Desc else Asc
  }

  /** `handleSort`. */
  function HandleSort(st: SortState, col: Column): (r: SortState)
    ensures !Sortable(col) ==> r == st
    ensures Sortable(col) ==> r.column == Some(col.accessor.name)
    ensures Sortable(col) && st.column == Some(col.accessor.name) ==> r.direction != st.direction
    ensures Sortable(col) && st.column != Some(col.accessor.name) ==> r.direction == Asc
  {
    if !Sortable(col) then st
    else if st.column == Some(col.accessor.name) then SortState(st.column, Flip(st.direction))
    else SortState(Some(col.accessor.name), Asc)
  }

  /** Clicking the active column twice restores the sort. */
  lemma HandleSortTwiceRestores(st: SortState, col: Column)
    requires Sortable(col) && st.column == Some(col.accessor.name)
    ensures HandleSort(HandleSort(st, col), col) == st
  {
  }

  /** From a new column, the first click sorts ascending and the second descending. */
  lemma HandleSortNewColumn(st: SortState, col: Column)
    requires Sortable(col) && st.column != Some(col.accessor.name)
    ensures HandleSort(st, col) == SortState(Some(col.accessor.name), Asc)
    ensures HandleSort(HandleSort(st, col), col) == SortState(Some(col.accessor.name), Desc)
  {
  }

  /** The sort column is absent or is the key of a sortable column of the table. */
  ghost predicate ValidSortState(st: SortState, columns: seq<Column>) {
    st.column.None? || exists c :: c in columns && Sortable(c) && c.accessor.name == st.column.value
  }

  /** Clicks on the table's own headers keep the sort column one of its sortable keys. */
  lemma HandleSortKeepsValid(st: SortState, columns: seq<Column>, col: Column)
    requires ValidSortState(st, columns) && col in columns
    ensures ValidSortState(HandleSort(st, col), columns)
  {
  }

  /** The arrow next to a header: shown only on the sortable column being sorted. */
  function SortIndicator(st: SortState, col: Column): (r: Option<Direction>)
    ensures r.Some? <==> col.enableSorting && col.accessor.Key? && st.column == Some(col.accessor.name)
    ensures r.Some? ==> r.value == st.direction
  {
    if col.enableSorting && col.accessor.Key? && st.column == Some(col.accessor.name) then Some(st.direction)
    else None
  }

  /** Two headers show an arrow at once only when they sort the same key. */
  lemma AtMostOneIndicator(st: SortState, c1: Column, c2: Column)
    requires SortIndicator(st, c1).Some? && SortIndicator(st, c2).Some?
    ensures c1.accessor == c2.accessor
  {
  }

  // ---------------------------------------------------------------------
  // Body
  // ---------------------------------------------------------------------

  datatype BodyRow = NoResults(colSpan: nat) | DataRow(row: Row)

  /** The table body: one placeholder spanning all columns when nothing is left, else one row per result. */
  function Body(sorted: seq<Row>, columns: seq<Column>): (r: seq<BodyRow>)
    ensures |r| == if |sorted| == 0 then 1 else |sorted|
    ensures |sorted| == 0 ==> r[0] == NoResults(|columns|)
    ensures |sorted| > 0 ==> forall i :: 0 <= i < |r| ==> r[i] == DataRow(sorted[i])
  {
    if |sorted| == 0 then [NoResults(|columns|)]
    else seq(|sorted|, i requires 0 <= i < |sorted| => DataRow(sorted[i]))
  }

  /** Everything the table shows for its inputs and state. */
  function View(data: seq<Row>, columns: seq<Column>, fields: seq<string>, query: string, st: SortState)
    : seq<BodyRow>
  {
    Body(SortRows(st, FilterRows(data, fields, query)), columns)
  }

  /** Every row the table shows is a row of the data that passes the search. */
  lemma ViewShowsMatchingRows(data: seq<Row>, columns: seq<Column>, fields: seq<string>, query: string,
                              st: SortState, i: int)
    requires 0 <= i < |View(data, columns, fields, query, st)|
    requires View(data, columns, fields, query, st)[i].DataRow?
    ensures View(data, columns, fields, query, st)[i].row in data
    ensures RowMatches(View(data, columns, fields, query, st)[i].row, fields, query)
  {
    var filtered := FilterRows(data, fields, query);
    var sorted := SortRows(st, filtered);
    var row := sorted[i];
    assert row in multiset(sorted);
    assert row in filtered;
    FilteredRowsMatch(data, fields, query, row);
  }

  lemma FilteredRowsMatch(data: seq<Row>, fields: seq<string>, query: string, row: Row)
    requires row in FilterRows(data, fields, query)
    ensures row in data && RowMatches(row, fields, query)
  {
    var r := FilterRows(data, fields, query);
    var keep := (row: Row) => RowMatches(row, fields, query);
    var i :| 0 <= i < |r| && r[i] == row;
    assert r == Seqs.Filter(data, keep);
  }
}
