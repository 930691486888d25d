/** The search filter of the reference table: a row is kept when one of its
    field values, lower-cased, includes the lower-cased query. */
module Filter {
  import opened Text

  /** A row as the filter sees it: its field values, already converted to
      text, in the order Object.values lists them. */
  type Row = seq<string>

  /** One field value matches an (already lower-cased) query: the query
      then fits inside the field, and an empty field matches only the empty query. */
  predicate FieldMatches(value: string, query: string)
    ensures FieldMatches(value, query) ==> |query| <= |value|
  {
    Includes(Lower(value), query)
  }

  /** A field matches exactly when the query occurs at some position of the
      field's lower-cased text. */
  lemma FieldMatchesIff(value: string, query: string)
    ensures FieldMatches(value, query) ==> exists i :: OccursAt(Lower(value), query, i)
    ensures (exists i :: OccursAt(Lower(value), query, i)) ==> FieldMatches(value, query)
  {
    if FieldMatches(value, query) {
      var i := IncludedOccurrence(Lower(value), query);
    }
    forall i | OccursAt(Lower(value), query, i) ensures FieldMatches(value, query) {
      OccurrenceIncluded(Lower(value), query, i);
    }
  }

  /** Some field of the row matches the query. Like `.some`, it can be read
      left to right: the first field matches, or one of the others does. */
  predicate RowMatches(row: Row, query: string)
    ensures RowMatches(row, query) <==>
              row != [] && (FieldMatches(row[0], query) || RowMatches(row[1..], query))
  {
    exists i :: 0 <= i < |row| && FieldMatches(row[i], query)
  }

  /** Array.prototype.filter with RowMatches as the test: the matching rows, in order. */
  function FilterRows(data: seq<Row>, query: string): (r: seq<Row>)
    ensures |r| <= |data|
    ensures forall k :: 0 <= k < |r| ==> r[k] in data && RowMatches(r[k], query)
  {
    if data == [] then []
    else if RowMatches(data[0], query) then [data[0]] + FilterRows(data[1..], query)
    else FilterRows(data[1..], query)
  }

  /** The table's filteredData: the whole dataset when the lower-cased query
      is empty, otherwise the rows that match it. */
  function FilteredData(data: seq<Row>, searchQuery: string): (r: seq<Row>)
    ensures searchQuery == [] ==> r == data
    ensures |r| <= |data|
    ensures forall k :: 0 <= k < |r| ==> r[k] in data
    ensures searchQuery != [] ==> forall k :: 0 <= k < |r| ==> RowMatches(r[k], Lower(searchQuery))
  {
    var query := Lower(searchQuery);
    if query != [] then FilterRows(data, query) else data
  }

  /** `idx` lists positions of `data` in strictly increasing order and `r` is
      the rows found at those positions. */
  ghost predicate SelectedBy(r: seq<Row>, data: seq<Row>, idx: seq<int>) {
    && |idx| == |r|
    && (forall k :: 0 <= k < |idx| ==> 0 <= idx[k] < |data| && r[k] == data[idx[k]])
    && (forall k, l :: 0 <= k < l < |idx| ==> idx[k] < idx[l])
  }

  /** A selection from the tail of `data` is a selection from `data` at
      positions one further on. */
  lemma ShiftSelection(r: seq<Row>, data: seq<Row>, rest: seq<int>) returns (shifted: seq<int>)
    requires data != [] && SelectedBy(r, data[1..], rest)
    ensures SelectedBy(r, data, shifted)
    ensures forall k :: 0 <= k < |shifted| ==> shifted[k] == rest[k] + 1
    ensures forall j :: 1 <= j < |data| ==> (j in shifted <==> j - 1 in rest)
    ensures 0 !in shifted
  {
    shifted := seq(|rest|, k requires 0 <= k < |rest| => rest[k] + 1);
    forall j | 1 <= j < |data| && j - 1 in rest ensures j in shifted {
      var k :| 0 <= k < |rest| && rest[k] == j - 1;
      assert shifted[k] == j;
    }
  }

  /** Putting the first row in front of a selection made from positions past 0. */
  lemma PrependSelection(r: seq<Row>, data: seq<Row>, shifted: seq<int>)
    requires data != [] && SelectedBy(r, data, shifted)
    requires forall k :: 0 <= k < |shifted| ==> shifted[k] >= 1
    ensures SelectedBy([data[0]] + r, data, [0] + shifted)
  {
  }

  /** The filter keeps exactly the matching rows, in their original order:
      its result is the subsequence of `data` at the positions whose row matches. */
  lemma {:induction false} FilterRowsSelects(data: seq<Row>, query: string) returns (idx: seq<int>)
    ensures SelectedBy(FilterRows(data, query), data, idx)
    ensures forall j :: 0 <= j < |data| ==> (RowMatches(data[j], query) <==> j in idx)
  {
    if data == [] {
      idx := [];
    } else {
      var tail := FilterRows(data[1..], query);
      var rest := FilterRowsSelects(data[1..], query);
      var shifted := ShiftSelection(tail, data, rest);
      var first := RowMatches(data[0], query);
      idx := if first then [0] + shifted else shifted;
      if first {
        PrependSelection(tail, data, shifted);
      }
      forall j | 0 <= j < |data| ensures RowMatches(data[j], query) <==> j in idx {
        if j > 0 {
          assert data[j] == data[1..][j - 1];
        }
      }
    }
  }

  /** Every row of the dataset that matches the query survives the filter. */
  lemma FilterRowsComplete(data: seq<Row>, query: string, j: int)
    requires 0 <= j < |data| && RowMatches(data[j], query)
    ensures data[j] in FilterRows(data, query)
  {
    var idx := FilterRowsSelects(data, query);
    var k :| 0 <= k < |idx| && idx[k] == j;
  }

  /** Filtering the filtered rows again with the same query changes nothing. */
  lemma {:induction false} FilterRowsIdempotent(data: seq<Row>, query: string)
    ensures FilterRows(FilterRows(data, query), query) == FilterRows(data, query)
  {
    if data != [] {
      FilterRowsIdempotent(data[1..], query);
    }
  }

  /** With a non-empty query, a row of the dataset is in filteredData exactly
      when one of its fields, lower-cased, includes the lower-cased query. */
  lemma FilteredDataMembership(data: seq<Row>, searchQuery: string, j: int)
    requires searchQuery != [] && 0 <= j < |data|
    ensures data[j] in FilteredData(data, searchQuery)
        <==> exists i :: 0 <= i < |data[j]| && Includes(Lower(data[j][i]), Lower(searchQuery))
  {
    if RowMatches(data[j], Lower(searchQuery)) {
      FilterRowsComplete(data, Lower(searchQuery), j);
    }
  }
}
