/**
 * Keeping the rows of the export table that have an ISBN: the boolean mask
 * `ISBN is not NaN` and `str(ISBN).strip() != ""` applied to the table, and
 * the number of rows that remain.
 */
module IsbnFilter {
  import opened Text
  import opened Cells

  /** A table row: its ISBN cell and the cells of the other columns. */
  datatype Row = Row(isbn: Cell, others: seq<Cell>)

  /** The mask condition for one row. */
  predicate HasIsbn(r: Row): (b: bool)
    ensures b <==> r.isbn.Value? && !AllSpace(r.isbn.text)
  {
    r.isbn.Value? && Strip(Str(r.isbn)) != ""
  }

  /** The boolean mask over the table. */
  function Mask(rows: seq<Row>): (mask: seq<bool>)
    ensures |mask| == |rows|
    ensures forall i :: 0 <= i < |rows| ==> mask[i] == HasIsbn(rows[i])
  {
    seq(|rows|, i requires 0 <= i < |rows| => HasIsbn(rows[i]))
  }

  /** Indexing a table by a boolean mask: the rows where the mask is true. */
  function Select<T>(xs: seq<T>, mask: seq<bool>): (r: seq<T>)
    requires |mask| == |xs|
    ensures |r| <= |xs|
    ensures forall k :: 0 <= k < |r| ==> r[k] in xs
  {
    if xs == [] then []
    else Select(xs[..|xs| - 1], mask[..|xs| - 1]) + (if mask[|xs| - 1] then [xs[|xs| - 1]] else [])
  }

  /** The positions where the mask is true, in order. */
  function Selected(mask: seq<bool>): seq<nat> {
    if mask == [] then []
    else Selected(mask[..|mask| - 1]) + (if mask[|mask| - 1] then [|mask| - 1] else [])
  }

  /** The selected positions lie inside the mask, increase strictly, and
      are exactly the positions where the mask is true. */
  lemma {:induction false} SelectedPositions(mask: seq<bool>)
    ensures forall k :: 0 <= k < |Selected(mask)| ==> Selected(mask)[k] < |mask|
    ensures forall k, l :: 0 <= k < l < |Selected(mask)| ==> Selected(mask)[k] < Selected(mask)[l]
    ensures forall i :: 0 <= i < |mask| ==> (i in Selected(mask) <==> mask[i])
  {
    if mask != [] {
      var n := |mask| - 1;
      var init := mask[..n];
      SelectedPositions(init);
      assert Selected(mask) == Selected(init) + (if mask[n] then [n] else []);
      assert forall i :: 0 <= i < n ==> init[i] == mask[i];
    }
  }

  /** The k-th row kept is the row at the k-th selected position. */
  lemma {:induction false} SelectAt<T>(xs: seq<T>, mask: seq<bool>)
    requires |mask| == |xs|
    ensures |Selected(mask)| == |Select(xs, mask)|
    ensures forall k :: 0 <= k < |Selected(mask)| ==>
      Selected(mask)[k] < |xs| && Select(xs, mask)[k] == xs[Selected(mask)[k]]
  {
    SelectedPositions(mask);
    if xs != [] {
      var n := |xs| - 1;
      SelectAt(xs[..n], mask[..n]);
      assert Selected(mask) == Selected(mask[..n]) + (if mask[n] then [n] else []);
      assert Select(xs, mask) == Select(xs[..n], mask[..n]) + (if mask[n] then [xs[n]] else []);
      assert forall i :: 0 <= i < n ==> xs[..n][i] == xs[i];
    }
  }

  /**
   * Masking is a selection: the result is the rows at strictly increasing
   * positions (a subsequence, nothing added, order kept), and a position is
   * among them exactly when the mask is true there.
   */
  lemma SelectIsSubsequence<T>(xs: seq<T>, mask: seq<bool>)
    requires |mask| == |xs|
    ensures |Selected(mask)| == |Select(xs, mask)|
    ensures forall k :: 0 <= k < |Selected(mask)| ==>
      Selected(mask)[k] < |xs| && Select(xs, mask)[k] == xs[Selected(mask)[k]]
    ensures forall k, l :: 0 <= k < l < |Selected(mask)| ==> Selected(mask)[k] < Selected(mask)[l]
    ensures forall i :: 0 <= i < |xs| ==> (i in Selected(mask) <==> mask[i])
  {
    SelectedPositions(mask);
    SelectAt(xs, mask);
  }

  /** The number of rows a mask keeps is the number of true positions. */
  lemma {:induction false} SelectCount<T>(xs: seq<T>, mask: seq<bool>)
    requires |mask| == |xs|
    ensures |Select(xs, mask)| == |set i | 0 <= i < |xs| && mask[i]|
  {
    if xs != [] {
      var n := |xs| - 1;
      SelectCount(xs[..n], mask[..n]);
      var before := set i | 0 <= i < n && mask[..n][i];
      var after := set i | 0 <= i < |xs| && mask[i];
      if mask[n] {
        assert after == before + {n};
      } else {
        assert after == before;
      }
    }
  }

  /** `df[mask]`: the rows that have an ISBN, in table order. */
  function IsbnOnly(rows: seq<Row>): (kept: seq<Row>)
    ensures |kept| <= |rows|
    ensures forall k :: 0 <= k < |kept| ==> kept[k] in rows && HasIsbn(kept[k])
  {
    var mask := Mask(rows);
    SelectIsSubsequence(rows, mask);
    Select(rows, mask)
  }

  /** A position where the mask is true is kept, at its place among the
      selected positions. */
  lemma {:induction false} SelectKeeps<T>(xs: seq<T>, mask: seq<bool>, i: nat) returns (k: nat)
    requires |mask| == |xs| && i < |xs| && mask[i]
    ensures k < |Select(xs, mask)| && Select(xs, mask)[k] == xs[i]
    ensures k < |Selected(mask)| && Selected(mask)[k] == i
  {
    var n := |xs| - 1;
    if i == n {
      SelectIsSubsequence(xs[..n], mask[..n]);
      k := |Select(xs[..n], mask[..n])|;
    } else {
      assert mask[..n][i] == mask[i] && xs[..n][i] == xs[i];
      k := SelectKeeps(xs[..n], mask[..n], i);
    }
  }

  /** Every row that has an ISBN is kept. */
  lemma KeepsEveryRowWithIsbn(rows: seq<Row>, i: nat)
    requires i < |rows| && HasIsbn(rows[i])
    ensures rows[i] in IsbnOnly(rows)
  {
    var k := SelectKeeps(rows, Mask(rows), i);
  }

  /** The printed count: the number of kept rows is the number of rows of
      the table that have an ISBN. */
  lemma PrintedCount(rows: seq<Row>)
    ensures |IsbnOnly(rows)| == |set i | 0 <= i < |rows| && HasIsbn(rows[i])|
  {
    var mask := Mask(rows);
    SelectCount(rows, mask);
    assert (set i | 0 <= i < |rows| && mask[i]) == (set i | 0 <= i < |rows| && HasIsbn(rows[i]));
  }

  /** A row whose ISBN is blank or only whitespace is dropped, and so is a
      row without an ISBN, although `str()` of the empty cell is "nan". */
  lemma DroppedRows(r: Row)
    ensures r.isbn.Value? && AllSpace(r.isbn.text) ==> IsbnOnly([r]) == []
    ensures r.isbn.Missing? ==> Strip(Str(r.isbn)) != "" && IsbnOnly([r]) == []
  {
    assert [r][..0] == [] && Mask([r])[..0] == [];
    if r.isbn.Missing? {
      assert !IsSpace(Str(r.isbn)[0]);
    }
  }
}
