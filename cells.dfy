/** A spreadsheet cell as pandas reads it. */
module Cells {
  import opened Text

  /** Empty (NaN) or holding a value, kept as the text `str()` gives for it:
      an ISBN read as a number is the decimal text of that number. */
  datatype Cell = Missing | Value(text: string)

  /** `str(cell)`: the text of a present cell unchanged; an empty cell is
      the float NaN, printed "nan", which is not blank. */
  function Str(c: Cell): (s: string)
    ensures c.Value? ==> s == c.text
    ensures c.Missing? ==> !AllSpace(s)
  {
    match c
    case Missing =>
      var nan := "nan";
      assert !IsSpace(nan[0]);
      nan
    case Value(t) => t
  }
}
