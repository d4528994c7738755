/** Worksheet cells as the publisher sees them, and the helper `s` that turns a cell
    value into display text. */
module Cells {
  import opened Text

  /** A cell value: empty, text, or a whole number. */
  datatype Cell = None | Str(text: string) | Int(value: int)

  /** A worksheet, addressed by (row, column), both counted from 1. Reading a cell
      that holds nothing gives None. */
  type Sheet = (int, int) -> Cell

  /** Python's str() of a non-None cell value. */
  function Repr(x: Cell): string
    requires !x.None?
  {
    match x
    case Str(t) => t
    case Int(i) => IntToString(i)
  }

  /** The helper `s`: a missing value becomes "", anything else its stripped text. */
  function S(x: Cell): (r: string)
    ensures x.None? ==> r == ""
    ensures !x.None? ==> r == Strip(Repr(x))
    ensures x.Int? ==> r == IntToString(x.value)
    ensures Trimmed(r)
  {
    match x
    case None => ""
    case Str(t) => Strip(t)
    case Int(i) =>
      // the rendering of a number has no whitespace at its ends, so stripping keeps it
      StripTrimmed(IntToString(i));
      Strip(IntToString(i))
  }

  /** The stop condition of row extraction, `a in (None, "")`: only a missing value or
      the empty string is blank; whitespace-only text and the number 0 are not. */
  predicate IsBlank(x: Cell) {
    x == None || x == Str("")
  }

  /** Python truthiness of a cell value, as used by `or`. */
  predicate Truthy(x: Cell) {
    match x
    case None => false
    case Str(t) => t != ""
    case Int(i) => i != 0
  }

  /** Python's `a or b`: the first operand when it is truthy, else the second. */
  function Or(a: Cell, b: Cell): (r: Cell)
    ensures Truthy(a) ==> r == a
    ensures !Truthy(a) ==> r == b
  {
    if Truthy(a) then a else b
  }
}
