/**
 * Spreadsheet cells and the per-cell clean-up rule that both cleaning passes
 * apply (data/db_updater.py, `clean_estimates` and `clean_decisions`).
 */
module Cells {
  import opened Text

  /**
   * One spreadsheet value: a number (Python `int` or `float`; a real keeps
   * their equality, so `1 == 1.0` as in Python), a string, or an empty cell
   * (`None`).
   */
  datatype Cell = Num(value: real) | Str(text: string) | Empty

  type Row = seq<Cell>

  /** Python truthiness of a cell value: only 0, the empty string and `None` are falsy. */
  predicate Truthy(c: Cell)
    ensures !Truthy(c) <==> c == Num(0.0) || c == Str("") || c == Empty
  {
    match c
    case Num(v) => v != 0.0
    case Str(s) => s != ""
    case Empty => false
  }

  /**
   * The cell rule: the string "0 " becomes the number 0, the string "1"
   * becomes the number 1, any other string is stripped of surrounding
   * whitespace, and a number or an empty cell is left alone.
   */
  function Normalise(c: Cell): (r: Cell)
    ensures c == Str("0 ") ==> r == Num(0.0)
    ensures c == Str("1") ==> r == Num(1.0)
    ensures c.Str? && c.text != "0 " && c.text != "1" ==> r == Str(Strip(c.text))
    ensures !c.Str? ==> r == c
    ensures r.Num? && c.Str? ==> c.text in {"0 ", "1"} && r.value == if c.text == "1" then 1.0 else 0.0
    ensures r.Str? ==> c.Str? && r.text == Strip(c.text) && c.text != "1" && c.text != "0 "
  {
    if c == Str("0 ") then Num(0.0)
    else if c == Str("1") then Num(1.0)
    else if c.Str? then Str(Strip(c.text))
    else c
  }

  /** The cell rule applied to every cell of a row. */
  function NormaliseAll(row: Row): (r: Row)
    ensures |r| == |row|
  {
    seq(|row|, i requires 0 <= i < |row| => Normalise(row[i]))
  }

  /**
   * Applying the rule a second time changes nothing, except for a string
   * other than "1" that strips down to "1" (" 1", "1\t", ...): the first pass
   * leaves the string "1", which the second pass turns into the number 1.
   */
  lemma NormaliseIdempotentExceptPaddedOne(c: Cell)
    ensures Normalise(Normalise(c)) == Normalise(c)
        <==> !(c.Str? && c.text != "1" && Strip(c.text) == "1")
  {
    if c.Str? && c.text != "0 " && c.text != "1" {
      StripIdempotent(c.text);
    }
  }

  /** The string " 1" shows the exception: one pass gives "1", two give the number 1. */
  lemma PaddedOneNotIdempotent()
    ensures Normalise(Str(" 1")) == Str("1")
    ensures Normalise(Normalise(Str(" 1"))) == Num(1.0)
  {
    var s := " 1";
    assert LeadingSpace(s[1..]) == 0;
    assert LeadingSpace(s) == 1;
    assert s[1..] == "1";
    assert TrailingSpace("1") == 0;
  }

  /**
   * The clean-up loop both passes run over a row: each cell in turn is
   * replaced by its normalised value, in place.
   */
  method NormaliseCells(row: Row) returns (out: Row)
    ensures |out| == |row|
    ensures forall i :: 0 <= i < |row| ==> out[i] == Normalise(row[i])
    ensures out == NormaliseAll(row)
  {
    out := row;
    var i := 0;
    while i < |out|
      invariant 0 <= i <= |out| == |row|
      invariant forall k :: 0 <= k < i ==> out[k] == Normalise(row[k])
      invariant forall k :: i <= k < |row| ==> out[k] == row[k]
    {
      var elem := out[i];
      if elem == Str("0 ") {
        out := out[i := Num(0.0)];
      } else if elem == Str("1") {
        out := out[i := Num(1.0)];
      } else if elem.Str? {
        out := out[i := Str(Strip(elem.text))];
      } else {
        out := out[i := elem];
      }
      i := i + 1;
    }
  }
}
