/**
 * What `clean_estimates` (data/db_updater.py) produces, stated as functions
 * of the data rows (the rows after the header) and the lookup table it
 * consults: one estimate record per row, and the diagnostics it emits.
 */
module Estimates {
  import opened Wrappers
  import opened Text
  import opened Cells
  import opened Suffixes
  import opened Decisions

  /** Position of the indicator label once the row index is in front. */
  const IndicatorCol: nat := 6

  /** Position of the crop/species cell once the row index is in front. */
  const CropCol: nat := 8

  /** Marker put in place of a hex ID the lookup table does not have. */
  const Unmatched: string := "NA"

  /**
   * A row the suffix chain can run on: it has an indicator cell, and that
   * cell is still a string after the cell rule (the substring tests need one).
   */
  predicate Labelled(row: Row) {
    |row| >= IndicatorCol && Normalise(row[IndicatorCol - 1]).Str?
  }

  predicate AllLabelled(body: seq<Row>) {
    forall r :: 0 <= r < |body| ==> Labelled(body[r])
  }

  /** The indicator label of a row after the cell rule and the suffix chain. */
  function Tag(row: Row): Tagged
    requires Labelled(row)
  {
    Categorize(Normalise(row[IndicatorCol - 1]).text)
  }

  /**
   * What the cleaning needs of a raw estimate row to run without a fault:
   * a label the suffix chain can run on, and a crop cell whenever the chain
   * sets a category.
   */
  predicate EstimateRowOk(row: Row) {
    Labelled(row) && (Tag(row).category.Some? ==> |row| >= CropCol)
  }

  predicate AllEstimateRowsOk(body: seq<Row>) {
    forall r :: 0 <= r < |body| ==> EstimateRowOk(body[r])
  }

  /** The hex ID the table holds for a label, or the "NA" marker. */
  function Lookup(m: map<Cell, string>, name: string): (id: string)
    ensures Str(name) in m ==> id == m[Str(name)]
    ensures Str(name) !in m ==> id == Unmatched
  {
    if Str(name) in m then m[Str(name)] else Unmatched
  }

  /** An unmatched label is reported unless it names a Kharif or Rabi season. */
  predicate Reported(m: map<Cell, string>, name: string)
    ensures Reported(m, name) ==> Lookup(m, name) == Unmatched
  {
    Str(name) !in m && !Contains(name, "(Kharif") && !Contains(name, "(Rabi")
  }

  /**
   * Data row `r` once cleaned, cell by cell, given the label `t` the suffix
   * chain yields for it: its index, then its raw cells one place further on
   * after the cell rule, except that the label is the chain's and the crop
   * cell holds the category when the chain sets one.
   */
  function CleanedRow(r: nat, row: Row, t: Tagged): (c: Row)
    requires |row| >= IndicatorCol
    ensures |c| == |row| + 1 && c[0] == Num(r as real) && c[IndicatorCol] == Str(t.text)
  {
    seq(|row| + 1, k requires 0 <= k < |row| + 1 =>
      if k == 0 then Num(r as real)
      else if k == IndicatorCol then Str(t.text)
      else if k == CropCol && t.category.Some? then Str(t.category.value)
      else Normalise(row[k - 1]))
  }

  /**
   * The cleaning as `clean_estimates` performs it (index inserted, cell rule on
   * every cell, label overwritten, crop cell overwritten when there is a
   * category) yields exactly the cell-wise description.
   */
  lemma CleanedRowSteps(r: nat, row: Row, t: Tagged)
    requires |row| >= IndicatorCol && (t.category.Some? ==> |row| >= CropCol)
    ensures var labelled := NormaliseAll([Num(r as real)] + row)[IndicatorCol := Str(t.text)];
            CleanedRow(r, row, t) == if t.category.Some? then labelled[CropCol := Str(t.category.value)] else labelled
  {
    var cells := NormaliseAll([Num(r as real)] + row);
    var labelled := cells[IndicatorCol := Str(t.text)];
    var out := if t.category.Some? then labelled[CropCol := Str(t.category.value)] else labelled;
    var spec := CleanedRow(r, row, t);
    forall k | 0 <= k < |out| ensures out[k] == spec[k] {
      if k != 0 && k != IndicatorCol && !(k == CropCol && t.category.Some?) {
        assert ([Num(r as real)] + row)[k] == row[k - 1];
        assert out[k] == cells[k];
      }
    }
  }

  /** The estimate record of data row `r`: the cleaned row with the hex ID found for its label put after the index. */
  function EstimateRecord(r: nat, row: Row, m: map<Cell, string>): (rec: Row)
    requires Labelled(row)
    ensures |rec| == |row| + 2
    ensures rec[0] == Num(r as real) && rec[1] == Str(Lookup(m, Tag(row).text))
  {
    var c := CleanedRow(r, row, Tag(row));
    [c[0], Str(Lookup(m, Tag(row).text))] + c[1..]
  }

  /** The estimate records of the first `n` data rows, in order. */
  function EstimateRecords(body: seq<Row>, n: nat, m: map<Cell, string>): (recs: seq<Row>)
    requires AllLabelled(body) && n <= |body|
    ensures |recs| == n
  {
    if n == 0 then [] else EstimateRecords(body, n - 1, m) + [EstimateRecord(n - 1, body[n - 1], m)]
  }

  /** Data row `r` becomes record `r`: the record numbering is the row order. */
  lemma {:induction false} EstimateRecordsAt(body: seq<Row>, n: nat, m: map<Cell, string>, r: nat)
    requires AllLabelled(body) && r < n <= |body|
    ensures EstimateRecords(body, n, m)[r] == EstimateRecord(r, body[r], m)
  {
    if r < n - 1 {
      EstimateRecordsAt(body, n - 1, m, r);
    }
  }

  /** The labels of the first `n` data rows once the suffix chain has run, in row order. */
  function Labels(body: seq<Row>, n: nat): (names: seq<string>)
    requires AllLabelled(body) && n <= |body|
    ensures |names| == n
  {
    if n == 0 then [] else Labels(body, n - 1) + [Tag(body[n - 1]).text]
  }

  lemma {:induction false} LabelsAt(body: seq<Row>, n: nat, r: nat)
    requires AllLabelled(body) && r < n <= |body|
    ensures Labels(body, n)[r] == Tag(body[r]).text
  {
    if r < n - 1 {
      LabelsAt(body, n - 1, r);
    }
  }

  /** The diagnostic printed for one label: the label, when it is reported. */
  function Report(m: map<Cell, string>, name: string): (lines: seq<string>)
    ensures |lines| <= 1
    ensures name in lines <==> Reported(m, name)
  {
    if Reported(m, name) then [name] else []
  }

  /** The diagnostics printed for a run of labels, in order. */
  function Reports(m: map<Cell, string>, names: seq<string>): seq<string> {
    if names == [] then [] else Reports(m, names[..|names| - 1]) + Report(m, names[|names| - 1])
  }

  /** One more label adds its own diagnostic at the end. */
  lemma ReportsAppend(m: map<Cell, string>, names: seq<string>, name: string)
    ensures Reports(m, names + [name]) == Reports(m, names) + Report(m, name)
  {
    assert (names + [name])[..|names|] == names;
  }

  /** A label is printed exactly when it is among the labels and is reported. */
  lemma {:induction false} ReportsAreReportedNames(m: map<Cell, string>, names: seq<string>, name: string)
    ensures name in Reports(m, names) <==> Reported(m, name) && name in names
  {
    if names != [] {
      var init, last := names[..|names| - 1], names[|names| - 1];
      ReportsAreReportedNames(m, init, name);
      assert names == init + [last];
    }
  }

  /** The diagnostics of the first `n` data rows, in row order. */
  function Diagnostics(body: seq<Row>, n: nat, m: map<Cell, string>): (lines: seq<string>)
    requires AllLabelled(body) && n <= |body|
    ensures |lines| <= n
  {
    if n == 0 then [] else Diagnostics(body, n - 1, m) + Report(m, Tag(body[n - 1]).text)
  }

  /** Row by row, the diagnostics are those of the rows' labels taken in order. */
  lemma {:induction false} DiagnosticsOfLabels(body: seq<Row>, n: nat, m: map<Cell, string>)
    requires AllLabelled(body) && n <= |body|
    ensures Diagnostics(body, n, m) == Reports(m, Labels(body, n))
  {
    if n > 0 {
      DiagnosticsOfLabels(body, n - 1, m);
      ReportsAppend(m, Labels(body, n - 1), Tag(body[n - 1]).text);
    }
  }

  /** A label is reported exactly when one of the first `n` rows has it, it is unmatched, and it names no season. */
  lemma DiagnosticsAreReportedLabels(body: seq<Row>, n: nat, m: map<Cell, string>, name: string)
    requires AllLabelled(body) && n <= |body|
    ensures name in Diagnostics(body, n, m) <==> Reported(m, name) && name in Labels(body, n)
  {
    DiagnosticsOfLabels(body, n, m);
    ReportsAreReportedNames(m, Labels(body, n), name);
  }

  /**
   * The join between the two tables: after the decision rows have been
   * filed, an estimate whose label is the key of decision row `j` (and of no
   * later one) carries the hex ID of `j + 1`.
   */
  lemma EstimateFindsDecision(m: map<Cell, string>, decisions: seq<Row>, r: nat, row: Row, j: nat)
    requires AllDecisionRowsOk(decisions) && Labelled(row) && j < |decisions|
    requires Key(decisions[j]) == Str(Tag(row).text)
    requires forall j' :: j < j' < |decisions| ==> Key(decisions[j']) != Key(decisions[j])
    ensures EstimateRecord(r, row, Registered(m, Keys(decisions), |decisions|))[1] == Str(Hex(j + 1))
  {
    RegisteredLastWins(m, Keys(decisions), |decisions|, j);
  }

  /** An estimate whose label neither the decision rows nor the earlier table know gets "NA". */
  lemma EstimateWithoutDecision(m: map<Cell, string>, decisions: seq<Row>, r: nat, row: Row)
    requires AllDecisionRowsOk(decisions) && Labelled(row)
    requires forall j :: 0 <= j < |decisions| ==> Key(decisions[j]) != Str(Tag(row).text)
    requires Str(Tag(row).text) !in m
    ensures EstimateRecord(r, row, Registered(m, Keys(decisions), |decisions|))[1] == Str(Unmatched)
  {
    RegisteredUntouched(m, Keys(decisions), |decisions|, Str(Tag(row).text));
  }
}
