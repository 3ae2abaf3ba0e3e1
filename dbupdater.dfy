/**
 * The stateful side of data/db_updater.py: the module-global `hexmatcher`
 * dictionary that `clean_decisions` fills and `clean_estimates` reads, the
 * diagnostic lines `clean_estimates` prints, and the two cleaning
 * functions themselves, which work on the list of rows they are given.
 */
module DbUpdater {
  import opened Text
  import opened Cells
  import opened Suffixes
  import opened Counters
  import opened Decisions
  import opened Estimates

  /** A Python list of rows, which the cleaning functions change in place. */
  class Table {
    var rows: seq<Row>

    constructor (rows: seq<Row>)
      ensures this.rows == rows
    {
      this.rows := rows;
    }
  }

  /**
   * The module state: `hexmatcher` maps a decision row's indicator cell to
   * its hex ID, and `log` holds, in order, the labels printed as unmatched.
   */
  class Updater {
    var hexmatcher: map<Cell, string>
    var log: seq<string>

    constructor ()
      ensures hexmatcher == map[] && log == []
    {
      hexmatcher := map[];
      log := [];
    }

    /**
     * `clean_decisions`: drops the header, then for each data row builds the
     * decision record (a fresh hex ID and the 15 normalised stub cells),
     * files its indicator under that ID in `hexmatcher`, and emits one
     * country-decision record per instrument, numbered by a second counter.
     */
    method CleanDecisions(t: Table) returns (indcons: seq<Row>, cntrycons: seq<Row>)
      requires |t.rows| >= 1 && AllDecisionRowsOk(t.rows[1..])
      modifies this`hexmatcher, t
      ensures t.rows == old(t.rows)[1..]
      ensures indcons == DecisionRecords(t.rows, |t.rows|)
      ensures cntrycons == CountryRecords(t.rows, |t.rows|)
      ensures hexmatcher == Registered(old(hexmatcher), Keys(t.rows), |t.rows|)
      ensures log == old(log)
    {
      indcons, cntrycons := [], [];
      var getId := new IdCounter();
      t.rows := t.rows[1..];
      var getHex := new HexCounter();
      var body := t.rows;
      var r := 0;
      while r < |body|
        invariant 0 <= r <= |body|
        invariant indcons == DecisionRecords(body, r)
        invariant cntrycons == CountryRecords(body, r)
        invariant hexmatcher == Registered(old(hexmatcher), Keys(body), r)
        invariant getId != getHex.ids
        invariant getId.next == InstrumentCount * r + 1 && getHex.ids.next == r + 1
        modifies this`hexmatcher, getId, getHex.ids
      {
        var stub;
        stub, cntrycons := CleanDecisionRow(body[r], getHex, getId, cntrycons);
        indcons := indcons + [stub];
        assert CountryRecords(body, r + 1) == CountryRecords(body, r) + RowCountryRecords(body[r], InstrumentCount * r + 1);
        r := r + 1;
      }
      assert body == old(t.rows)[1..] && r == |old(t.rows)| - 1;
    }

    /**
     * One pass of the `clean_decisions` loop: normalises the 15 stub cells,
     * puts the next hex ID in front, files the indicator under that ID, and
     * appends the row's country-decision records.
     */
    method CleanDecisionRow(row: Row, getHex: HexCounter, getId: IdCounter, cntrycons: seq<Row>)
      returns (stub: Row, out: seq<Row>)
      requires DecisionRowOk(row) && getId != getHex.ids
      modifies this`hexmatcher, getHex.ids, getId
      ensures stub == DecisionRecord(row, old(getHex.ids.next))
      ensures hexmatcher == old(hexmatcher)[Key(row) := Hex(old(getHex.ids.next))]
      ensures out == cntrycons + RowCountryRecords(row, old(getId.next))
      ensures getHex.ids.next == old(getHex.ids.next) + 1
      ensures getId.next == old(getId.next) + InstrumentCount
    {
      stub := NormaliseCells(row[..StubWidth]);
      var id := getHex.Next();
      stub := [Str(id)] + stub;
      hexmatcher := hexmatcher[stub[IndColumn] := stub[0].text];
      out := EmitCountryRecords(getId, row, stub[IndColumn], cntrycons);
    }

    /**
     * The inner loop of `clean_decisions`: appends one country-decision record
     * per instrument, each numbered by the next ID of `ids`.
     */
    method EmitCountryRecords(ids: IdCounter, row: Row, key: Cell, cntrycons: seq<Row>) returns (out: seq<Row>)
      requires DecisionRowOk(row) && key == Key(row)
      modifies ids
      ensures out == cntrycons + RowCountryRecords(row, old(ids.next))
      ensures ids.next == old(ids.next) + InstrumentCount
    {
      ghost var block := RowCountryRecords(row, ids.next);
      out := cntrycons;
      var i := 0;
      while i < InstrumentCount
        invariant 0 <= i <= InstrumentCount && |out| == |cntrycons| + i
        invariant forall k :: 0 <= k < |cntrycons| ==> out[k] == cntrycons[k]
        invariant forall k :: 0 <= k < i ==> out[|cntrycons| + k] == block[k]
        invariant ids.next == old(ids.next) + i
      {
        var n := ids.Next();
        assert block[i] == CountryRecord(row, i, n);
        out := out + [[Num(n as real), Str(Instruments[i]), row[i + StubWidth], key]];
        i := i + 1;
      }
      assert out == cntrycons + block;
    }

    /**
     * One pass of the `clean_estimates` loop: cleans the row, then inserts
     * the hex ID its label is filed under, or "NA" after printing the label
     * unless it names a Kharif or Rabi season.
     */
    method CleanEstimateRow(r: nat, raw: Row) returns (row: Row)
      requires EstimateRowOk(raw)
      modifies this`log
      ensures row == EstimateRecord(r, raw, hexmatcher)
      ensures log == old(log) + Report(hexmatcher, Tag(raw).text)
    {
      row := CleanRow(r, raw);
      var name := row[IndicatorCol].text;
      var id;
      if Str(name) in hexmatcher {
        id := hexmatcher[Str(name)];
      } else {
        if !(Contains(name, "(Kharif") || Contains(name, "(Rabi")) {
          log := log + [name];
        }
        id := Unmatched;
      }
      row := [row[0], Str(id)] + row[1..];
    }

    /**
     * One pass of the `clean_estimates` loop over the data rows `body`: row
     * `r` is cleaned where it stands and the same row is appended to the
     * output.
     */
    method CleanNext(t: Table, ghost body: seq<Row>, r: nat, output: seq<Row>, ghost log0: seq<string>) returns (output': seq<Row>)
      requires AllLabelled(body) && r < |body| && EstimateRowOk(body[r])
      requires output == EstimateRecords(body, r, hexmatcher) && t.rows == output + body[r..]
      requires log == log0 + Diagnostics(body, r, hexmatcher)
      modifies this`log, t
      ensures output' == EstimateRecords(body, r + 1, hexmatcher) && t.rows == output' + body[r + 1..]
      ensures log == log0 + Diagnostics(body, r + 1, hexmatcher)
    {
      assert t.rows[r] == body[r];
      var row := CleanEstimateRow(r, t.rows[r]);
      ReplaceNext(output, body, r, row);
      t.rows := t.rows[r := row];
      output' := output + [row];
    }

    /**
     * `clean_estimates`: drops the header and cleans every data row in
     * place; the list it returns holds the same cleaned rows, in order.
     */
    method CleanEstimates(t: Table) returns (output: seq<Row>)
      requires |t.rows| >= 1 && AllEstimateRowsOk(t.rows[1..])
      modifies this`log, t
      ensures output == EstimateRecords(old(t.rows)[1..], |old(t.rows)| - 1, hexmatcher)
      ensures t.rows == output
      ensures log == old(log) + Diagnostics(old(t.rows)[1..], |old(t.rows)| - 1, hexmatcher)
      ensures hexmatcher == old(hexmatcher)
    {
      t.rows := t.rows[1..];
      output := CleanBody(t, t.rows);
    }

    /** The `clean_estimates` loop over the data rows `body`, the header already dropped. */
    method CleanBody(t: Table, ghost body: seq<Row>) returns (output: seq<Row>)
      requires t.rows == body && AllLabelled(body) && AllEstimateRowsOk(body)
      modifies this`log, t
      ensures output == EstimateRecords(body, |body|, hexmatcher) && t.rows == output
      ensures log == old(log) + Diagnostics(body, |body|, hexmatcher)
    {
      output := [];
      var r := 0;
      while r < |t.rows|
        invariant |t.rows| == |body| && 0 <= r <= |body|
        invariant output == EstimateRecords(body, r, hexmatcher)
        invariant t.rows == output + body[r..]
        invariant log == old(log) + Diagnostics(body, r, hexmatcher)
        modifies this`log, t
      {
        output := CleanNext(t, body, r, output, old(log));
        r := r + 1;
      }
    }
  }

  /**
   * The first half of a `clean_estimates` pass: puts the index in front of
   * the row, applies the cell rule to every cell, then runs the suffix chain
   * on the label, setting the crop cell when it yields a category.
   */
  method CleanRow(r: nat, raw: Row) returns (row: Row)
    requires EstimateRowOk(raw)
    ensures row == CleanedRow(r, raw, Tag(raw))
  {
    row := [Num(r as real)] + raw;
    row := NormaliseCells(row);
    assert row[IndicatorCol] == Normalise(raw[IndicatorCol - 1]);
    var tagged := Categorize(row[IndicatorCol].text);
    assert tagged == Tag(raw);
    row := row[IndicatorCol := Str(tagged.text)];
    if tagged.category.Some? {
      row := row[CropCol := Str(tagged.category.value)];
    }
    CleanedRowSteps(r, raw, tagged);
  }

  /** Replacing the next unprocessed row moves it from the raw part to the processed part. */
  lemma ReplaceNext<T>(done: seq<T>, body: seq<T>, r: nat, x: T)
    requires |done| == r < |body|
    ensures (done + body[r..])[r := x] == (done + [x]) + body[r + 1..]
  {
    assert body[r..] == [body[r]] + body[r + 1..];
  }
}
