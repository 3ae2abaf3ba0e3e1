/**
 * What `clean_decisions` (data/db_updater.py) produces, stated as functions of
 * the data rows (the rows after the header): one decision record per row,
 * 25 country-decision records per row, and the lookup-table entries the
 * rows leave behind.
 */
module Decisions {
  import opened Text
  import opened Cells

  /** The household-survey instruments, in the order of the raw row's columns 15 to 39. */
  const Instruments: seq<string> := [
    "Ethiopia ESS Wave 1",
    "Ethiopia ESS Wave 2",
    "Ethiopia ESS Wave 3",
    "Ethiopia ESS Wave 4",
    "Ethiopia ESS Wave 5",
    "Nigeria GHS Wave 1",
    "Nigeria GHS Wave 2",
    "Nigeria GHS Wave 3",
    "Nigeria GHS Wave 4",
    "Tanzania NPS Wave 1",
    "Tanzania NPS Wave 2",
    "Tanzania NPS Wave 3",
    "Tanzania NPS Wave 4",
    "Tanzania NPS Wave 5",
    "Uganda UNPS Wave 1",
    "Uganda UNPS Wave 2",
    "Uganda UNPS Wave 3",
    "Uganda UNPS Wave 4",
    "Uganda UNPS Wave 5",
    "Uganda UNPS Wave 7",
    "Uganda UNPS Wave 8",
    "Malawi IHS/IHPS Wave 1",
    "Malawi IHS/IHPS Wave 2",
    "Malawi IHS/IHPS Wave 3",
    "Malawi IHS/IHPS Wave 4"
  ]

  /** Number of instruments, hence of country-decision records per decision row. */
  const InstrumentCount: nat := 25

  /** Width of the row stub: the leading cells that are not per-instrument. */
  const StubWidth: nat := 15

  /** Position of the indicator cell in a decision record (after the hex ID). */
  const IndColumn: nat := 1

  /** The count is the length of the instrument list. */
  lemma InstrumentCountIsLength()
    ensures |Instruments| == InstrumentCount
  {
  }

  /** A decision row long enough for the stub and one cell per instrument. */
  predicate DecisionRowOk(row: Row) {
    |row| >= StubWidth + InstrumentCount
  }

  predicate AllDecisionRowsOk(body: seq<Row>) {
    forall j :: 0 <= j < |body| ==> DecisionRowOk(body[j])
  }

  /**
   * The key a decision row is filed under: its first cell, normalised. Once
   * the hex ID is in front of the cleaned stub, that is the cell at
   * `IndColumn`.
   */
  function Key(row: Row): (k: Cell)
    requires |row| >= 1
    ensures |row| >= StubWidth ==> k == ([Str("")] + NormaliseAll(row[..StubWidth]))[IndColumn]
  {
    Normalise(row[0])
  }

  /** The decision record of a row numbered `n`: its hex ID, then the 15 normalised stub cells. */
  function DecisionRecord(row: Row, n: nat): (r: Row)
    requires |row| >= StubWidth
    ensures |r| == StubWidth + 1 && r[0] == Str(Hex(n)) && r[IndColumn] == Key(row)
    ensures forall k :: 1 <= k <= StubWidth ==> r[k] == Normalise(row[k - 1])
  {
    [Str(Hex(n))] + NormaliseAll(row[..StubWidth])
  }

  /** The record pairing a row with instrument `i`: its ID, the instrument, the raw cell, the row's key. */
  function CountryRecord(row: Row, i: nat, id: nat): (r: Row)
    requires DecisionRowOk(row) && i < InstrumentCount
    ensures |r| == 4
  {
    [Num(id as real), Str(Instruments[i]), row[StubWidth + i], Key(row)]
  }

  /** The 25 country-decision records of one row, their IDs running on from `first`. */
  function RowCountryRecords(row: Row, first: nat): (r: seq<Row>)
    requires DecisionRowOk(row)
    ensures |r| == InstrumentCount
  {
    seq(InstrumentCount, i requires 0 <= i < InstrumentCount => CountryRecord(row, i, first + i))
  }

  /** The decision records of the first `n` data rows: row `j` (from 0) carries the hex ID of `j + 1`. */
  function DecisionRecords(body: seq<Row>, n: nat): (r: seq<Row>)
    requires AllDecisionRowsOk(body) && n <= |body|
    ensures |r| == n
    ensures forall j :: 0 <= j < n ==> r[j] == DecisionRecord(body[j], j + 1)
  {
    if n == 0 then [] else DecisionRecords(body, n - 1) + [DecisionRecord(body[n - 1], n)]
  }

  /**
   * The country-decision records of the first `n` data rows, one block of 25
   * per row, IDs never reset between rows.
   */
  function CountryRecords(body: seq<Row>, n: nat): (r: seq<Row>)
    requires AllDecisionRowsOk(body) && n <= |body|
    ensures |r| == InstrumentCount * n
    ensures forall k :: 0 <= k < |r| ==> |r[k]| == 4
  {
    if n == 0 then []
    else
      var done := CountryRecords(body, n - 1);
      var first := InstrumentCount * (n - 1) + 1;
      var block := RowCountryRecords(body[n - 1], first);
      assert forall i :: 0 <= i < |block| ==> block[i] == CountryRecord(body[n - 1], i, first + i);
      assert forall k :: |done| <= k < |done| + |block| ==> (done + block)[k] == block[k - |done|];
      done + block
  }

  /** Record `25 * j + i` pairs row `j` with instrument `i` and has ID `25 * j + i + 1`. */
  lemma {:induction false} CountryRecordAt(body: seq<Row>, n: nat, j: nat, i: nat)
    requires AllDecisionRowsOk(body) && n <= |body| && j < n && i < InstrumentCount
    ensures InstrumentCount * j + i < |CountryRecords(body, n)|
    ensures CountryRecords(body, n)[InstrumentCount * j + i]
         == CountryRecord(body[j], i, InstrumentCount * j + i + 1)
  {
    if j < n - 1 {
      CountryRecordAt(body, n - 1, j, i);
    }
  }

  /**
   * Read in order, the country-decision records have IDs 1, 2, 3, ...; record
   * `k` names instrument `k % 25`, the raw cell of that instrument and the key
   * of row `k / 25`.
   */
  lemma CountryIdsConsecutive(body: seq<Row>, k: nat)
    requires AllDecisionRowsOk(body) && k < |CountryRecords(body, |body|)|
    ensures CountryRecords(body, |body|)[k][0] == Num((k + 1) as real)
    ensures CountryRecords(body, |body|)[k][1] == Str(Instruments[k % InstrumentCount])
    ensures k / InstrumentCount < |body|
    ensures CountryRecords(body, |body|)[k][2] == body[k / InstrumentCount][StubWidth + k % InstrumentCount]
    ensures CountryRecords(body, |body|)[k][3] == Key(body[k / InstrumentCount])
  {
    var j, i := k / InstrumentCount, k % InstrumentCount;
    assert k == InstrumentCount * j + i;
    CountryRecordAt(body, |body|, j, i);
  }

  /** The decision ID of row `j` reads back as `j + 1`: the IDs run 1, 2, 3, ... in row order. */
  lemma DecisionIdReadsBack(body: seq<Row>, j: nat)
    requires AllDecisionRowsOk(body) && j < |body|
    ensures ParseHex(DecisionRecords(body, |body|)[j][0].text) == j + 1
  {
    HexRoundTrip(j + 1);
  }

  /** No two decision rows share an ID. */
  lemma DecisionIdsDistinct(body: seq<Row>, j1: nat, j2: nat)
    requires AllDecisionRowsOk(body) && j1 < |body| && j2 < |body|
    ensures j1 != j2 ==> DecisionRecords(body, |body|)[j1][0] != DecisionRecords(body, |body|)[j2][0]
  {
    DecisionIdReadsBack(body, j1);
    DecisionIdReadsBack(body, j2);
  }

  /** The keys of the data rows, in row order. */
  function Keys(body: seq<Row>): (keys: seq<Cell>)
    requires AllDecisionRowsOk(body)
    ensures |keys| == |body|
  {
    seq(|body|, j requires 0 <= j < |body| => Key(body[j]))
  }

  /**
   * The lookup table after the first `n` keys have been filed into `m`: key
   * `j` is set to the hex ID of `j + 1`, later keys overwriting earlier ones.
   */
  function Registered(m: map<Cell, string>, keys: seq<Cell>, n: nat): (r: map<Cell, string>)
    requires n <= |keys|
    ensures m.Keys <= r.Keys
    ensures forall j :: 0 <= j < n ==> keys[j] in r
  {
    if n == 0 then m else Registered(m, keys, n - 1)[keys[n - 1] := Hex(n)]
  }

  /** A key is mapped to the hex ID of the last row that carries it. */
  lemma {:induction false} RegisteredLastWins(m: map<Cell, string>, keys: seq<Cell>, n: nat, j: nat)
    requires n <= |keys| && j < n
    requires forall j' :: j < j' < n ==> keys[j'] != keys[j]
    ensures keys[j] in Registered(m, keys, n)
    ensures Registered(m, keys, n)[keys[j]] == Hex(j + 1)
  {
    if j < n - 1 {
      RegisteredLastWins(m, keys, n - 1, j);
    }
  }

  /** A key that no row carries keeps whatever entry it had, or stays absent. */
  lemma {:induction false} RegisteredUntouched(m: map<Cell, string>, keys: seq<Cell>, n: nat, key: Cell)
    requires n <= |keys|
    requires forall j :: 0 <= j < n ==> keys[j] != key
    ensures key in Registered(m, keys, n) <==> key in m
    ensures key in m ==> Registered(m, keys, n)[key] == m[key]
  {
    if n > 0 {
      RegisteredUntouched(m, keys, n - 1, key);
      assert keys[n - 1] != key;
    }
  }

  /** Every entry of the table is either one of the filed keys, with an ID 1..n, or was in `m` already. */
  lemma {:induction false} RegisteredEntries(m: map<Cell, string>, keys: seq<Cell>, n: nat, key: Cell)
    requires n <= |keys| && key in Registered(m, keys, n)
    ensures key in m || exists j :: 0 <= j < n && keys[j] == key && Registered(m, keys, n)[key] == Hex(j + 1)
  {
    if n > 0 && key != keys[n - 1] {
      RegisteredEntries(m, keys, n - 1, key);
      if key !in m {
        var j :| 0 <= j < n - 1 && keys[j] == key && Registered(m, keys, n - 1)[key] == Hex(j + 1);
        assert Registered(m, keys, n)[key] == Hex(j + 1);
      }
    }
  }
}
