/**
 * The fixed clean-up applied to the four loaded tables before they are put
 * into the prompt: alarms lose their last column and the rows carrying one of
 * four uninformative alarm codes; CGM readings lose their last column; bolus
 * records their last three; basal records their last two and the
 * "Percentage (%)" column. No rows are reordered.
 */
module Cleaning {
  import opened Wrappers
  import opened Tables

  /** The column that names an alarm or event. */
  const ALARM_COLUMN: string := "Alarm/Event"

  /** Alarm codes dropped from the alarms table. */
  const ALARMS_EXCLUDE_VALUES: seq<string> := [
    "tandem_cgm_sensor_expiring",
    "tandem_cgm_replace_sensor",
    "Cartridge Loaded",
    "Resume Pump Alarm (18A)"
  ]

  /** The column dropped from the basal table by name. */
  const PERCENTAGE_COLUMN: string := "Percentage (%)"

  /** The four cleaned tables, in the order they are returned. */
  datatype CleanedTables = CleanedTables(alarms: Table, cgm: Table, bolus: Table, basal: Table)

  function CleanAlarms(alarms: Table): Result<Table, CleanError>
    requires WellFormed(alarms)
  {
    FilterRows(DropLast(alarms, 1), ALARM_COLUMN, ALARMS_EXCLUDE_VALUES)
  }

  /** CGM readings lose their last column; rows keep their number and order. */
  function CleanCgm(cgm: Table): (r: Table)
    requires WellFormed(cgm)
    ensures WellFormed(r)
    ensures |r.header| == if |cgm.header| > 0 then |cgm.header| - 1 else 0
    ensures r.header == cgm.header[..|r.header|]
    ensures |r.rows| == |cgm.rows|
    ensures forall i :: 0 <= i < |r.rows| ==> r.rows[i] == cgm.rows[i][..|r.header|]
  {
    DropLast(cgm, 1)
  }

  /** Bolus records lose their last three columns; rows keep their number and order. */
  function CleanBolus(bolus: Table): (r: Table)
    requires WellFormed(bolus)
    ensures WellFormed(r)
    ensures |r.header| == if |bolus.header| >= 3 then |bolus.header| - 3 else 0
    ensures r.header == bolus.header[..|r.header|]
    ensures |r.rows| == |bolus.rows|
    ensures forall i :: 0 <= i < |r.rows| ==> r.rows[i] == bolus.rows[i][..|r.header|]
  {
    DropLast(bolus, 3)
  }

  function CleanBasal(basal: Table): Result<Table, CleanError>
    requires WellFormed(basal)
  {
    DropColumn(DropLast(basal, 2), PERCENTAGE_COLUMN)
  }

  /**
   * The cleaning step of `process_data_files`: a missing alarm column is
   * reported before a missing percentage column, as the alarms are cleaned
   * first.
   */
  function ProcessDataFiles(alarms: Table, cgm: Table, bolus: Table, basal: Table): (r: Result<CleanedTables, CleanError>)
    requires WellFormed(alarms) && WellFormed(cgm) && WellFormed(bolus) && WellFormed(basal)
    ensures r.Success? <==> CleanAlarms(alarms).Success? && CleanBasal(basal).Success?
    ensures CleanAlarms(alarms).Failure? ==> r == Failure(CleanAlarms(alarms).error)
    ensures CleanAlarms(alarms).Success? && CleanBasal(basal).Failure? ==> r == Failure(CleanBasal(basal).error)
    ensures r.Success? ==> r.value == CleanedTables(CleanAlarms(alarms).value, CleanCgm(cgm), CleanBolus(bolus), CleanBasal(basal).value)
  {
    var a := CleanAlarms(alarms);
    if a.Failure? then Failure(a.error)
    else
      var c := CleanCgm(cgm);
      var b := CleanBolus(bolus);
      var s := CleanBasal(basal);
      if s.Failure? then Failure(s.error)
      else Success(CleanedTables(a.value, c, b, s.value))
  }

  /** The position of the alarm column in a raw alarms table, when it is not the last column. */
  function AlarmColumnIndex(alarms: Table): nat
    requires WellFormed(alarms) && |alarms.header| > 0 && ALARM_COLUMN in alarms.header[..|alarms.header| - 1]
  {
    IndexOf(alarms.header, ALARM_COLUMN).value
  }

  /**
   * Cleaning the alarms succeeds exactly when "Alarm/Event" is a column
   * other than the last one. The result then has the raw header without its
   * last column, no row whose alarm is excluded, and, in their original
   * order, every raw row whose alarm is not excluded, cut to that header.
   */
  lemma CleanAlarmsSpec(alarms: Table)
    requires WellFormed(alarms)
    ensures CleanAlarms(alarms).Success? <==>
      |alarms.header| > 0 && ALARM_COLUMN in alarms.header[..|alarms.header| - 1]
    ensures CleanAlarms(alarms).Failure? ==> CleanAlarms(alarms).error == MissingColumn(ALARM_COLUMN)
    ensures CleanAlarms(alarms).Success? ==>
      var r := CleanAlarms(alarms).value;
      var n := |alarms.header|;
      var j := AlarmColumnIndex(alarms);
      var idx := KeptIndices(alarms.rows, j, ALARMS_EXCLUDE_VALUES);
      && WellFormed(r)
      && |r.header| + 1 == n
      && r.header == alarms.header[..n - 1]
      && (forall k :: 0 <= k < |r.rows| ==> r.rows[k][j] !in ALARMS_EXCLUDE_VALUES)
      && Ascending(idx, |alarms.rows|)
      && (forall i :: 0 <= i < |alarms.rows| ==> (i in idx <==> alarms.rows[i][j] !in ALARMS_EXCLUDE_VALUES))
      && |r.rows| == |idx|
      && (forall k :: 0 <= k < |r.rows| ==> r.rows[k] == alarms.rows[idx[k]][..n - 1])
  {
    var d := DropLast(alarms, 1);
    if CleanAlarms(alarms).Success? {
      var n := |alarms.header|;
      var j := IndexOf(d.header, ALARM_COLUMN).value;
      assert j == AlarmColumnIndex(alarms) by {
        IndexOfDistinct(alarms.header, j);
      }
      assert HasColumn(d.rows, j);
      assert HasColumn(alarms.rows, j);
      KeepRowsSelects(d.rows, j, ALARMS_EXCLUDE_VALUES);
      KeptIndicesAgree(alarms.rows, d.rows, j, ALARMS_EXCLUDE_VALUES);
      forall i | 0 <= i < |d.rows| ensures d.rows[i] == alarms.rows[i][..n - 1] {
      }
    }
  }

  /**
   * Cleaning the basal records succeeds exactly when "Percentage (%)" is a
   * column before the last two. The result then has three columns fewer, no
   * "Percentage (%)" column, the same number of rows, and every remaining
   * column holds, row by row, the cells it held in the raw table, with the
   * columns in their original order.
   */
  lemma CleanBasalSpec(basal: Table)
    requires WellFormed(basal)
    ensures CleanBasal(basal).Success? <==>
      |basal.header| >= 2 && PERCENTAGE_COLUMN in basal.header[..|basal.header| - 2]
    ensures CleanBasal(basal).Failure? ==> CleanBasal(basal).error == MissingColumn(PERCENTAGE_COLUMN)
    ensures CleanBasal(basal).Success? ==>
      var r := CleanBasal(basal).value;
      && WellFormed(r)
      && |r.header| + 3 == |basal.header|
      && PERCENTAGE_COLUMN !in r.header
      && (forall c :: c in r.header <==> c in basal.header[..|basal.header| - 2] && c != PERCENTAGE_COLUMN)
      && |r.rows| == |basal.rows|
      && (forall i, c :: 0 <= i < |r.rows| && c in r.header ==> c in basal.header && Cell(r, i, c) == Cell(basal, i, c))
      && var p := IndexOf(basal.header, PERCENTAGE_COLUMN).value;
         p < |basal.header| - 2 && r.header == RemoveAt(basal.header[..|basal.header| - 2], p)
  {
    var d := DropLast(basal, 2);
    if CleanBasal(basal).Success? {
      var r := CleanBasal(basal).value;
      var q := IndexOf(d.header, PERCENTAGE_COLUMN).value;
      assert d.header[q] == basal.header[q];
      IndexOfDistinct(basal.header, q);
      forall i, c | 0 <= i < |r.rows| && c in r.header
        ensures c in basal.header && Cell(r, i, c) == Cell(basal, i, c)
      {
        DropColumnKeepsCells(d, PERCENTAGE_COLUMN, i, c);
        DropLastKeepsCells(basal, 2, i, c);
      }
    }
  }

  /**
   * An alarms table with one excluded and one other alarm keeps only the
   * other row, without the serial-number column.
   */
  lemma CleanAlarmsExample()
    ensures WellFormed(Table(["Timestamp", "Alarm/Event", "Serial"],
                             [["t1", "Cartridge Loaded", "s1"], ["t2", "tandem_cgm_low", "s1"]]))
    ensures CleanAlarms(Table(["Timestamp", "Alarm/Event", "Serial"],
                              [["t1", "Cartridge Loaded", "s1"], ["t2", "tandem_cgm_low", "s1"]]))
      == Success(Table(["Timestamp", "Alarm/Event"], [["t2", "tandem_cgm_low"]]))
  {
    var raw := Table(["Timestamp", "Alarm/Event", "Serial"],
                     [["t1", "Cartridge Loaded", "s1"], ["t2", "tandem_cgm_low", "s1"]]);
    var d := DropLast(raw, 1);
    assert d.header == ["Timestamp", "Alarm/Event"];
    assert d.rows[0] == raw.rows[0][..2] == ["t1", "Cartridge Loaded"];
    assert d.rows[1] == raw.rows[1][..2] == ["t2", "tandem_cgm_low"];
    assert IndexOf(d.header, ALARM_COLUMN) == Some(1);
    assert d.rows[..1] == [["t1", "Cartridge Loaded"]];
    assert KeepRows(d.rows[..1][..0], 1, ALARMS_EXCLUDE_VALUES) == [];
    assert "Cartridge Loaded" in ALARMS_EXCLUDE_VALUES;
    assert KeepRows(d.rows[..1], 1, ALARMS_EXCLUDE_VALUES) == [];
    assert "tandem_cgm_low" !in ALARMS_EXCLUDE_VALUES;
    assert KeepRows(d.rows, 1, ALARMS_EXCLUDE_VALUES) == [["t2", "tandem_cgm_low"]];
  }

  /** Two tables with the same cells in column `col` keep the same row positions. */
  lemma {:induction false} KeptIndicesAgree(a: seq<Row>, b: seq<Row>, col: nat, excluded: seq<string>)
    requires HasColumn(a, col) && HasColumn(b, col) && |a| == |b|
    requires forall i :: 0 <= i < |a| ==> a[i][col] == b[i][col]
    ensures KeptIndices(a, col, excluded) == KeptIndices(b, col, excluded)
    decreases |a|
  {
    if a != [] {
      KeptIndicesAgree(a[..|a| - 1], b[..|b| - 1], col, excluded);
    }
  }
}
