/**
  `analyze_accidents` without its plots and prints: every row of the export is
  normalised (`process_datetime` and the severity mapping), and the report
  collects the tables the charts are drawn from and the key statistics.
 */
module Analysis {
  import opened Wrappers
  import opened Calendar
  import opened Clock
  import opened Classification
  import opened Geo
  import opened Aggregation

  /** One row of the export as read; each cell is None where the CSV holds NaN. */
  datatype RawRecord = RawRecord(
    date: Option<string>,
    time: Option<string>,
    accidentType: Option<string>,
    georeference: Option<string>)

  /** The export; the 'New Georeferenced Column' may be missing from it. */
  datatype Table = Table(rows: seq<RawRecord>, hasGeoColumn: bool)

  /** One row after normalisation: the derived columns, None where pandas holds NaT/NaN. */
  datatype Record = Record(
    date: Option<Date>,
    dayOfWeek: Option<Weekday>,
    hour: Option<nat>,
    accidentType: Option<string>,
    severity: Option<Severity>)

  /** df['Date'] for one row: the parsed date, NaT (None) for a NaN cell or a string that does not parse. */
  function DateOf(cell: Option<string>): (r: Option<Date>)
    ensures r.Some? ==> cell.Some? && IsTimestampDate(r.value) && Spells(cell.value, r.value)
  {
    match cell
    case None => None
    case Some(s) =>
      var r := ParseDate(s);
      if r.Some? then ParsedDateIsSpelled(s, r.value); r else r
  }

  /** `process_datetime` and `Series.map(severity_mapping)` on one row; no row is dropped or reordered. */
  function Normalize(row: RawRecord): (n: Record)
    ensures n.date == DateOf(row.date)
    ensures n.dayOfWeek.Some? <==> n.date.Some?
    ensures n.date.Some? ==> n.dayOfWeek == Some(WeekdayOf(n.date.value))
    ensures n.hour == HourOf(row.time)
    ensures n.hour.Some? ==> n.hour.value < 24 && row.time.Some?
    ensures n.accidentType == row.accidentType
    ensures n.severity == Classify(row.accidentType)
    ensures n.severity.Some? <==> row.accidentType.Some? && row.accidentType.value in SeverityAliases
  {
    var date := DateOf(row.date);
    Record(
      date,
      if date.Some? then Some(WeekdayOf(date.value)) else None,
      HourOf(row.time),
      row.accidentType,
      Classify(row.accidentType))
  }

  function NormalizeAll(rows: seq<RawRecord>): (ns: seq<Record>)
    ensures |ns| == |rows|
    ensures forall i :: 0 <= i < |rows| ==> ns[i] == Normalize(rows[i])
  {
    seq(|rows|, i requires 0 <= i < |rows| => Normalize(rows[i]))
  }

  /** One derived column of the normalised frame. */
  function Column<T>(ns: seq<Record>, f: Record -> T): (c: seq<T>)
    ensures |c| == |ns|
    ensures forall i :: 0 <= i < |ns| ==> c[i] == f(ns[i])
  {
    seq(|ns|, i requires 0 <= i < |ns| => f(ns[i]))
  }

  function Types(ns: seq<Record>): seq<Option<string>> { Column(ns, (n: Record) => n.accidentType) }
  function Hours(ns: seq<Record>): seq<Option<nat>> { Column(ns, (n: Record) => n.hour) }
  function Days(ns: seq<Record>): seq<Option<Weekday>> { Column(ns, (n: Record) => n.dayOfWeek) }
  function Severities(ns: seq<Record>): seq<Option<Severity>> { Column(ns, (n: Record) => n.severity) }

  /** The georeferenced column's cells. */
  function Georeferences(rows: seq<RawRecord>): seq<Option<string>> {
    seq(|rows|, i requires 0 <= i < |rows| => rows[i].georeference)
  }

  /** `df['Day_of_Week'].value_counts().reindex(day_order)`: Monday to Sunday, NaN for a day never seen. */
  function DayTable(ns: seq<Record>): (t: seq<Option<nat>>)
    ensures |t| == 7
    ensures forall i :: 0 <= i < 7 ==> (t[i].Some? <==> exists j :: 0 <= j < |ns| && ns[j].dayOfWeek == Some(WeekOrder[i]))
    ensures forall i :: 0 <= i < 7 && t[i].Some? ==> t[i].value == multiset(Days(ns))[Some(WeekOrder[i])]
  {
    var days := Days(ns);
    var t := Reindex(days, WeekOrder);
    assert forall i :: 0 <= i < 7 ==> (Some(WeekOrder[i]) in days <==> exists j :: 0 <= j < |ns| && ns[j].dayOfWeek == Some(WeekOrder[i]));
    t
  }

  /** The number of day-of-week cells that hold `w`. */
  function DayCount(xs: seq<Option<Weekday>>, w: Weekday): nat {
    multiset(xs)[Some(w)]
  }

  /** The seven day counts added up, with a missing day as zero. */
  function WeekTotal(xs: seq<Option<Weekday>>): nat {
    DayCount(xs, Monday) + DayCount(xs, Tuesday) + DayCount(xs, Wednesday) + DayCount(xs, Thursday)
      + DayCount(xs, Friday) + DayCount(xs, Saturday) + DayCount(xs, Sunday)
  }

  /** Every day-of-week cell is counted under exactly one weekday, or is NaN. */
  lemma {:induction false} WeekTotalCountsEveryDay(xs: seq<Option<Weekday>>)
    ensures WeekTotal(xs) + multiset(xs)[None] == |xs|
    decreases |xs|
  {
    if |xs| > 0 {
      var front, x := xs[..|xs| - 1], xs[|xs| - 1];
      WeekTotalCountsEveryDay(front);
      assert xs == front + [x];
      CountAfterAppend(front, x, None);
      CountAfterAppend(front, x, Some(Monday));
      CountAfterAppend(front, x, Some(Tuesday));
      CountAfterAppend(front, x, Some(Wednesday));
      CountAfterAppend(front, x, Some(Thursday));
      CountAfterAppend(front, x, Some(Friday));
      CountAfterAppend(front, x, Some(Saturday));
      CountAfterAppend(front, x, Some(Sunday));
      assert WeekTotal(xs) == WeekTotal(front) + (if x.Some? then 1 else 0) by {
        match x {
          case None =>
          case Some(w) =>
            match w {
              case Monday => case Tuesday => case Wednesday => case Thursday =>
              case Friday => case Saturday => case Sunday =>
            }
        }
      }
    }
  }

  /** A table cell with NaN as zero. */
  function Filled(c: Option<nat>): nat {
    match c
    case Some(n) => n
    case None => 0
  }

  /** `fillna(0).sum()` of a table. */
  function FilledSum(t: seq<Option<nat>>): nat {
    if |t| == 0 then 0 else FilledSum(t[..|t| - 1]) + Filled(t[|t| - 1])
  }

  lemma FilledSumStep(t: seq<Option<nat>>, k: nat)
    requires k < |t|
    ensures FilledSum(t[..k + 1]) == FilledSum(t[..k]) + Filled(t[k])
  {
    assert t[..k + 1][..k] == t[..k];
  }

  lemma FilledSumOfWeek(t: seq<Option<nat>>)
    requires |t| == 7
    ensures FilledSum(t) == Filled(t[0]) + Filled(t[1]) + Filled(t[2]) + Filled(t[3])
      + Filled(t[4]) + Filled(t[5]) + Filled(t[6])
  {
    assert t[..7] == t;
    FilledSumStep(t, 0);
    FilledSumStep(t, 1);
    FilledSumStep(t, 2);
    FilledSumStep(t, 3);
    FilledSumStep(t, 4);
    FilledSumStep(t, 5);
    FilledSumStep(t, 6);
  }

  /**
    The weekday table loses no dated row: its entries, with NaN as zero, add
    up to the number of rows whose date parsed.
   */
  lemma DayTableCountsDatedRows(ns: seq<Record>)
    ensures FilledSum(DayTable(ns)) + multiset(Days(ns))[None] == |ns|
  {
    var days := Days(ns);
    var t := DayTable(ns);
    WeekTotalCountsEveryDay(days);
    FilledSumOfWeek(t);
    forall i | 0 <= i < 7
      ensures Filled(t[i]) == DayCount(days, WeekOrder[i])
    {
      if t[i].None? {
        assert Some(WeekOrder[i]) !in days;
      }
    }
  }

  /**
    The weekday table of a loaded export: a weekday has an entry exactly when
    some row's date cell parses to a date falling on it, and the entry is the
    number of such rows.
   */
  function WeekdayCounts(rows: seq<RawRecord>): (t: seq<Option<nat>>)
    ensures |t| == 7
    ensures forall i :: 0 <= i < 7 ==> (t[i].Some? <==>
      exists j :: 0 <= j < |rows| && DateOf(rows[j].date).Some? && WeekdayOf(DateOf(rows[j].date).value) == WeekOrder[i])
    ensures forall i :: 0 <= i < 7 && t[i].Some? ==> t[i].value == multiset(Days(NormalizeAll(rows)))[Some(WeekOrder[i])]
  {
    var ns := NormalizeAll(rows);
    assert forall i, j :: 0 <= i < 7 && 0 <= j < |rows| ==> (ns[j].dayOfWeek == Some(WeekOrder[i]) <==>
      DateOf(rows[j].date).Some? && WeekdayOf(DateOf(rows[j].date).value) == WeekOrder[i]);
    DayTable(ns)
  }

  /** The number of rows whose accident type is one of the severity aliases. */
  function ClassifiedRows(rows: seq<RawRecord>): nat {
    if |rows| == 0 then 0
    else
      var l := rows[|rows| - 1].accidentType;
      ClassifiedRows(rows[..|rows| - 1]) + (if l.Some? && l.value in SeverityAliases then 1 else 0)
  }

  lemma {:induction false} UnclassifiedAreNull(rows: seq<RawRecord>)
    ensures multiset(Severities(NormalizeAll(rows)))[None] + ClassifiedRows(rows) == |rows|
    decreases |rows|
  {
    if |rows| > 0 {
      var front := rows[..|rows| - 1];
      UnclassifiedAreNull(front);
      var s, sf := Severities(NormalizeAll(rows)), Severities(NormalizeAll(front));
      assert s == sf + [s[|s| - 1]];
      assert multiset(s) == multiset(sf) + multiset{s[|s| - 1]};
    }
  }

  /**
    The severity counts add up to the number of rows whose accident type is in
    the alias table: every other row has NaN severity and drops out.
   */
  lemma SeverityCountsCoverClassifiedRows(rows: seq<RawRecord>)
    ensures var s := Severities(NormalizeAll(rows));
      Total(ValueCounts(s), FirstSeen(s)) == ClassifiedRows(rows)
  {
    CountsAddUpToRows(Severities(NormalizeAll(rows)));
    UnclassifiedAreNull(rows);
  }

  /** `df['Accident Type'].value_counts()`: each accident type that occurs, with its count. */
  function TypeCounts(rows: seq<RawRecord>): (m: map<string, nat>)
    ensures forall l :: l in m <==> exists i :: 0 <= i < |rows| && rows[i].accidentType == Some(l)
    ensures forall l :: l in m ==> m[l] == multiset(Types(NormalizeAll(rows)))[Some(l)]
  {
    var types := Types(NormalizeAll(rows));
    assert forall l :: Some(l) in types <==> exists i :: 0 <= i < |rows| && rows[i].accidentType == Some(l);
    ValueCounts(types)
  }

  /** `accident_counts[accident_counts > 10]`: the slices of the type chart. */
  function SignificantTypes(rows: seq<RawRecord>): (m: map<string, nat>)
    ensures forall l :: l in m <==> l in TypeCounts(rows) && TypeCounts(rows)[l] > SignificanceThreshold
    ensures forall l :: l in m ==> m[l] == TypeCounts(rows)[l]
  {
    var types := Types(NormalizeAll(rows));
    assert forall l :: multiset(types)[Some(l)] > 0 ==> l in TypeCounts(rows) by {
      forall l | multiset(types)[Some(l)] > 0 ensures l in TypeCounts(rows) {
        assert Some(l) in types;
      }
    }
    Significant(types)
  }

  /** `df['Severity'].value_counts()`: only severities some row's type is classified as. */
  function SeverityCounts(rows: seq<RawRecord>): (m: map<Severity, nat>)
    ensures forall v :: v in m <==> exists i :: 0 <= i < |rows| && Classify(rows[i].accidentType) == Some(v)
    ensures forall v :: v in m ==> m[v] == multiset(Severities(NormalizeAll(rows)))[Some(v)]
  {
    var severities := Severities(NormalizeAll(rows));
    assert forall v :: Some(v) in severities <==> exists i :: 0 <= i < |rows| && Classify(rows[i].accidentType) == Some(v);
    ValueCounts(severities)
  }

  /** The counts behind the hour chart: only hours of the day occur, each one some row's hour. */
  function HourCounts(rows: seq<RawRecord>): (m: map<nat, nat>)
    ensures forall h :: h in m ==> h < 24
    ensures forall h :: h in m <==> exists i :: 0 <= i < |rows| && HourOf(rows[i].time) == Some(h)
    ensures forall h :: h in m ==> m[h] == multiset(Hours(NormalizeAll(rows)))[Some(h)]
  {
    var hours := Hours(NormalizeAll(rows));
    assert forall h :: Some(h) in hours <==> exists i :: 0 <= i < |rows| && HourOf(rows[i].time) == Some(h);
    ValueCounts(hours)
  }

  /** `df['Hour'].value_counts().idxmax()`: an hour no other hour outnumbers; None where idxmax raises. */
  function PeakHour(rows: seq<RawRecord>): (r: Option<nat>)
    ensures r.None? <==> HourCounts(rows) == map[]
    ensures r.Some? ==> (r.value in HourCounts(rows) &&
      forall h :: h in HourCounts(rows) ==> HourCounts(rows)[h] <= HourCounts(rows)[r.value])
  {
    var hours := Hours(NormalizeAll(rows));
    var r := Peak(hours);
    assert r.None? ==> HourCounts(rows) == map[] by {
      if r.None? {
        assert forall h :: Some(h) !in hours;
      }
    }
    r
  }

  /** `df['Day_of_Week'].value_counts().idxmax()`: a day with the tallest bar of the weekday chart. */
  function PeakDay(rows: seq<RawRecord>): (r: Option<Weekday>)
    ensures r.None? <==> forall i :: 0 <= i < 7 ==> WeekdayCounts(rows)[i].None?
    ensures r.Some? ==> (WeekdayCounts(rows)[WeekdayIndex(r.value)].Some? &&
      forall i :: 0 <= i < 7 && WeekdayCounts(rows)[i].Some? ==>
        WeekdayCounts(rows)[i].value <= WeekdayCounts(rows)[WeekdayIndex(r.value)].value)
  {
    var days := Days(NormalizeAll(rows));
    var t := WeekdayCounts(rows);
    var r := Peak(days);
    assert r.None? <==> forall i :: 0 <= i < 7 ==> t[i].None? by {
      if r.Some? {
        assert t[WeekdayIndex(r.value)].Some?;
      }
    }
    r
  }

  /** What the charts and the key-statistics printout are computed from. */
  datatype Report = Report(
    total: nat,                         // "Total number of accidents"
    typeCounts: map<string, nat>,       // "Accidents by type", and the type chart's counts
    significantTypes: map<string, nat>, // the slices of the type chart
    hourCounts: map<nat, nat>,          // the bars of the hour chart
    dayTable: seq<Option<nat>>,         // the bars of the weekday chart, Monday first
    severityCounts: map<Severity, nat>, // the slices of the severity chart
    heatmap: HeatmapOutcome,
    peakHour: Option<nat>,              // None: idxmax raises, no hour parsed
    peakDay: Option<Weekday>)           // None: idxmax raises, no date parsed

  /**
    `analyze_accidents` on a loaded table; `numeric` stands for what
    `pd.to_numeric` accepts as a number.
   */
  function Analyze(t: Table, numeric: string -> bool): (r: Report)
    ensures r.total == |t.rows|
    ensures forall l :: l in r.typeCounts <==> exists i :: 0 <= i < |t.rows| && t.rows[i].accidentType == Some(l)
    ensures forall l :: l in r.typeCounts ==> r.typeCounts[l] == multiset(Types(NormalizeAll(t.rows)))[Some(l)]
    ensures forall l :: l in r.significantTypes <==> l in r.typeCounts && r.typeCounts[l] > SignificanceThreshold
    ensures forall l :: l in r.significantTypes ==> r.significantTypes[l] == r.typeCounts[l]
    ensures |r.dayTable| == 7
    ensures r.peakHour.None? <==> r.hourCounts == map[]
    ensures r.peakHour.Some? ==> (r.peakHour.value in r.hourCounts &&
      forall h :: h in r.hourCounts ==> r.hourCounts[h] <= r.hourCounts[r.peakHour.value])
    ensures r.peakDay.None? <==> forall i :: 0 <= i < 7 ==> r.dayTable[i].None?
    ensures r.peakDay.Some? ==> (r.dayTable[WeekdayIndex(r.peakDay.value)].Some? &&
      forall i :: 0 <= i < 7 && r.dayTable[i].Some? ==>
        r.dayTable[i].value <= r.dayTable[WeekdayIndex(r.peakDay.value)].value)
    ensures r.heatmap.CouldNotCreate? <==> !t.hasGeoColumn
    ensures r.heatmap.Heatmap? <==> t.hasGeoColumn && ValidRowCount(Georeferences(t.rows), numeric) > HeatmapThreshold
  {
    Report(
      |t.rows|,
      TypeCounts(t.rows),
      SignificantTypes(t.rows),
      HourCounts(t.rows),
      WeekdayCounts(t.rows),
      SeverityCounts(t.rows),
      PlanHeatmap(if t.hasGeoColumn then Some(Georeferences(t.rows)) else None, numeric),
      PeakHour(t.rows),
      PeakDay(t.rows))
  }

  /** The hour and weekday tables of the report, stated against the rows' time and date cells. */
  lemma AnalyzeTimeTables(t: Table, numeric: string -> bool)
    ensures var r := Analyze(t, numeric);
      (forall h :: h in r.hourCounts ==> h < 24)
      && (forall h :: h in r.hourCounts <==> exists i :: 0 <= i < |t.rows| && HourOf(t.rows[i].time) == Some(h))
      && (forall h :: h in r.hourCounts ==> r.hourCounts[h] == multiset(Hours(NormalizeAll(t.rows)))[Some(h)])
    ensures var r := Analyze(t, numeric);
      (forall i :: 0 <= i < 7 ==> (r.dayTable[i].Some? <==>
        exists j :: 0 <= j < |t.rows| && DateOf(t.rows[j].date).Some? && WeekdayOf(DateOf(t.rows[j].date).value) == WeekOrder[i]))
      && (forall i :: 0 <= i < 7 && r.dayTable[i].Some? ==>
        r.dayTable[i].value == multiset(Days(NormalizeAll(t.rows)))[Some(WeekOrder[i])])
  {
  }

  /** The severity table of the report: the classified severities, each with its number of rows. */
  lemma AnalyzeSeverityTable(t: Table, numeric: string -> bool)
    ensures var r := Analyze(t, numeric);
      (forall v :: v in r.severityCounts <==> exists i :: 0 <= i < |t.rows| && Classify(t.rows[i].accidentType) == Some(v))
      && (forall v :: v in r.severityCounts ==> r.severityCounts[v] == multiset(Severities(NormalizeAll(t.rows)))[Some(v)])
  {
  }

  /** A row as the export writes it: dated Friday 12 April 2019, 7 PM, property damage only. */
  lemma NormalizeExportedRow(row: RawRecord)
    requires row == RawRecord(Some("4/12/2019"), Some("4/12/2019 7:45:00 PM"), Some("PD"), None)
    ensures Normalize(row) == Record(Some(Date(2019, 4, 12)), Some(Friday), Some(19), Some("PD"), Some(PropertyDamageOnly))
  {
    ParseExportedDate(row.date.value);
    WeekdayOfKnownDate();
    HourOfDatePrefixedTime(row.time.value);
    LookupIsCaseSensitive();
  }

}
