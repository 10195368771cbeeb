/**
  Coordinates for the location heatmap: the first match of
  `\(([^,]+),\s*([^)]+)\)` in the georeferenced column, each captured group
  coerced to a number on its own (`pd.to_numeric(errors='coerce')`), the rows
  where both sides are numbers kept (`dropna`), and the heatmap drawn only
  when more than ten rows remain.
 */
module Geo {
  import opened Wrappers
  import opened Text

  /** The two captured groups of one match: the latitude text and the longitude text. */
  datatype CoordinateText = CoordinateText(lat: string, lon: string)

  /**
    Where one match sits: '(' at open, group 1 is [open+1, comma), `\s*`
    consumes [comma+1, lonStart), group 2 is [lonStart, close), ')' at close.
   */
  datatype PairMatch = PairMatch(open: nat, comma: nat, lonStart: nat, close: nat)

  /** `m` is one way the regular expression can match `s` (ignoring which one the engine picks). */
  predicate PairShape(s: string, m: PairMatch) {
    && m.open + 1 < m.comma < m.lonStart < m.close < |s|
    && s[m.open] == '(' && s[m.comma] == ',' && s[m.close] == ')'
    && (forall k :: m.open < k < m.comma ==> s[k] != ',')
    && (forall k :: m.comma < k < m.lonStart ==> IsSpace(s[k]))
    && (forall k :: m.lonStart <= k < m.close ==> s[k] != ')')
  }

  function Groups(s: string, m: PairMatch): CoordinateText
    requires PairShape(s, m)
  {
    CoordinateText(s[m.open + 1..m.comma], s[m.lonStart..m.close])
  }

  /**
    The match Python's backtracking engine reports at position i: group 1 runs
    to the first comma, group 2 ends at the first ')' after it, and the greedy
    `\s*` takes all the blanks it can while leaving group 2 non-empty.
   */
  function MatchPairAt(s: string, i: nat): (r: Option<PairMatch>)
    requires i <= |s|
    ensures r.Some? ==> r.value.open == i && PairShape(s, r.value)
  {
    if i == |s| || s[i] != '(' then None
    else
      match FirstFrom(s, i + 1, ',')
      case None => None
      case Some(c) =>
        if c == i + 1 then None
        else
          match FirstFrom(s, c + 1, ')')
          case None => None
          case Some(j) =>
            var w := SpaceRunEnd(s, c + 1);
            if w < j then Some(PairMatch(i, c, w, j))
            else if w > c + 1 then Some(PairMatch(i, c, j - 1, j))
            else None
  }

  /**
    Whenever the pattern can match at i, MatchPairAt finds a match there, with
    the same comma and closing parenthesis, and the longest blank run.
   */
  lemma MatchPairAtComplete(s: string, m: PairMatch)
    requires PairShape(s, m)
    ensures var r := MatchPairAt(s, m.open);
      r.Some? && r.value.comma == m.comma && r.value.close == m.close && m.lonStart <= r.value.lonStart
  {
    var c := FirstFrom(s, m.open + 1, ',');
    assert c == Some(m.comma);
    var j := FirstFrom(s, m.comma + 1, ')');
    assert j == Some(m.close);
    var w := SpaceRunEnd(s, m.comma + 1);
    assert m.lonStart <= w;
  }

  /** The leftmost match at or after position i (re.search from i). */
  function FindPairFrom(s: string, i: nat): (r: Option<PairMatch>)
    requires i <= |s|
    ensures r.Some? ==> i <= r.value.open <= |s| && MatchPairAt(s, r.value.open) == r
    ensures forall k :: i <= k <= |s| && (r.None? || k < r.value.open) ==> MatchPairAt(s, k).None?
    decreases |s| - i
  {
    match MatchPairAt(s, i)
    case Some(m) => Some(m)
    case None => if i == |s| then None else FindPairFrom(s, i + 1)
  }

  /** `Series.str.extract(r'\(([^,]+),\s*([^)]+)\)')` on one text. */
  function ExtractPair(s: string): (r: Option<CoordinateText>)
    ensures r.Some? ==> '(' in s && ')' in s && ',' in s
    ensures r.Some? ==> |r.value.lat| > 0 && ',' !in r.value.lat
    ensures r.Some? ==> |r.value.lon| > 0 && ')' !in r.value.lon
  {
    match FindPairFrom(s, 0)
    case None => None
    case Some(m) =>
      assert s[m.open] == '(' && s[m.close] == ')' && s[m.comma] == ',';
      Some(Groups(s, m))
  }

  /**
    The extraction reports the leftmost place the pattern can match, and
    nothing exactly when it cannot match anywhere.
   */
  lemma ExtractPairLeftmost(s: string)
    ensures FindPairFrom(s, 0).Some? ==> var m := FindPairFrom(s, 0).value;
      && PairShape(s, m) && ExtractPair(s) == Some(Groups(s, m))
      && forall m' :: PairShape(s, m') ==> m.open <= m'.open
    ensures FindPairFrom(s, 0).None? <==> forall m' :: !PairShape(s, m')
    ensures ExtractPair(s).None? <==> forall m' :: !PairShape(s, m')
  {
    forall m' | PairShape(s, m')
      ensures FindPairFrom(s, 0).Some? && FindPairFrom(s, 0).value.open <= m'.open
    {
      MatchPairAtComplete(s, m');
    }
  }

  /** A comma followed only by blanks: what the pattern allows between the two groups. */
  predicate CommaBlanks(sep: string) {
    |sep| > 0 && sep[0] == ',' && forall k :: 0 < k < |sep| ==> IsSpace(sep[k])
  }

  /** Where the pieces of "(lat" sep "lon)" rest sit, as a match of the pattern. */
  lemma RoundTripShape(lat: string, sep: string, lon: string, rest: string)
    requires |lat| > 0 && ',' !in lat
    requires CommaBlanks(sep)
    requires |lon| > 0 && ')' !in lon
    ensures var s := "(" + lat + sep + lon + ")" + rest;
      var m := PairMatch(0, 1 + |lat|, 1 + |lat| + |sep|, 1 + |lat| + |sep| + |lon|);
      PairShape(s, m) && s[1..m.comma] == lat && s[m.lonStart..m.close] == lon && s[m.lonStart] == lon[0]
  {
    var a := "(" + lat;
    var b := a + sep;
    var c := b + lon;
    var s := c + ")" + rest;
    assert s == "(" + lat + sep + lon + ")" + rest;
    var comma, lonStart, close := |a|, |b|, |c|;
    assert s[..close] == c && s[close..] == ")" + rest;
    assert s[1..comma] == lat by {
      assert s[..comma] == c[..comma] == b[..comma] == a;
    }
    assert s[comma..lonStart] == sep by {
      assert s[..lonStart] == c[..lonStart] == b;
    }
    assert s[lonStart..close] == lon;
    forall k | 0 < k < comma ensures s[k] != ',' {
      assert s[k] == s[1..comma][k - 1];
    }
    forall k | comma < k < lonStart ensures IsSpace(s[k]) {
      assert s[k] == s[comma..lonStart][k - comma];
    }
    forall k | lonStart <= k < close ensures s[k] != ')' {
      assert s[k] == s[lonStart..close][k - lonStart];
    }
    assert s[0] == '(' && s[comma] == sep[0] && s[close] == ')';
  }

  /** A coordinate text "(lat" comma blanks "lon)" followed by anything gives back exactly lat and lon. */
  lemma ExtractPairRoundTrip(lat: string, sep: string, lon: string, rest: string)
    requires |lat| > 0 && ',' !in lat
    requires CommaBlanks(sep)
    requires |lon| > 0 && ')' !in lon && !IsSpace(lon[0])
    ensures ExtractPair("(" + lat + sep + lon + ")" + rest) == Some(CoordinateText(lat, lon))
  {
    var s := "(" + lat + sep + lon + ")" + rest;
    var m := PairMatch(0, 1 + |lat|, 1 + |lat| + |sep|, 1 + |lat| + |sep| + |lon|);
    RoundTripShape(lat, sep, lon, rest);
    MatchPairAtComplete(s, m);
    var r := MatchPairAt(s, 0).value;
    assert r.lonStart == m.lonStart;
    assert FindPairFrom(s, 0) == Some(r);
  }

  /** The usual spelling "(lat, lon)" of a coordinate pair gives back lat and lon. */
  lemma ExtractCommaBlankPair(lat: string, lon: string)
    requires |lat| > 0 && ',' !in lat && |lon| > 0 && ')' !in lon && !IsSpace(lon[0])
    ensures ExtractPair("(" + lat + ", " + lon + ")") == Some(CoordinateText(lat, lon))
  {
    ExtractPairRoundTrip(lat, ", ", lon, "");
    assert "(" + lat + ", " + lon + ")" + "" == "(" + lat + ", " + lon + ")";
  }

  // Coercion and the validity gate.

  /** The captured pair of one cell of the georeferenced column (None for NaN or no match). */
  function CellPair(cell: Option<string>): Option<CoordinateText> {
    if cell.Some? then ExtractPair(cell.value) else None
  }

  /** df['Latitude'] for one row: group 1 if `to_numeric` accepts it, else NaN. */
  function Latitude(cell: Option<string>, numeric: string -> bool): (r: Option<string>)
    ensures r.Some? <==> CellPair(cell).Some? && numeric(CellPair(cell).value.lat)
    ensures r.Some? ==> r.value == CellPair(cell).value.lat
  {
    match CellPair(cell)
    case Some(p) => if numeric(p.lat) then Some(p.lat) else None
    case None => None
  }

  /** df['Longitude'] for one row: group 2 if `to_numeric` accepts it, else NaN. */
  function Longitude(cell: Option<string>, numeric: string -> bool): (r: Option<string>)
    ensures r.Some? <==> CellPair(cell).Some? && numeric(CellPair(cell).value.lon)
    ensures r.Some? ==> r.value == CellPair(cell).value.lon
  {
    match CellPair(cell)
    case Some(p) => if numeric(p.lon) then Some(p.lon) else None
    case None => None
  }

  /** The row survives `dropna(subset=['Latitude', 'Longitude'])`. */
  predicate HasValidCoordinates(cell: Option<string>, numeric: string -> bool) {
    Latitude(cell, numeric).Some? && Longitude(cell, numeric).Some?
  }

  /**
    A row has valid coordinates exactly when the pattern matches its cell and
    both captured sides are numbers; then the two columns hold the pair the
    match captured.
   */
  lemma ValidCoordinatesNeedBothSides(cell: Option<string>, numeric: string -> bool)
    ensures HasValidCoordinates(cell, numeric) <==>
      CellPair(cell).Some? && numeric(CellPair(cell).value.lat) && numeric(CellPair(cell).value.lon)
    ensures HasValidCoordinates(cell, numeric) ==>
      CoordinateText(Latitude(cell, numeric).value, Longitude(cell, numeric).value) == CellPair(cell).value
  {
  }

  /** One numeric side is not enough: such a row keeps its latitude but is dropped. */
  lemma OneNumericSideIsDropped(lat: string, lon: string, numeric: string -> bool)
    requires |lat| > 0 && ',' !in lat && |lon| > 0 && ')' !in lon && !IsSpace(lon[0])
    requires numeric(lat) && !numeric(lon)
    ensures var cell := Some("(" + lat + ", " + lon + ")");
      Latitude(cell, numeric) == Some(lat) && Longitude(cell, numeric).None? && !HasValidCoordinates(cell, numeric)
  {
    ExtractCommaBlankPair(lat, lon);
  }

  /** The captured pair of a row whose two sides are both numbers. */
  function ValidPair(cell: Option<string>, numeric: string -> bool): (r: Option<CoordinateText>)
    ensures r.Some? ==> numeric(r.value.lat) && numeric(r.value.lon)
  {
    match CellPair(cell)
    case Some(p) => if numeric(p.lat) && numeric(p.lon) then Some(p) else None
    case None => None
  }

  /** The two coerced columns together say the same as the pair test. */
  lemma ValidPairIsDropnaSurvivor(cell: Option<string>, numeric: string -> bool)
    ensures ValidPair(cell, numeric).Some? <==> HasValidCoordinates(cell, numeric)
    ensures ValidPair(cell, numeric).Some? ==>
      ValidPair(cell, numeric).value == CoordinateText(Latitude(cell, numeric).value, Longitude(cell, numeric).value)
  {
  }

  /** What dropping the NaN cells of `xs` leaves, as Present promises it. */
  ghost predicate DropsNulls<T(!new)>(xs: seq<Option<T>>, v: seq<T>) {
    && |v| == |xs| - multiset(xs)[None]
    && (forall p :: multiset(v)[p] == multiset(xs)[Some(p)])
  }

  /** Appending one cell keeps DropsNulls when its value, if any, is appended too. */
  lemma DropsNullsStep<T(!new)>(front: seq<Option<T>>, x: Option<T>, v: seq<T>)
    requires DropsNulls(front, v)
    ensures DropsNulls(front + [x], if x.Some? then v + [x.value] else v)
  {
    var xs := front + [x];
    assert multiset(xs) == multiset(front) + multiset{x};
    if x.Some? {
      assert multiset(v + [x.value]) == multiset(v) + multiset{x.value};
    }
  }

  /** The values of the non-null cells, in order (what `dropna` keeps of one column). */
  function Present<T(==,!new)>(xs: seq<Option<T>>): (v: seq<T>)
    ensures |v| == |xs| - multiset(xs)[None]
    ensures forall p :: multiset(v)[p] == multiset(xs)[Some(p)]
  {
    if |xs| == 0 then []
    else
      var front, x := xs[..|xs| - 1], xs[|xs| - 1];
      var v := Present(front);
      assert xs == front + [x];
      DropsNullsStep(front, x, v);
      var w := if x.Some? then v + [x.value] else v;
      w
  }

  /**
    Dropping the NaN cells keeps exactly the set values, and drops nothing
    exactly when no cell is NaN.
   */
  lemma PresentKeepsSetValues<T(!new)>(xs: seq<Option<T>>)
    ensures forall p :: p in Present(xs) <==> Some(p) in xs
    ensures |Present(xs)| == |xs| <==> forall i :: 0 <= i < |xs| ==> xs[i].Some?
  {
    var v := Present(xs);
    assert forall p :: p in v <==> multiset(v)[p] > 0;
    assert (None in xs) <==> exists i :: 0 <= i < |xs| && xs[i].None?;
  }

  /** The valid pair of each row, None where dropna removes the row. */
  function ValidPairs(cells: seq<Option<string>>, numeric: string -> bool): (pairs: seq<Option<CoordinateText>>)
    ensures |pairs| == |cells|
    ensures forall i :: 0 <= i < |cells| ==> pairs[i] == ValidPair(cells[i], numeric)
    ensures forall i :: 0 <= i < |cells| && pairs[i].Some? ==> numeric(pairs[i].value.lat) && numeric(pairs[i].value.lon)
  {
    seq(|cells|, i requires 0 <= i < |cells| => ValidPair(cells[i], numeric))
  }

  /** The row mask of `dropna(subset=['Latitude', 'Longitude'])`: true where both coerced columns are set. */
  function SurvivalMask(cells: seq<Option<string>>, numeric: string -> bool): (mask: seq<bool>)
    ensures |mask| == |cells|
    ensures forall i :: 0 <= i < |cells| ==> mask[i] == HasValidCoordinates(cells[i], numeric)
  {
    seq(|cells|, i requires 0 <= i < |cells| => HasValidCoordinates(cells[i], numeric))
  }

  /** The number of true entries of a mask. */
  function CountTrue(mask: seq<bool>): (n: nat)
    ensures n <= |mask|
    ensures n == 0 <==> forall i :: 0 <= i < |mask| ==> !mask[i]
    ensures n == |mask| <==> forall i :: 0 <= i < |mask| ==> mask[i]
  {
    if |mask| == 0 then 0
    else
      var front := mask[..|mask| - 1];
      assert forall i :: 0 <= i < |front| ==> front[i] == mask[i];
      CountTrue(front) + (if mask[|mask| - 1] then 1 else 0)
  }

  /** `len(valid_coords)`: the number of rows that survive `dropna`. */
  function ValidRowCount(cells: seq<Option<string>>, numeric: string -> bool): (n: nat)
    ensures n <= |cells|
    ensures n == 0 <==> forall i :: 0 <= i < |cells| ==> !HasValidCoordinates(cells[i], numeric)
    ensures n == |cells| <==> forall i :: 0 <= i < |cells| ==> HasValidCoordinates(cells[i], numeric)
  {
    CountTrue(SurvivalMask(cells, numeric))
  }

  /** Dropping the NaN cells keeps as many values as a mask true exactly at the set cells counts. */
  lemma {:induction false} PresentLengthIsCount<T(!new)>(xs: seq<Option<T>>, mask: seq<bool>)
    requires |xs| == |mask|
    requires forall i :: 0 <= i < |xs| ==> (xs[i].Some? <==> mask[i])
    ensures |Present(xs)| == CountTrue(mask)
    decreases |xs|
  {
    if |xs| > 0 {
      var front, mfront := xs[..|xs| - 1], mask[..|mask| - 1];
      assert forall i :: 0 <= i < |front| ==> front[i] == xs[i] && mfront[i] == mask[i];
      PresentLengthIsCount(front, mfront);
    }
  }

  /** Dropping the rows without a valid pair keeps one pair per surviving row. */
  lemma PresentCountsValidRows(cells: seq<Option<string>>, numeric: string -> bool)
    ensures |Present(ValidPairs(cells, numeric))| == ValidRowCount(cells, numeric)
  {
    var pairs, mask := ValidPairs(cells, numeric), SurvivalMask(cells, numeric);
    forall i | 0 <= i < |cells| ensures pairs[i].Some? <==> mask[i] {
      ValidPairIsDropnaSurvivor(cells[i], numeric);
    }
    PresentLengthIsCount(pairs, mask);
  }

  /** Every pair kept from the per-row pairs has two numeric sides. */
  lemma KeptPairsAreNumeric(cells: seq<Option<string>>, numeric: string -> bool)
    ensures forall p :: p in Present(ValidPairs(cells, numeric)) ==> numeric(p.lat) && numeric(p.lon)
  {
    var pairs := ValidPairs(cells, numeric);
    PresentKeepsSetValues(pairs);
    forall p: CoordinateText | p in Present(pairs) ensures numeric(p.lat) && numeric(p.lon) {
      assert Some(p) in pairs;
      var i :| 0 <= i < |pairs| && pairs[i] == Some(p);
    }
  }

  /** Every valid row's pair is kept, and all are kept exactly when every row is valid. */
  lemma KeptPairsCoverValidRows(cells: seq<Option<string>>, numeric: string -> bool)
    ensures forall i :: 0 <= i < |cells| && ValidPair(cells[i], numeric).Some? ==>
      ValidPair(cells[i], numeric).value in Present(ValidPairs(cells, numeric))
    ensures |Present(ValidPairs(cells, numeric))| == |cells| <==>
      forall i :: 0 <= i < |cells| ==> ValidPair(cells[i], numeric).Some?
  {
    var pairs := ValidPairs(cells, numeric);
    PresentKeepsSetValues(pairs);
    forall i | 0 <= i < |cells| && ValidPair(cells[i], numeric).Some?
      ensures ValidPair(cells[i], numeric).value in Present(pairs)
    {
      assert pairs[i] == Some(ValidPair(cells[i], numeric).value);
    }
  }

  /** `valid_coords`: the captured pairs of the rows that keep both coordinates, in row order. */
  function ValidCoordinates(cells: seq<Option<string>>, numeric: string -> bool): (v: seq<CoordinateText>)
    ensures |v| == ValidRowCount(cells, numeric) <= |cells|
    ensures forall p :: multiset(v)[p] == multiset(ValidPairs(cells, numeric))[Some(p)]
    ensures forall p :: p in v ==> numeric(p.lat) && numeric(p.lon)
    ensures forall i :: 0 <= i < |cells| && ValidPair(cells[i], numeric).Some? ==> ValidPair(cells[i], numeric).value in v
    ensures |v| == |cells| <==> forall i :: 0 <= i < |cells| ==> ValidPair(cells[i], numeric).Some?
  {
    PresentCountsValidRows(cells, numeric);
    KeptPairsAreNumeric(cells, numeric);
    KeptPairsCoverValidRows(cells, numeric);
    Present(ValidPairs(cells, numeric))
  }

  /** More than this many valid rows are needed to draw the heatmap. */
  const HeatmapThreshold := 10

  datatype HeatmapOutcome =
    | Heatmap(points: seq<CoordinateText>)  // the 2-D histogram is drawn over these points
    | NotEnoughCoordinates                  // "Not enough valid coordinates for a heatmap"
    | CouldNotCreate                        // an exception reached the except clause

  /**
    `plot_accident_heatmap` as intended: with no georeferenced column the
    lookup fails and the except clause reports it; otherwise the heatmap is
    drawn exactly when more than ten rows have valid coordinates.
   */
  function PlanHeatmap(geo: Option<seq<Option<string>>>, numeric: string -> bool): (r: HeatmapOutcome)
    ensures r.CouldNotCreate? <==> geo.None?
    ensures r.Heatmap? <==> geo.Some? && ValidRowCount(geo.value, numeric) > HeatmapThreshold
    ensures r.Heatmap? ==> |r.points| == ValidRowCount(geo.value, numeric)
    ensures r.Heatmap? ==> forall p :: multiset(r.points)[p] == multiset(ValidPairs(geo.value, numeric))[Some(p)]
    ensures r.Heatmap? ==> forall p :: p in r.points ==> numeric(p.lat) && numeric(p.lon)
    ensures r.Heatmap? ==> forall i :: 0 <= i < |geo.value| && ValidPair(geo.value[i], numeric).Some? ==>
      ValidPair(geo.value[i], numeric).value in r.points
  {
    match geo
    case None => CouldNotCreate
    case Some(cells) =>
      var v := ValidCoordinates(cells, numeric);
      if |v| > HeatmapThreshold then Heatmap(v) else NotEnoughCoordinates
  }

  /** The number of capture groups of the coordinate pattern. */
  const PairPatternGroups := 2

  /** A frame of string cells: its number of columns and its rows, each as wide as the frame. */
  datatype Frame = Frame(width: nat, rows: seq<seq<Option<string>>>)

  /** One row of the frame `str.extract` returns: both groups, or NaN in both columns. */
  function GroupRow(p: Option<CoordinateText>): seq<Option<string>> {
    match p
    case Some(c) => [Some(c.lat), Some(c.lon)]
    case None => [None, None]
  }

  /**
    `Series.str.extract` with the coordinate pattern: a frame with one column
    per capture group and one row per cell, the captured texts where the
    pattern matches and NaN in every column where it does not (or the cell is NaN).
   */
  function ExtractFrame(cells: seq<Option<string>>): (f: Frame)
    ensures f.width == PairPatternGroups && |f.rows| == |cells|
    ensures forall i :: 0 <= i < |cells| ==> |f.rows[i]| == f.width
    ensures forall i :: 0 <= i < |cells| ==>
      (CellPair(cells[i]).Some? ==> f.rows[i] == [Some(CellPair(cells[i]).value.lat), Some(CellPair(cells[i]).value.lon)])
    ensures forall i :: 0 <= i < |cells| ==> (CellPair(cells[i]).None? ==> f.rows[i] == [None, None])
  {
    Frame(PairPatternGroups, seq(|cells|, i requires 0 <= i < |cells| => GroupRow(CellPair(cells[i]))))
  }

  /**
    `df[name] = frame`: setting one column from a frame takes its only column,
    and pandas raises a ValueError for a frame of any other width (None).
   */
  function AssignColumn(f: Frame): (r: Option<seq<Option<string>>>)
    ensures r.Some? ==> f.width == 1 && |r.value| == |f.rows|
    ensures r.Some? ==> forall i :: 0 <= i < |f.rows| && |f.rows[i]| > 0 ==> r.value[i] == f.rows[i][0]
  {
    if f.width != 1 then None
    else Some(seq(|f.rows|, i requires 0 <= i < |f.rows| => if |f.rows[i]| > 0 then f.rows[i][0] else None))
  }

  /**
    `plot_accident_heatmap` as written: line 160 assigns the frame that
    `str.extract` returns to the single column 'Coordinates'. The pattern has
    two groups, so the assignment raises and every call ends in the except
    clause; were it accepted, the rest would run as in PlanHeatmap.
   */
  function HeatmapAsWritten(geo: Option<seq<Option<string>>>, numeric: string -> bool): (r: HeatmapOutcome)
    ensures r.CouldNotCreate?
  {
    match geo
    case None => CouldNotCreate
    case Some(cells) =>
      if AssignColumn(ExtractFrame(cells)).None? then CouldNotCreate else PlanHeatmap(geo, numeric)
  }

  /** A rendered pair of numbers is a row with valid coordinates. */
  lemma RenderedPairIsValid(lat: string, lon: string, numeric: string -> bool)
    requires |lat| > 0 && ',' !in lat && |lon| > 0 && ')' !in lon && !IsSpace(lon[0])
    requires numeric(lat) && numeric(lon)
    ensures ValidPair(Some("(" + lat + ", " + lon + ")"), numeric) == Some(CoordinateText(lat, lon))
  {
    ExtractCommaBlankPair(lat, lon);
  }

  /** When every row has valid coordinates, the heatmap is drawn as soon as there are more than ten. */
  lemma AllValidRowsDrawHeatmap(cells: seq<Option<string>>, numeric: string -> bool)
    requires |cells| > HeatmapThreshold
    requires forall i :: 0 <= i < |cells| ==> ValidPair(cells[i], numeric).Some?
    ensures PlanHeatmap(Some(cells), numeric).Heatmap?
  {
  }

  /**
    Eleven rows holding a well-formed pair of numbers: the intended gate draws
    the heatmap, the code as written reports that it could not.
   */
  lemma AsWrittenNeverDrawsHeatmap(lat: string, lon: string, numeric: string -> bool)
    requires |lat| > 0 && ',' !in lat && |lon| > 0 && ')' !in lon && !IsSpace(lon[0])
    requires numeric(lat) && numeric(lon)
    ensures var cells := seq(11, _ => Some("(" + lat + ", " + lon + ")"));
      PlanHeatmap(Some(cells), numeric).Heatmap? && HeatmapAsWritten(Some(cells), numeric).CouldNotCreate?
  {
    var cell := Some("(" + lat + ", " + lon + ")");
    RenderedPairIsValid(lat, lon, numeric);
    var cells := seq(11, _ => cell);
    AllValidRowsDrawHeatmap(cells, numeric);
  }

}
