/**
  The hour of day derived from the time column: the leftmost substring that
  matches `\d+:\d+:\d+ [AP]M` (Series.str.extract), read with the strptime
  format '%I:%M:%S %p' (to_datetime, errors='coerce') and taken as a
  24-hour hour (Series.dt.hour).
 */
module Clock {
  import opened Wrappers
  import opened Text
  import opened Strptime

  /** Where one match of the time pattern sits in a string: [start, end), colons at colon1 and colon2. */
  datatype TimeMatch = TimeMatch(start: nat, colon1: nat, colon2: nat, end: nat)

  /**
    `t` is, in full, digits ':' digits ':' digits ' ' ('A' | 'P') 'M', with its
    two colons at positions p and q.
   */
  predicate TimeShape(t: string, p: int, q: int) {
    && 0 < p && p + 1 < q && q + 1 < |t| - 3
    && t[p] == ':' && t[q] == ':'
    && (forall k :: 0 <= k < |t| - 3 && k != p && k != q ==> IsDigit(t[k]))
    && t[|t| - 3] == ' ' && (t[|t| - 2] == 'A' || t[|t| - 2] == 'P') && t[|t| - 1] == 'M'
  }

  /** `t` matches `\d+:\d+:\d+ [AP]M` in full. */
  predicate IsTimeText(t: string) {
    exists p, q | 0 < p < |t| && 0 < q < |t| :: TimeShape(t, p, q)
  }

  /** The match of the time pattern that starts at position i, if any (the regex is deterministic there). */
  function MatchTimeAt(s: string, i: nat): (r: Option<TimeMatch>)
    requires i <= |s|
    ensures r.Some? ==> r.value.start == i && i < r.value.colon1 < r.value.colon2 < r.value.end <= |s|
    ensures r.Some? ==> TimeShape(s[i..r.value.end], r.value.colon1 - i, r.value.colon2 - i)
  {
    var a := DigitRunEnd(s, i);
    if a == i || a == |s| || s[a] != ':' then None
    else
      var b := DigitRunEnd(s, a + 1);
      if b == a + 1 || b == |s| || s[b] != ':' then None
      else
        var c := DigitRunEnd(s, b + 1);
        if c == b + 1 || c + 3 > |s| || s[c] != ' ' || (s[c + 1] != 'A' && s[c + 1] != 'P') || s[c + 2] != 'M' then None
        else Some(TimeMatch(i, a, b, c + 3))
  }

  /** A run of digits from i that stops at a non-digit e is the run DigitRunEnd finds. */
  lemma DigitRunStopsAt(s: string, i: nat, e: nat)
    requires i <= e < |s| && !IsDigit(s[e])
    requires forall k :: i <= k < e ==> IsDigit(s[k])
    ensures DigitRunEnd(s, i) == e
  {
  }

  /** The digit runs and separators of a time text s[i..j] with colons at i+p and i+q. */
  lemma TimeDigitsIn(s: string, i: nat, j: nat, p: int, q: int)
    requires i <= j <= |s| && TimeShape(s[i..j], p, q)
    ensures forall k :: i <= k < i + p ==> IsDigit(s[k])
    ensures forall k :: i + p < k < i + q ==> IsDigit(s[k])
    ensures forall k :: i + q < k < j - 3 ==> IsDigit(s[k])
    ensures s[i + p] == ':' && s[i + q] == ':'
    ensures s[j - 3] == ' ' && (s[j - 2] == 'A' || s[j - 2] == 'P') && s[j - 1] == 'M'
  {
    var t := s[i..j];
    forall k | i <= k < j - 3 && k != i + p && k != i + q
      ensures IsDigit(s[k])
    {
      assert s[k] == t[k - i];
    }
    assert s[i + p] == t[p] && s[i + q] == t[q];
    assert s[j - 3] == t[|t| - 3] && s[j - 2] == t[|t| - 2] && s[j - 1] == t[|t| - 1];
  }

  /** Any full match of the pattern starting at i is the one MatchTimeAt finds. */
  lemma MatchTimeAtComplete(s: string, i: nat, j: nat)
    requires i <= j <= |s| && IsTimeText(s[i..j])
    ensures MatchTimeAt(s, i).Some? && MatchTimeAt(s, i).value.end == j
  {
    var p, q :| 0 < p < j - i && 0 < q < j - i && TimeShape(s[i..j], p, q);
    TimeDigitsIn(s, i, j, p, q);
    DigitRunStopsAt(s, i, i + p);
    DigitRunStopsAt(s, i + p + 1, i + q);
    DigitRunStopsAt(s, i + q + 1, j - 3);
  }

  /** The leftmost match at or after position i (re.search from i). */
  function FindTimeFrom(s: string, i: nat): (r: Option<TimeMatch>)
    requires i <= |s|
    ensures r.Some? ==> i <= r.value.start <= |s| && MatchTimeAt(s, r.value.start) == r
    ensures forall k :: i <= k <= |s| && (r.None? || k < r.value.start) ==> MatchTimeAt(s, k).None?
    decreases |s| - i
  {
    match MatchTimeAt(s, i)
    case Some(m) => Some(m)
    case None => if i == |s| then None else FindTimeFrom(s, i + 1)
  }

  function FindTime(s: string): Option<TimeMatch> {
    FindTimeFrom(s, 0)
  }

  /**
    The search finds the leftmost substring that matches the time pattern, and
    finds nothing exactly when no substring matches.
   */
  lemma FindTimeLeftmost(s: string)
    ensures FindTime(s).Some? ==> var m := FindTime(s).value;
      && m.start <= m.end <= |s| && IsTimeText(s[m.start..m.end])
      && (forall k, j :: 0 <= k < m.start && k <= j <= |s| ==> !IsTimeText(s[k..j]))
      && (forall j :: m.start <= j <= |s| && IsTimeText(s[m.start..j]) ==> j == m.end)
    ensures FindTime(s).None? ==> forall k, j :: 0 <= k <= j <= |s| ==> !IsTimeText(s[k..j])
  {
    if FindTime(s).Some? {
      FoundIsMatch(s);
      NothingBeforeFound(s);
      FoundEndIsUnique(s);
    } else {
      NothingFoundMeansNoMatch(s);
    }
  }

  lemma FoundIsMatch(s: string)
    requires FindTime(s).Some?
    ensures var m := FindTime(s).value; m.start <= m.end <= |s| && IsTimeText(s[m.start..m.end])
  {
    var m := FindTime(s).value;
    var found := MatchTimeAt(s, m.start);
    assert found == Some(m);
    assert TimeShape(s[m.start..m.end], m.colon1 - m.start, m.colon2 - m.start);
  }

  lemma NothingBeforeFound(s: string)
    requires FindTime(s).Some?
    ensures forall k, j :: 0 <= k < FindTime(s).value.start && k <= j <= |s| ==> !IsTimeText(s[k..j])
  {
    forall k, j | 0 <= k < FindTime(s).value.start && k <= j <= |s| && IsTimeText(s[k..j])
      ensures false
    {
      FoundNoLaterThan(s, k, j);
    }
  }

  lemma FoundEndIsUnique(s: string)
    requires FindTime(s).Some?
    ensures var m := FindTime(s).value;
      forall j :: m.start <= j <= |s| && IsTimeText(s[m.start..j]) ==> j == m.end
  {
    var m := FindTime(s).value;
    forall j | m.start <= j <= |s| && IsTimeText(s[m.start..j])
      ensures j == m.end
    {
      FoundNoLaterThan(s, m.start, j);
    }
  }

  lemma NothingFoundMeansNoMatch(s: string)
    requires FindTime(s).None?
    ensures forall k, j :: 0 <= k <= j <= |s| ==> !IsTimeText(s[k..j])
  {
    forall k, j | 0 <= k <= j <= |s| && IsTimeText(s[k..j])
      ensures false
    {
      FoundNoLaterThan(s, k, j);
    }
  }

  /** Any match of the pattern in s starts no earlier than the one the search finds, and ends where it ends if it starts there. */
  lemma FoundNoLaterThan(s: string, k: nat, j: nat)
    requires k <= j <= |s| && IsTimeText(s[k..j])
    ensures FindTime(s).Some? && FindTime(s).value.start <= k
    ensures k == FindTime(s).value.start ==> j == FindTime(s).value.end
  {
    MatchTimeAtComplete(s, k, j);
  }

  /** `Series.str.extract(r'(\d+:\d+:\d+ [AP]M)')[0]` on one cell. */
  function ExtractTime(s: string): (r: Option<string>)
    ensures r.Some? ==> IsTimeText(r.value)
  {
    match FindTime(s)
    case None => None
    case Some(m) =>
      assert TimeShape(s[m.start..m.end], m.colon1 - m.start, m.colon2 - m.start);
      Some(s[m.start..m.end])
  }

  /** The pieces of a matched time text that '%I:%M:%S %p' reads. */
  datatype ClockText = ClockText(hour: string, minute: string, second: string, pm: bool)

  /** A string of the time shape is its three digit fields, joined by colons, and its marker. */
  lemma ShapedTimeReassembles(t: string, p: int, q: int)
    requires TimeShape(t, p, q)
    ensures AllDigits(t[..p]) && AllDigits(t[p + 1..q]) && AllDigits(t[q + 1..|t| - 3])
    ensures t == t[..p] + ":" + t[p + 1..q] + ":" + t[q + 1..|t| - 3] + (if t[|t| - 2] == 'P' then " PM" else " AM")
  {
    assert t[|t| - 3..] == (if t[|t| - 2] == 'P' then " PM" else " AM");
    assert t == t[..p] + [t[p]] + t[p + 1..q] + [t[q]] + t[q + 1..|t| - 3] + t[|t| - 3..];
    var hf, mf, sf := t[..p], t[p + 1..q], t[q + 1..|t| - 3];
    forall k | 0 <= k < |hf| ensures IsDigit(hf[k]) { }
    forall k | 0 <= k < |mf| ensures IsDigit(mf[k]) { assert mf[k] == t[p + 1 + k]; }
    forall k | 0 <= k < |sf| ensures IsDigit(sf[k]) { assert sf[k] == t[q + 1 + k]; }
  }

  /** The fields '%I:%M:%S %p' reads from a matched time text, which they make up again. */
  function ClockFields(t: string): (c: ClockText)
    requires IsTimeText(t)
    ensures |c.hour| > 0 && |c.minute| > 0 && |c.second| > 0
    ensures AllDigits(c.hour) && AllDigits(c.minute) && AllDigits(c.second)
    ensures t == c.hour + ":" + c.minute + ":" + c.second + (if c.pm then " PM" else " AM")
  {
    assert t[0..|t|] == t;
    MatchTimeAtComplete(t, 0, |t|);
    var m := MatchTimeAt(t, 0).value;
    ShapedTimeReassembles(t, m.colon1, m.colon2);
    ClockText(t[..m.colon1], t[m.colon1 + 1..m.colon2], t[m.colon2 + 1..|t| - 3], t[|t| - 2] == 'P')
  }

  /**
    A 12-hour clock hour with its AM/PM marker as a 24-hour hour: 12 AM is 0,
    1-11 AM unchanged, 12 PM is 12, 1-11 PM add 12.
   */
  function To24Hour(h12: nat, pm: bool): (h: nat)
    requires 1 <= h12 <= 12
    ensures h < 24
    ensures h % 12 == h12 % 12
    ensures h >= 12 <==> pm
  {
    if pm then (if h12 == 12 then 12 else h12 + 12)
    else (if h12 == 12 then 0 else h12)
  }

  /** How a 12-hour clock shows a 24-hour hour: the hour 1..12 and whether it is PM. */
  function To12Hour(h: nat): (nat, bool)
    requires h < 24
  {
    (if h % 12 == 0 then 12 else h % 12, h >= 12)
  }

  /** Reading a 12-hour clock face undoes showing an hour on it, and the converse. */
  lemma ClockConversionsInverse(h: nat, h12: nat, pm: bool)
    requires h < 24 && 1 <= h12 <= 12
    ensures To24Hour(To12Hour(h).0, To12Hour(h).1) == h
    ensures To12Hour(To24Hour(h12, pm)) == (h12, pm)
  {
  }

  /**
    `to_datetime(t, format='%I:%M:%S %p').dt.hour` on the fields of a matched
    time: None (NaT) unless hour, minute and second are each accepted by their
    directive. A leap second (60 or 61) is carried into the minute, and from
    minute 59 into the next hour, as pandas' datetime-struct conversion does.
   */
  function ClockHour(c: ClockText): (r: Option<nat>)
    ensures r.Some? <==> OneToTwelve(c.hour).Some? && Minute(c.minute).Some? && Second(c.second).Some?
    ensures r.Some? ==> r.value < 24
    ensures r.Some? && Second(c.second).value < 60 ==>
      r.value % 12 == OneToTwelve(c.hour).value % 12 && (r.value >= 12 <==> c.pm)
  {
    match (OneToTwelve(c.hour), Minute(c.minute), Second(c.second))
    case (Some(h12), Some(m), Some(sec)) =>
      var h := To24Hour(h12, c.pm);
      Some(if sec >= 60 && m == 59 then (h + 1) % 24 else h)
    case _ => None
  }

  /** df['Hour'] for one row: the pipeline from the raw time cell (None is a NaN cell). */
  function HourOf(cell: Option<string>): (r: Option<nat>)
    ensures r.Some? ==> r.value < 24
    ensures r.Some? ==> cell.Some? && ExtractTime(cell.value).Some?
  {
    match cell
    case None => None
    case Some(s) =>
      match ExtractTime(s)
      case None => None
      case Some(t) => ClockHour(ClockFields(t))
  }

  /** A time written the way the export writes it: unpadded hour, two-digit minute and second, AM/PM. */
  function RenderTime(h: nat, m: nat, sec: nat): string
    requires h < 24 && m < 60 && sec < 60
  {
    var (h12, pm) := To12Hour(h);
    Unpadded(h12) + ":" + ZeroPadded(m) + ":" + ZeroPadded(sec) + (if pm then " PM" else " AM")
  }

  /** Where the pieces of a time text assembled from digit fields and a marker sit. */
  lemma AssembledTimeShape(hf: string, mf: string, sf: string, pm: bool)
    requires |hf| > 0 && |mf| > 0 && |sf| > 0
    requires AllDigits(hf) && AllDigits(mf) && AllDigits(sf)
    ensures var t := hf + ":" + mf + ":" + sf + (if pm then " PM" else " AM");
      var p, q := |hf|, |hf| + 1 + |mf|;
      && TimeShape(t, p, q) && (t[|t| - 2] == 'P' <==> pm)
      && t[..p] == hf && t[p + 1..q] == mf && t[q + 1..|t| - 3] == sf
  {
    var t := hf + ":" + mf + ":" + sf + (if pm then " PM" else " AM");
    var p, q := |hf|, |hf| + 1 + |mf|;
    forall k | 0 <= k < p ensures t[k] == hf[k] { }
    forall k | p < k < q ensures t[k] == mf[k - p - 1] { }
    forall k | q < k < |t| - 3 ensures t[k] == sf[k - q - 1] { }
    assert TimeShape(t, p, q);
    assert t[..p] == hf;
    assert t[p + 1..q] == mf;
    assert t[q + 1..|t| - 3] == sf;
  }

  /** A time text with its colons at p and q splits at those colons. */
  lemma ClockFieldsAt(t: string, p: int, q: int)
    requires TimeShape(t, p, q)
    ensures IsTimeText(t)
    ensures ClockFields(t) == ClockText(t[..p], t[p + 1..q], t[q + 1..|t| - 3], t[|t| - 2] == 'P')
  {
    assert t[0..|t|] == t;
    MatchTimeAtComplete(t, 0, |t|);
    assert DigitRunEnd(t, 0) == p;
    assert DigitRunEnd(t, p + 1) == q;
  }

  /** The time text assembled from digit fields and a marker splits back into those fields. */
  lemma FieldsOfTimeText(hf: string, mf: string, sf: string, pm: bool)
    requires |hf| > 0 && |mf| > 0 && |sf| > 0
    requires AllDigits(hf) && AllDigits(mf) && AllDigits(sf)
    ensures var t := hf + ":" + mf + ":" + sf + (if pm then " PM" else " AM");
      IsTimeText(t) && ClockFields(t) == ClockText(hf, mf, sf, pm)
  {
    AssembledTimeShape(hf, mf, sf, pm);
    FieldsOfShapedText(hf + ":" + mf + ":" + sf + (if pm then " PM" else " AM"), hf, mf, sf, pm);
  }

  /** A time text whose pieces are known has those pieces as its fields. */
  lemma FieldsOfShapedText(t: string, hf: string, mf: string, sf: string, pm: bool)
    requires TimeShape(t, |hf|, |hf| + 1 + |mf|)
    requires t[..|hf|] == hf && t[|hf| + 1..|hf| + 1 + |mf|] == mf && t[|hf| + 2 + |mf|..|t| - 3] == sf
    requires t[|t| - 2] == 'P' <==> pm
    ensures IsTimeText(t) && ClockFields(t) == ClockText(hf, mf, sf, pm)
  {
    ClockFieldsAt(t, |hf|, |hf| + 1 + |mf|);
  }

  /** A string that is a time text in full is extracted whole. */
  lemma ExtractWholeTime(t: string)
    requires IsTimeText(t)
    ensures ExtractTime(t) == Some(t)
  {
    assert t[0..|t|] == t;
    MatchTimeAtComplete(t, 0, |t|);
  }

  /**
    A time text after a prefix with no colon that does not end in a digit (a
    date and a blank, say) is what the extraction finds: no match can start
    inside such a prefix.
   */
  lemma ExtractAfterPrefix(prefix: string, t: string)
    requires IsTimeText(t)
    requires ':' !in prefix
    requires |prefix| > 0 ==> !IsDigit(prefix[|prefix| - 1])
    ensures ExtractTime(prefix + t) == Some(t)
  {
    var s := prefix + t;
    assert s[|prefix|..|s|] == t;
    MatchTimeAtComplete(s, |prefix|, |s|);
    forall k | 0 <= k < |prefix|
      ensures MatchTimeAt(s, k).None?
    {
      var a := DigitRunEnd(s, k);
      assert s[|prefix| - 1] == prefix[|prefix| - 1];
      assert a < |prefix|;
      assert s[a] == prefix[a];
    }
    var m := FindTime(s).value;
    assert m.start == |prefix|;
  }

  /** A rendered time splits into its hour, minute and second spellings and its marker. */
  lemma FieldsOfRenderedTime(h: nat, m: nat, sec: nat)
    requires h < 24 && m < 60 && sec < 60
    ensures IsTimeText(RenderTime(h, m, sec))
    ensures ClockFields(RenderTime(h, m, sec)) ==
      ClockText(Unpadded(To12Hour(h).0), ZeroPadded(m), ZeroPadded(sec), To12Hour(h).1)
  {
    var (h12, pm) := To12Hour(h);
    var hf, mf, sf := Unpadded(h12), ZeroPadded(m), ZeroPadded(sec);
    assert RenderTime(h, m, sec) == hf + ":" + mf + ":" + sf + (if pm then " PM" else " AM");
    FieldsOfTimeText(hf, mf, sf, pm);
  }

  /** The rendered fields are accepted by their directives and give back the hour. */
  lemma ClockHourOfRenderedFields(h: nat, m: nat, sec: nat)
    requires h < 24 && m < 60 && sec < 60
    ensures ClockHour(ClockText(Unpadded(To12Hour(h).0), ZeroPadded(m), ZeroPadded(sec), To12Hour(h).1)) == Some(h)
  {
    var (h12, pm) := To12Hour(h);
    OneToTwelveSpellings(Unpadded(h12), h12);
    MinuteSpellings(ZeroPadded(m), m);
    SecondSpellings(ZeroPadded(sec), sec);
    ClockConversionsInverse(h, h12, pm);
  }

  /** Every rendered time of day is read back as its own hour. */
  lemma HourOfRenderedTime(h: nat, m: nat, sec: nat)
    requires h < 24 && m < 60 && sec < 60
    ensures HourOf(Some(RenderTime(h, m, sec))) == Some(h)
  {
    var t := RenderTime(h, m, sec);
    FieldsOfRenderedTime(h, m, sec);
    ExtractWholeTime(t);
    ClockHourOfRenderedFields(h, m, sec);
  }

  lemma RenderedEveningTime()
    ensures RenderTime(19, 45, 0) == "7:45:00 PM"
  {
    assert To12Hour(19) == (7, true);
    assert Unpadded(7) == "7";
    assert ZeroPadded(45) == "45";
    assert ZeroPadded(0) == "00";
  }

  /** A date-like prefix does not change the hour read from a time cell. */
  lemma HourAfterPrefix(prefix: string, t: string)
    requires IsTimeText(t)
    requires ':' !in prefix
    requires |prefix| > 0 ==> !IsDigit(prefix[|prefix| - 1])
    ensures HourOf(Some(prefix + t)) == HourOf(Some(t))
  {
    ExtractAfterPrefix(prefix, t);
    ExtractWholeTime(t);
  }

  /** The time column as exported, "4/12/2019 7:45:00 PM", gives hour 19. */
  lemma HourOfDatePrefixedTime(cell: string)
    requires cell == "4/12/2019 7:45:00 PM"
    ensures ExtractTime(cell) == Some("7:45:00 PM")
    ensures HourOf(Some(cell)) == Some(19)
  {
    var t := RenderTime(19, 45, 0);
    RenderedEveningTime();
    assert TimeShape(t, 1, 4);
    assert cell == "4/12/2019 " + t;
    ExtractAfterPrefix("4/12/2019 ", t);
    HourAfterPrefix("4/12/2019 ", t);
    HourOfRenderedTime(19, 45, 0);
  }

}
