/**
  The per-phase verdicts of the scan-timeline scripts: `determine_status`,
  `format_duration`, and the row that `show` prints for a phase.
 */
module TimelineStatus {
  import opened Wrappers
  import opened Text
  import opened TimelineRules
  import opened TimelineEngine

  /** The status values the scripts report. */
  datatype Status = NOT_STARTED | INCOMPLETE | WARNING | FAILED | ABORTED | NOT_SUPPORTED | DONE

  function StatusName(s: Status): string {
    match s
    case NOT_STARTED => "NOT_STARTED"
    case INCOMPLETE => "INCOMPLETE"
    case WARNING => "WARNING"
    case FAILED => "FAILED"
    case ABORTED => "ABORTED"
    case NOT_SUPPORTED => "NOT_SUPPORTED"
    case DONE => "DONE"
  }

  /** A containing "failed" contains "fail": the second keyword of the FAILED test adds nothing. */
  lemma FailedContainsFail(s: string)
    requires Contains(s, "failed")
    ensures Contains(s, "fail")
  {
    var i :| 0 <= i <= |s| - 6 && OccursAt(s, "failed", i);
    assert s[i..i + 4] == s[i..i + 6][..4];
    assert OccursAt(s, "fail", i);
  }

  /**
    The verdict read from the fallback text of a phase that started but has
    no end: the lowered text is checked for FAILED, then WARNING, then ABORTED.
   */
  function FallbackState(text: string): (s: Status)
    ensures s == FAILED <==> Contains(Lower(text), "fail")
    ensures s == WARNING <==> !Contains(Lower(text), "fail")
                              && (Contains(Lower(text), "warn") || Contains(Lower(text), "skip") || Contains(Lower(text), "not found"))
    ensures s == ABORTED <==> !Contains(Lower(text), "fail") && !Contains(Lower(text), "warn")
                              && !Contains(Lower(text), "skip") && !Contains(Lower(text), "not found")
                              && Contains(Lower(text), "abort")
    ensures s in {FAILED, WARNING, ABORTED, INCOMPLETE}
  {
    var low := Lower(text);
    assert Contains(low, "failed") ==> Contains(low, "fail") by {
      if Contains(low, "failed") { FailedContainsFail(low); }
    }
    if Contains(low, "fail") || Contains(low, "failed") then
      FAILED
    else if Contains(low, "warn") || Contains(low, "skip") || Contains(low, "not found") then
      WARNING
    else if Contains(low, "abort") then
      ABORTED
    else
      INCOMPLETE
  }

  /**
    `determine_status` for one phase: its start, end, end tag and fallback
    text (`None` where the caller passes none, as for the overall run).
   */
  function DetermineStatus(start: Option<int>, end: Option<int>, tag: Option<Tag>, fallback: Option<string>): (s: Status)
    ensures s == NOT_STARTED <==> start.None?
    ensures start.Some? && end.None? ==> s in {FAILED, WARNING, ABORTED, INCOMPLETE}
    ensures start.Some? && end.None? && (fallback.None? || fallback == Some("")) ==> s == INCOMPLETE
    ensures start.Some? && end.Some? ==>
      s == match tag
           case Some(Failed) => FAILED
           case Some(Skip) => NOT_SUPPORTED
           case Some(Aborted) => ABORTED
           case _ => DONE
  {
    if start.None? then NOT_STARTED
    else if end.None? then
      if fallback.Some? && fallback.value != "" then FallbackState(fallback.value) else INCOMPLETE
    else if tag == Some(Failed) then FAILED
    else if tag == Some(Skip) then NOT_SUPPORTED
    else if tag == Some(Aborted) then ABORTED
    else DONE
  }

  /** The overall run is judged without a tag or fallback, so it is never FAILED, WARNING, ABORTED or NOT_SUPPORTED. */
  lemma OverallStatusRange(start: Option<int>, end: Option<int>)
    ensures DetermineStatus(start, end, None, None) in {NOT_STARTED, INCOMPLETE, DONE}
    ensures DetermineStatus(start, end, None, None) == DONE <==> start.Some? && end.Some?
  {
  }

  // ---------------------------------------------------------------------------
  // format_duration

  /** `f"{n:02d}"`. */
  function Pad2(n: int): string {
    FormatInt(n, 2)
  }

  /**
    `format_duration`: "0" when either time is missing, otherwise the
    whole seconds of `end - start` as "MM:SS", or "HH:MM:SS" from one hour
    on. Python's floor division and modulo on the (possibly negative)
    interval are Dafny's `/` and `%` on a positive divisor.
   */
  function FormatDuration(start: Option<int>, end: Option<int>): (r: string)
    ensures start.None? || end.None? <==> r == "0"
  {
    if start.None? || end.None? then "0"
    else
      DurationOf(end.value - start.value)
  }

  /**
    The layout of a printed interval: two ':'-separated digit fields, or
    three when `hours`, each at least two digits wide, the last two exactly
    two digits and below 60.
   */
  predicate ClockLayout(r: string, hours: bool) {
    var parts := Split(r, ':');
    && |parts| == (if hours then 3 else 2)
    && (forall k :: 0 <= k < |parts| ==> |parts[k]| >= 2 && AllDigits(parts[k]))
    && |parts[|parts| - 2]| == 2 && DigitsValue(parts[|parts| - 2]) < 60
    && |parts[|parts| - 1]| == 2 && DigitsValue(parts[|parts| - 1]) < 60
  }

  /** The text of an interval of `d` milliseconds, split with floor division and modulo. */
  function DurationOf(d: int): (r: string)
    ensures |r| >= 3
    ensures ClockLayout(r, d / 3600000 > 0)
  {
    var h, m, sec := d / 3600000, (d % 3600000) / 60000, (d % 60000) / 1000;
    DurationTextLayout(h, m, sec);
    DurationText(h, m, sec)
  }

  /** `f"{n:02d}"` of a number below 100 is its two digits. */
  lemma Pad2Small(n: nat)
    requires n < 100
    ensures |Pad2(n)| == 2 && AllDigits(Pad2(n)) && DigitsValue(Pad2(n)) == n
  {
    ZeroPadValue(n, 2);
    if n >= 10 {
      assert |NatToString(n / 10)| == 1;
    }
  }

  /** The printed fields of minutes and seconds below 60 have the clock layout. */
  lemma DurationTextLayout(h: int, m: nat, sec: nat)
    requires m < 60 && sec < 60
    ensures ClockLayout(DurationText(h, m, sec), h > 0)
  {
    Pad2Small(m);
    Pad2Small(sec);
    if h > 0 {
      ZeroPadValue(h, 2);
      ThreeFieldLayout(Pad2(h), Pad2(m), Pad2(sec));
    } else {
      TwoFieldLayout(Pad2(m), Pad2(sec));
    }
  }

  lemma TwoFieldLayout(b: string, c: string)
    requires AllDigits(b) && |b| == 2 && DigitsValue(b) < 60
    requires AllDigits(c) && |c| == 2 && DigitsValue(c) < 60
    ensures ClockLayout(b + ":" + c, false)
  {
    DigitsHaveNoSeparator(b, ':');
    DigitsHaveNoSeparator(c, ':');
    assert b + ":" + c == b + [':'] + c;
    SplitTwoPieces(b, ':', c);
  }

  lemma ThreeFieldLayout(a: string, b: string, c: string)
    requires AllDigits(a) && |a| >= 2
    requires AllDigits(b) && |b| == 2 && DigitsValue(b) < 60
    requires AllDigits(c) && |c| == 2 && DigitsValue(c) < 60
    ensures ClockLayout(a + ":" + b + ":" + c, true)
  {
    DigitsHaveNoSeparator(a, ':');
    DigitsHaveNoSeparator(b, ':');
    DigitsHaveNoSeparator(c, ':');
    assert a + ":" + b + ":" + c == a + [':'] + (b + [':'] + c);
    SplitThreePieces(a, ':', b, c);
  }

  /** The printed fields: "HH:MM:SS" when there is a whole hour, otherwise "MM:SS". */
  function DurationText(h: int, m: nat, sec: nat): (r: string)
    ensures |r| >= 3
  {
    if h > 0 then Pad2(h) + ":" + Pad2(m) + ":" + Pad2(sec)
    else Pad2(m) + ":" + Pad2(sec)
  }

  /** The seconds a "MM:SS" or "HH:MM:SS" text denotes, or `None` for anything else. */
  function ReadClock(r: string): Option<nat> {
    ReadFields(Split(r, ':'))
  }

  /** The seconds that two or three ':'-separated digit fields denote. */
  function ReadFields(parts: seq<string>): Option<nat> {
    if |parts| == 2 && AllDigits(parts[0]) && AllDigits(parts[1]) then
      Some(60 * DigitsValue(parts[0]) + DigitsValue(parts[1]))
    else if |parts| == 3 && AllDigits(parts[0]) && AllDigits(parts[1]) && AllDigits(parts[2]) then
      Some(3600 * DigitsValue(parts[0]) + 60 * DigitsValue(parts[1]) + DigitsValue(parts[2]))
    else None
  }

  /** Splitting text without the separator gives the text itself. */
  lemma {:induction false} SplitNoSeparator(x: string, sep: char)
    requires sep !in x
    ensures Split(x, sep) == [x]
  {
    if |x| > 0 {
      SplitNoSeparator(x[1..], sep);
      assert [x[0]] + x[1..] == x;
    }
  }

  /** Splitting `x + sep + y` where `x` lacks the separator peels off `x`. */
  lemma {:induction false} SplitFirstPiece(x: string, sep: char, y: string)
    requires sep !in x
    ensures Split(x + [sep] + y, sep) == [x] + Split(y, sep)
  {
    var s := x + [sep] + y;
    if |x| == 0 {
      assert s[1..] == y;
    } else {
      assert s[1..] == x[1..] + [sep] + y;
      SplitFirstPiece(x[1..], sep, y);
      assert [x[0]] + x[1..] == x;
    }
  }

  lemma DigitsHaveNoSeparator(s: string, sep: char)
    requires AllDigits(s) && !IsDigit(sep)
    ensures sep !in s
  {
  }

  /**
    Reading back the text of an interval of `d` milliseconds gives its whole
    seconds; a negative interval wraps around the hour and reads as a
    positive "MM:SS".
   */
  lemma ReadDurationOf(d: int)
    ensures ReadClock(DurationOf(d)) == Some(if d >= 0 then d / 1000 else (d % 3600000) / 1000)
  {
    ReadDurationFields(d / 3600000, (d % 3600000) / 60000, (d % 60000) / 1000);
    ClockFields(d);
  }

  /** The seconds the printed fields denote. */
  function FieldSeconds(h: int, m: nat, sec: nat): int {
    if h > 0 then 3600 * h + 60 * m + sec else 60 * m + sec
  }

  /** The printed fields read back as the seconds they denote. */
  lemma ReadDurationFields(h: int, m: nat, sec: nat)
    ensures ReadClock(DurationText(h, m, sec)) == Some(FieldSeconds(h, m, sec))
  {
    if h > 0 {
      ReadThreeFields(h, m, sec);
    } else {
      ReadTwoFields(m, sec);
    }
  }

  /** The printed fields of an interval of `d` milliseconds add up to its whole seconds, wrapped around the hour when negative. */
  lemma ClockFields(d: int)
    ensures FieldSeconds(d / 3600000, (d % 3600000) / 60000, (d % 60000) / 1000)
            == if d >= 0 then d / 1000 else (d % 3600000) / 1000
  {
    var h := d / 3600000;
    assert d == 3600000 * h + d % 3600000;
    ClockDecompose(d);
    if h <= 0 {
      assert d < 3600000;
      MinutesDecompose(d);
    }
  }

  lemma ReadTwoFields(m: nat, sec: nat)
    ensures ReadClock(Pad2(m) + ":" + Pad2(sec)) == Some(60 * m + sec)
  {
    ZeroPadValue(m, 2);
    ZeroPadValue(sec, 2);
    ReadTwoDigitFields(Pad2(m), Pad2(sec));
  }

  lemma ReadThreeFields(h: nat, m: nat, sec: nat)
    ensures ReadClock(Pad2(h) + ":" + Pad2(m) + ":" + Pad2(sec)) == Some(3600 * h + 60 * m + sec)
  {
    ZeroPadValue(h, 2);
    ZeroPadValue(m, 2);
    ZeroPadValue(sec, 2);
    ReadThreeDigitFields(Pad2(h), Pad2(m), Pad2(sec));
  }

  /** Two digit runs joined by ':' read as minutes and seconds. */
  lemma ReadTwoDigitFields(a: string, b: string)
    requires AllDigits(a) && AllDigits(b)
    ensures ReadClock(a + ":" + b) == Some(60 * DigitsValue(a) + DigitsValue(b))
  {
    DigitsHaveNoSeparator(a, ':');
    DigitsHaveNoSeparator(b, ':');
    assert a + ":" + b == a + [':'] + b;
    SplitTwoPieces(a, ':', b);
    ReadSplitClock(a + ":" + b, [a, b]);
    ReadTwoParts(a, b);
  }

  /** Three digit runs joined by ':' read as hours, minutes and seconds. */
  lemma ReadThreeDigitFields(a: string, b: string, c: string)
    requires AllDigits(a) && AllDigits(b) && AllDigits(c)
    ensures ReadClock(a + ":" + b + ":" + c) == Some(3600 * DigitsValue(a) + 60 * DigitsValue(b) + DigitsValue(c))
  {
    DigitsHaveNoSeparator(a, ':');
    DigitsHaveNoSeparator(b, ':');
    DigitsHaveNoSeparator(c, ':');
    assert a + ":" + b + ":" + c == a + [':'] + (b + [':'] + c);
    SplitThreePieces(a, ':', b, c);
    ReadSplitClock(a + ":" + b + ":" + c, [a, b, c]);
    ReadThreeParts(a, b, c);
  }

  lemma ReadTwoParts(a: string, b: string)
    requires AllDigits(a) && AllDigits(b)
    ensures ReadFields([a, b]) == Some(60 * DigitsValue(a) + DigitsValue(b))
  {
    var p := [a, b];
    assert |p| == 2 && p[0] == a && p[1] == b;
  }

  lemma ReadThreeParts(a: string, b: string, c: string)
    requires AllDigits(a) && AllDigits(b) && AllDigits(c)
    ensures ReadFields([a, b, c]) == Some(3600 * DigitsValue(a) + 60 * DigitsValue(b) + DigitsValue(c))
  {
    var p := [a, b, c];
    assert |p| == 3 && p[0] == a && p[1] == b && p[2] == c;
  }

  /** A clock text reads as the fields it splits into. */
  lemma ReadSplitClock(r: string, parts: seq<string>)
    requires Split(r, ':') == parts
    ensures ReadClock(r) == ReadFields(parts)
  {
  }

  /** Hours, minutes and seconds of an interval recombine to its whole seconds (floor semantics). */
  lemma ClockDecompose(d: int)
    ensures 3600 * (d / 3600000) + 60 * ((d % 3600000) / 60000) + (d % 60000) / 1000 == d / 1000
  {
    var h, r1 := d / 3600000, d % 3600000;
    var m, r2 := r1 / 60000, r1 % 60000;
    var s, r3 := r2 / 1000, r2 % 1000;
    SplitBy60000(d, 60 * h + m, r2);
    SplitBy1000(d, 3600 * h + 60 * m + s, r3);
  }

  lemma MinutesDecompose(d: int)
    requires d < 3600000
    ensures 60 * ((d % 3600000) / 60000) + (d % 60000) / 1000
            == if d >= 0 then d / 1000 else (d % 3600000) / 1000
  {
    var h, r1 := d / 3600000, d % 3600000;
    var m, r2 := r1 / 60000, r1 % 60000;
    var s, r3 := r2 / 1000, r2 % 1000;
    SplitBy60000(d, 60 * h + m, r2);
    SplitBy1000(r1, 60 * m + s, r3);
    if d >= 0 {
      SplitBy3600000(d, 0, d);
    }
  }

  /** `d == 1000 * q + r` with `0 <= r < 1000` fixes the quotient and remainder of `d` by 1000. */
  lemma SplitBy1000(d: int, q: int, r: int)
    requires d == 1000 * q + r && 0 <= r < 1000
    ensures d / 1000 == q && d % 1000 == r
  {
  }

  lemma SplitBy60000(d: int, q: int, r: int)
    requires d == 60000 * q + r && 0 <= r < 60000
    ensures d / 60000 == q && d % 60000 == r
  {
  }

  lemma SplitBy3600000(d: int, q: int, r: int)
    requires d == 3600000 * q + r && 0 <= r < 3600000
    ensures d / 3600000 == q && d % 3600000 == r
  {
  }

  /** Equal times give "00:00". */
  lemma FormatDurationZero(t: int)
    ensures FormatDuration(Some(t), Some(t)) == "00:00"
  {
  }

  // ---------------------------------------------------------------------------
  // The table row `show` prints for a phase

  /** The status column of a phase row. */
  datatype Row =
    | Timed(clock: string, mark: string)  // start and end: the interval and the tag's word
    | Pending(state: Status)               // start only: the verdict of the fallback text
    | Blank                                // no start: dashes

  /** Python's `int(x)` on the seconds of an interval: milliseconds truncated toward zero. */
  function TruncMillis(d: int): (ms: int)
    ensures -1000 < ms < 1000
    ensures d >= 0 ==> ms == d % 1000
  {
    if d >= 0 then d % 1000 else -((-d) % 1000)
  }

  /** `f"{h}:{m:02d}:{sec:02d}.{ms:03d}"` of an interval of `d` milliseconds. */
  function Clock(d: int): string {
    var h := d / 3600000;
    var m := (d % 3600000) / 60000;
    var sec := (d % 60000) / 1000;
    FormatInt(h, 0) + ":" + Pad2(m) + ":" + Pad2(sec) + "." + FormatInt(TruncMillis(d), 3)
  }

  /** The word after the interval: the tag itself for FAILED, SKIP and ABORTED, else nothing. */
  function Mark(tag: Option<Tag>): (r: string)
    ensures r == "" <==> tag.None? || tag == Some(Done)
    ensures tag == Some(Failed) ==> r == StatusName(FAILED)
    ensures tag == Some(Aborted) ==> r == StatusName(ABORTED)
    ensures tag == Some(Skip) ==> r == "SKIP"
  {
    match tag
    case Some(Failed) => "FAILED"
    case Some(Skip) => "SKIP"
    case Some(Aborted) => "ABORTED"
    case _ => ""
  }

  /**
    The row of a phase, given its window and its fallback text. An end
    before the start prints a negative hour field and negative
    milliseconds (ClockNegative), as `int(total_seconds // 3600)` and
    `int(...)` of a negative fraction do.
   */
  function ShowRow(w: PhaseWindow, fallback: string): (r: Row)
    ensures r.Blank? <==> w.start.None?
    ensures r.Pending? <==> w.start.Some? && w.end.None?
    ensures r.Timed? ==> r.mark == Mark(w.tag)
    ensures r.Timed? ==> r.clock == Clock(w.end.value - w.start.value)
    ensures r.Pending? ==> r.state == FallbackState(fallback)
  {
    if w.start.Some? && w.end.Some? then
      Timed(Clock(w.end.value - w.start.value), Mark(w.tag))
    else if w.start.Some? then
      Pending(FallbackState(fallback))
    else
      Blank
  }

  /** A pending row shows the verdict `determine_status` gives the same phase. */
  lemma PendingRowAgreesWithStatus(w: PhaseWindow, fallback: string)
    requires w.start.Some? && w.end.None?
    ensures ShowRow(w, fallback) == Pending(DetermineStatus(w.start, w.end, w.tag, Some(fallback)))
  {
    if fallback == "" {
      assert !Contains(Lower(fallback), "abort");
      assert !Contains(Lower(fallback), "fail");
      assert !Contains(Lower(fallback), "warn");
      assert !Contains(Lower(fallback), "skip");
      assert !Contains(Lower(fallback), "not found");
    }
  }

  /** A SKIP tag prints "SKIP" in the table while the status value is NOT_SUPPORTED. */
  lemma SkipPrintsSkip(w: PhaseWindow, fallback: string)
    requires w.start.Some? && w.end.Some? && w.tag == Some(Skip)
    ensures ShowRow(w, fallback).mark == "SKIP"
    ensures DetermineStatus(w.start, w.end, w.tag, Some(fallback)) == NOT_SUPPORTED
  {
    var r := ShowRow(w, fallback);
    assert r.Timed? && r.mark == Mark(w.tag);
  }

  /** Reads `h:MM:SS.mmm` back as milliseconds. */
  function ReadTimedClock(r: string): Option<nat> {
    var parts := Split(r, ':');
    if |parts| == 3 then ReadTimedFields(parts[0], parts[1], Split(parts[2], '.')) else None
  }

  /** The milliseconds that hour and minute fields and the "SS" and "mmm" pieces denote. */
  function ReadTimedFields(h: string, m: string, tail: seq<string>): Option<nat> {
    if AllDigits(h) && AllDigits(m) then
      match ReadMillis(tail)
      case Some(x) => Some(3600000 * DigitsValue(h) + 60000 * DigitsValue(m) + x)
      case None => None
    else None
  }

  /** The milliseconds that "SS" and "mmm" pieces denote. */
  function ReadMillis(tail: seq<string>): Option<nat> {
    if |tail| == 2 && AllDigits(tail[0]) && AllDigits(tail[1]) then
      Some(1000 * DigitsValue(tail[0]) + DigitsValue(tail[1]))
    else None
  }

  /** For a non-negative interval the row's clock reads back as the exact milliseconds. */
  lemma ClockReadBack(d: int)
    requires d >= 0
    ensures ReadTimedClock(Clock(d)).Some? && ReadTimedClock(Clock(d)).value == d
  {
    var h := d / 3600000;
    var m := (d % 3600000) / 60000;
    var sec := (d % 60000) / 1000;
    var ms := d % 1000;
    assert Clock(d) == FormatInt(h, 0) + ":" + Pad2(m) + ":" + Pad2(sec) + "." + FormatInt(ms, 3);
    ReadClockFields(h, m, sec, ms);
    MillisDecompose(d);
  }

  /** A negative interval prints with a leading '-' on its hour field. */
  lemma ClockNegative(d: int)
    requires d < 0
    ensures Clock(d)[0] == '-'
  {
    assert d / 3600000 < 0;
  }

  lemma MillisDecompose(d: int)
    requires d >= 0
    ensures 3600000 * (d / 3600000) + 60000 * ((d % 3600000) / 60000) + 1000 * ((d % 60000) / 1000) + d % 1000 == d
  {
    ClockDecompose(d);
    assert d == 1000 * (d / 1000) + d % 1000;
  }

  lemma SplitTwoPieces(x: string, sep: char, y: string)
    requires sep !in x && sep !in y
    ensures Split(x + [sep] + y, sep) == [x, y]
  {
    SplitNoSeparator(y, sep);
    SplitFirstPiece(x, sep, y);
  }

  lemma SplitThreePieces(x: string, sep: char, y: string, z: string)
    requires sep !in x && sep !in y && sep !in z
    ensures Split(x + [sep] + (y + [sep] + z), sep) == [x, y, z]
  {
    SplitTwoPieces(y, sep, z);
    SplitFirstPiece(x, sep, y + [sep] + z);
    assert [x] + [y, z] == [x, y, z];
  }

  lemma ReadDigitFields(a: string, b: string, c: string, e: string)
    requires AllDigits(a) && AllDigits(b) && AllDigits(c) && AllDigits(e)
    ensures ReadTimedClock(a + ":" + b + ":" + c + "." + e).Some?
    ensures ReadTimedClock(a + ":" + b + ":" + c + "." + e).value
            == 3600000 * DigitsValue(a) + 60000 * DigitsValue(b) + 1000 * DigitsValue(c) + DigitsValue(e)
  {
    DigitsHaveNoSeparator(a, ':');
    DigitsHaveNoSeparator(b, ':');
    DigitsHaveNoSeparator(c, ':');
    DigitsHaveNoSeparator(e, ':');
    DigitsHaveNoSeparator(c, '.');
    DigitsHaveNoSeparator(e, '.');
    TimedTextFields(a, b, c, e);
    ReadMillisParts(c, e);
    ReadTimedParts(a, b, [c, e], 1000 * DigitsValue(c) + DigitsValue(e));
  }

  /** `h:MM:SS.mmm` splits into its hour and minute fields and its "SS" and "mmm" pieces. */
  lemma TimedTextFields(a: string, b: string, c: string, e: string)
    requires ':' !in a && ':' !in b && ':' !in c && ':' !in e && '.' !in c && '.' !in e
    ensures ReadTimedClock(a + ":" + b + ":" + c + "." + e) == ReadTimedFields(a, b, [c, e])
  {
    var third := c + ['.'] + e;
    assert a + ":" + b + ":" + c + "." + e == a + [':'] + (b + [':'] + third);
    SplitThreePieces(a, ':', b, third);
    SplitTwoPieces(c, '.', e);
    ReadSplitTimedClock(a + ":" + b + ":" + c + "." + e, a, b, third, [c, e]);
  }

  /** A timed clock text reads as the fields it splits into. */
  lemma ReadSplitTimedClock(r: string, a: string, b: string, third: string, tail: seq<string>)
    requires Split(r, ':') == [a, b, third] && Split(third, '.') == tail
    ensures ReadTimedClock(r) == ReadTimedFields(a, b, tail)
  {
  }

  lemma ReadTimedParts(a: string, b: string, tail: seq<string>, x: nat)
    requires AllDigits(a) && AllDigits(b) && ReadMillis(tail) == Some(x)
    ensures ReadTimedFields(a, b, tail) == Some(3600000 * DigitsValue(a) + 60000 * DigitsValue(b) + x)
  {
  }

  lemma ReadMillisParts(c: string, e: string)
    requires AllDigits(c) && AllDigits(e)
    ensures ReadMillis([c, e]) == Some(1000 * DigitsValue(c) + DigitsValue(e))
  {
    var p := [c, e];
    assert |p| == 2 && p[0] == c && p[1] == e;
  }

  lemma ReadClockFields(h: nat, m: nat, sec: nat, ms: nat)
    ensures ReadTimedClock(FormatInt(h, 0) + ":" + Pad2(m) + ":" + Pad2(sec) + "." + FormatInt(ms, 3)).Some?
    ensures ReadTimedClock(FormatInt(h, 0) + ":" + Pad2(m) + ":" + Pad2(sec) + "." + FormatInt(ms, 3)).value
            == 3600000 * h + 60000 * m + 1000 * sec + ms
  {
    ZeroPadValue(h, 0);
    ZeroPadValue(m, 2);
    ZeroPadValue(sec, 2);
    ZeroPadValue(ms, 3);
    ReadDigitFields(FormatInt(h, 0), Pad2(m), Pad2(sec), FormatInt(ms, 3));
  }
}
