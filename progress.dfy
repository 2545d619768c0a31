/**
 * What the app keeps on the device between visits: the streak count, the
 * date of the last completed lesson (as fmtDate wrote it), the last completed
 * day, and the per-day scores; how completing a lesson updates them
 * (saveScore, bumpStreak), how the progress reset clears them, and the CSV
 * export of all of it.
 */
module Progress {
  import opened Wrappers
  import opened Text
  import opened Calendar

  /** One stored score, {correct, total, pct, ts}; ts is the Date.now() of the save. */
  datatype ScoreRecord = ScoreRecord(correct: int, total: int, pct: int, ts: int)

  /**
   * The stored scores key: absent, holding text JSON.parse rejects, or a
   * day -> record object.
   */
  datatype ScoresSlot = Missing | Corrupt | Stored(days: map<int, ScoreRecord>)

  /**
   * The four keys, each absent (None) or holding what this code writes there:
   * the streak count and the last completed day as the integers their
   * strings read back as, the last date as the string itself.
   */
  datatype Snapshot = Snapshot(
    streakCount: Option<int>,
    lastDate: Option<string>,
    lastCompletedDay: Option<int>,
    scores: ScoresSlot)

  /** JSON.parse(stored || '{}'), with a parse error caught and read as {}. */
  function ReadScores(slot: ScoresSlot): (m: map<int, ScoreRecord>)
    ensures slot.Stored? ==> m == slot.days
    ensures !slot.Stored? ==> m == map[]
  {
    if slot.Stored? then slot.days else map[]
  }

  /** The device after the progress reset: every key removed. */
  const Cleared: Snapshot := Snapshot(None, None, None, Missing)

  // ---------------------------------------------------------------- saveScore

  /** saveScore: read the stored scores, set scores[day], write all of them back. */
  function WithScore(slot: ScoresSlot, day: int, rec: ScoreRecord): (r: ScoresSlot)
    ensures r.Stored? && day in r.days && r.days[day] == rec
    ensures r.days.Keys == ReadScores(slot).Keys + {day}
    ensures forall d :: d in ReadScores(slot) && d != day ==> r.days[d] == ReadScores(slot)[d]
  {
    Stored(ReadScores(slot)[day := rec])
  }

  /** Saving the same day twice keeps only the second record. */
  lemma LastWriteWins(slot: ScoresSlot, day: int, r1: ScoreRecord, r2: ScoreRecord)
    ensures WithScore(WithScore(slot, day, r1), day, r2) == WithScore(slot, day, r2)
  {
    var m := ReadScores(slot);
    assert m[day := r1][day := r2] == m[day := r2];
  }

  /** Saves of different days do not interfere: their order does not matter. */
  lemma DifferentDaysCommute(slot: ScoresSlot, d1: int, r1: ScoreRecord, d2: int, r2: ScoreRecord)
    requires d1 != d2
    ensures WithScore(WithScore(slot, d1, r1), d2, r2) == WithScore(WithScore(slot, d2, r2), d1, r1)
  {
    var m := ReadScores(slot);
    assert m[d1 := r1][d2 := r2] == m[d2 := r2][d1 := r1];
  }

  /** Unreadable stored scores are replaced: the save starts again from an empty object. */
  lemma CorruptReadsEmpty(day: int, rec: ScoreRecord)
    ensures ReadScores(Corrupt) == map[] && ReadScores(Missing) == map[]
    ensures WithScore(Corrupt, day, rec) == WithScore(Missing, day, rec) == Stored(map[day := rec])
  {}

  // ---------------------------------------------------------------- bumpStreak

  /**
   * bumpStreak at clock reading today: without a stored last date the count
   * becomes 1; otherwise the day difference to the stored date decides: 0
   * keeps the count, 1 adds one to it (an absent count reads as 0), anything
   * else, and the NaN of an unreadable date, restarts it at 1. The last date
   * becomes today's in every case.
   */
  function Bump(s: Snapshot, today: Instant): (r: Snapshot)
    requires ValidDate(today.date)
    ensures r.lastDate == Some(FmtDate(today.date))
    ensures r.lastCompletedDay == s.lastCompletedDay && r.scores == s.scores
    ensures r.streakCount == s.streakCount || r.streakCount == Some(1) || r.streakCount == Some(s.streakCount.GetOr(0) + 1)
  {
    s.(streakCount := BumpedCount(s.streakCount, s.lastDate, today), lastDate := Some(FmtDate(today.date)))
  }

  /** The count bumpStreak stores, from the stored count and last date. */
  function BumpedCount(count: Option<int>, last: Option<string>, today: Instant): Option<int> {
    if last.None? || last.value == "" then Some(1)
    else
      var diff := DayDiff(last.value, today);
      if diff == Some(0) then count
      else if diff == Some(1) then Some(count.GetOr(0) + 1)
      else Some(1)
  }

  /** daysBetween(parseDate(last), today); None is the NaN of a date that does not parse. */
  function DayDiff(last: string, today: Instant): (diff: Option<int>)
    ensures diff.None? <==> ParseDate(last).None?
    ensures diff.Some? ==> diff.value == DaysBetween(ParseDate(last).value, today)
  {
    var d := ParseDate(last);
    if d.Some? then Some(DaysBetween(d.value, today)) else None
  }

  /** A date this code wrote reads back exactly: the difference is the calendar distance from that date. */
  lemma DayDiffOfWritten(d: Date, today: Instant)
    requires ValidDate(d) && d.year >= 100
    ensures DayDiff(FmtDate(d), today) == Some(DaysBetween(Instant(d, 0), today))
  {
    FmtDateRoundTrip(d);
  }

  /** The first completion on a device, or one after an unreadable last date, starts the streak at 1. */
  lemma BumpRestart(s: Snapshot, today: Instant)
    requires ValidDate(today.date)
    requires s.lastDate.None? || s.lastDate.value == "" || ParseDate(s.lastDate.value).None?
    ensures Bump(s, today) == s.(streakCount := Some(1), lastDate := Some(FmtDate(today.date)))
  {}

  /** A second completion on the same calendar day changes nothing. */
  lemma BumpSameDay(s: Snapshot, d: Date, today: Instant)
    requires ValidDate(d) && d.year >= 100 && today.date == d
    requires s.lastDate == Some(FmtDate(d))
    ensures Bump(s, today) == s
  {
    FmtDateRoundTrip(d);
    DaysBetweenZeroIff(Instant(d, 0), today);
  }

  /** Completing lessons again later the same day adds nothing: bumpStreak is idempotent within a day. */
  lemma BumpIdempotent(s: Snapshot, today: Instant)
    requires ValidDate(today.date) && today.date.year >= 100
    ensures Bump(Bump(s, today), today) == Bump(s, today)
  {
    BumpSameDay(Bump(s, today), today.date, today);
  }

  /** A completion on the calendar day after the stored one extends the streak by one. */
  lemma BumpNextDay(s: Snapshot, d: Date, today: Instant)
    requires ValidDate(d) && d.year >= 100 && today.date == NextDay(d)
    requires s.lastDate == Some(FmtDate(d))
    ensures Bump(s, today).streakCount == Some(s.streakCount.GetOr(0) + 1)
  {
    FmtDateRoundTrip(d);
    DaysBetweenOneIff(Instant(d, 0), today);
  }

  /** Any other day, a missed day or a clock set back, restarts the streak at 1. */
  lemma BumpGap(s: Snapshot, d: Date, today: Instant)
    requires ValidDate(d) && d.year >= 100 && ValidDate(today.date)
    requires today.date != d && today.date != NextDay(d)
    requires s.lastDate == Some(FmtDate(d))
    ensures Bump(s, today).streakCount == Some(1)
  {
    FmtDateRoundTrip(d);
    DaysBetweenZeroIff(Instant(d, 0), today);
    DaysBetweenOneIff(Instant(d, 0), today);
  }

  /** Successive calendar days, each the day after the one before. */
  predicate Consecutive(days: seq<Date>) {
    (forall i :: 0 <= i < |days| ==> ValidDate(days[i]) && days[i].year >= 100) &&
    (forall i :: 0 < i < |days| ==> days[i] == NextDay(days[i - 1]))
  }

  /** bumpStreak once per completed lesson, one completion on each of the given days. */
  function BumpEach(s: Snapshot, days: seq<Date>, ms: nat): (r: Snapshot)
    requires forall i :: 0 <= i < |days| ==> ValidDate(days[i])
    ensures days != [] ==> r.lastDate == Some(FmtDate(days[|days| - 1]))
    decreases |days|
  {
    if days == [] then s else Bump(BumpEach(s, days[..|days| - 1], ms), Instant(days[|days| - 1], ms))
  }

  /** k lessons on k consecutive days, from a device with no last date, give a streak of k. */
  lemma {:induction false} StreakOfConsecutiveDays(s: Snapshot, days: seq<Date>, ms: nat)
    requires s.lastDate.None? && Consecutive(days)
    ensures days != [] ==> BumpEach(s, days, ms).streakCount == Some(|days|)
    decreases |days|
  {
    var n := |days|;
    if n == 1 {
      assert days[..0] == [];
      BumpRestart(s, Instant(days[0], ms));
    } else if n > 1 {
      var front := days[..n - 1];
      assert forall i :: 0 <= i < |front| ==> front[i] == days[i];
      assert Consecutive(front);
      StreakOfConsecutiveDays(s, front, ms);
      var prev := BumpEach(s, front, ms);
      var last, today := days[n - 2], days[n - 1];
      assert prev.lastDate == Some(FmtDate(last)) && prev.streakCount == Some(n - 1);
      assert ValidDate(last) && last.year >= 100 && today == NextDay(last);
      BumpNextDay(prev, last, Instant(today, ms));
      assert BumpEach(s, days, ms) == Bump(prev, Instant(today, ms));
    }
  }

  // ---------------------------------------------------------------- the next day to offer

  /** Math.min(parseInt(stored last completed day || "0") + 1, 30): the day preselected at start-up. */
  function NextDayChoice(s: Snapshot): (day: int)
    ensures day <= 30
    ensures s.lastCompletedDay.None? ==> day == 1
    ensures s.lastCompletedDay.Some? && s.lastCompletedDay.value < 30 ==> day == s.lastCompletedDay.value + 1
  {
    var last := s.lastCompletedDay.GetOr(0);
    if last + 1 < 30 then last + 1 else 30
  }

  /** Completing lesson day, 0 <= day, makes the next visit preselect the day after it, capped at 30. */
  lemma NextDayAfterCompleting(s: Snapshot, day: int)
    requires 0 <= day
    ensures 1 <= NextDayChoice(s.(lastCompletedDay := Some(day))) <= 30
    ensures day < 30 ==> NextDayChoice(s.(lastCompletedDay := Some(day))) == day + 1
    ensures day >= 30 ==> NextDayChoice(s.(lastCompletedDay := Some(day))) == 30
  {}

  // ---------------------------------------------------------------- the CSV export

  predicate IsLeast(m: int, s: set<int>) {
    m in s && forall y :: y in s ==> m <= y
  }

  /** The smallest element of a non-empty set of days. */
  function Least(s: set<int>): (m: int)
    requires s != {}
    ensures IsLeast(m, s)
  {
    LeastExists(s);
    var m :| IsLeast(m, s);
    m
  }

  lemma {:induction false} LeastExists(s: set<int>)
    requires s != {}
    ensures exists m :: IsLeast(m, s)
    decreases |s|
  {
    NonEmpty(s);
    var x :| x in s;
    if s != {x} {
      var rest := s - {x};
      LeastExists(rest);
      var m :| IsLeast(m, rest);
      var least := if x < m then x else m;
      assert forall y :: y in s ==> y == x || y in rest;
      assert IsLeast(least, s);
    } else {
      assert IsLeast(x, s);
    }
  }

  lemma NonEmpty(s: set<int>)
    requires s != {}
    ensures exists x :: x in s
  {
    if forall y :: y !in s {
      assert false;
    }
  }

  /**
   * Object.keys(scores).sort((a, b) => parseInt(a) - parseInt(b)): the stored
   * days in strictly ascending order, each exactly once.
   */
  function SortedDays(s: set<int>): (r: seq<int>)
    ensures |r| == |s|
    ensures forall x :: x in r <==> x in s
    ensures forall i, j :: 0 <= i < j < |r| ==> r[i] < r[j]
    decreases |s|
  {
    if s == {} then []
    else
      var m := Least(s);
      [m] + SortedDays(s - {m})
  }

  /** The stored count as the export writes it: the stored string, "0" when absent. */
  function CountText(s: Snapshot): string {
    if s.streakCount.Some? then IntToString(s.streakCount.value) else "0"
  }

  /** The stored last completed day as the export writes it: "" when absent. */
  function LastDayText(s: Snapshot): string {
    if s.lastCompletedDay.Some? then IntToString(s.lastCompletedDay.value) else ""
  }

  /** ['_meta', 'streak', streak, 'last_completed_day', lastDay]. */
  function MetaFields(s: Snapshot): seq<string> {
    ["_meta", "streak", CountText(s), "last_completed_day", LastDayText(s)]
  }

  function MetaRow(s: Snapshot): string {
    Join(MetaFields(s), ",")
  }

  /** The header row, ['day', 'correct', 'total', 'pct', 'timestamp'].join(','). */
  const Header: string := "day,correct,total,pct,timestamp"

  /** [day, s.correct, s.total, s.pct, s.ts]. */
  function Fields(day: int, r: ScoreRecord): seq<string> {
    [IntToString(day), IntToString(r.correct), IntToString(r.total), IntToString(r.pct), IntToString(r.ts)]
  }

  function DataRow(day: int, r: ScoreRecord): string {
    Join(Fields(day, r), ",")
  }

  /** One data row per listed day, in the order listed. */
  function DataRows(m: map<int, ScoreRecord>, days: seq<int>): (rows: seq<string>)
    requires forall i :: 0 <= i < |days| ==> days[i] in m
    ensures |rows| == |days|
    ensures forall i :: 0 <= i < |days| ==> rows[i] == DataRow(days[i], m[days[i]])
  {
    seq(|days|, i requires 0 <= i < |days| => DataRow(days[i], m[days[i]]))
  }

  lemma DataRowsAppend(m: map<int, ScoreRecord>, days: seq<int>, i: nat)
    requires i < |days| && forall k :: 0 <= k < |days| ==> days[k] in m
    ensures DataRows(m, days[..i + 1]) == DataRows(m, days[..i]) + [DataRow(days[i], m[days[i]])]
  {
    assert forall k :: 0 <= k <= i ==> days[..i + 1][k] == days[k];
  }

  /** The days the export lists, in the order it lists them. */
  function ExportedDays(s: Snapshot): seq<int> {
    SortedDays(ReadScores(s.scores).Keys)
  }

  /** The two rows every export starts with. */
  function Preamble(s: Snapshot): seq<string> {
    [MetaRow(s), Header]
  }

  /**
   * The rows of the export: the meta row, the header, then one row per
   * stored day, in ascending order of the days.
   */
  function CsvRows(s: Snapshot): seq<string> {
    var m := ReadScores(s.scores);
    Preamble(s) + DataRows(m, SortedDays(m.Keys))
  }

  /** Row 0 is the meta row, row 1 the header, and row i + 2 the row of the i-th exported day. */
  lemma CsvLayout(s: Snapshot)
    ensures |CsvRows(s)| == 2 + |ExportedDays(s)|
    ensures CsvRows(s)[0] == MetaRow(s) && CsvRows(s)[1] == Header
    ensures forall i :: 0 <= i < |ExportedDays(s)| ==>
      ExportedDays(s)[i] in ReadScores(s.scores) &&
      CsvRows(s)[i + 2] == DataRow(ExportedDays(s)[i], ReadScores(s.scores)[ExportedDays(s)[i]])
  {}

  /** The export as written: the rows joined by the two characters backslash and n. */
  function CsvAsWritten(s: Snapshot): string {
    Join(CsvRows(s), "\\n")
  }

  /** The export with one row per line. */
  function CsvText(s: Snapshot): string {
    Join(CsvRows(s), "\n")
  }

  /** A stored record shows up in the export as its day's row. */
  lemma SavedRowExported(s: Snapshot, day: int)
    requires day in ReadScores(s.scores)
    ensures DataRow(day, ReadScores(s.scores)[day]) in CsvRows(s)
  {
    var days := ExportedDays(s);
    assert day in days;
    var i :| 0 <= i < |days| && days[i] == day;
    CsvLayout(s);
    assert CsvRows(s)[i + 2] == DataRow(day, ReadScores(s.scores)[day]);
  }

  /** After saveScore(day, ...) the export carries the new record's row. */
  lemma SaveThenExport(s: Snapshot, day: int, rec: ScoreRecord)
    ensures DataRow(day, rec) in CsvRows(s.(scores := WithScore(s.scores, day, rec)))
  {
    SavedRowExported(s.(scores := WithScore(s.scores, day, rec)), day);
  }

  /**
   * After the progress reset the export is the header and a meta row whose
   * fields are _meta, streak, 0, last_completed_day and the empty string.
   */
  lemma CsvAfterReset()
    ensures CsvRows(Cleared) == [MetaRow(Cleared), Header]
    ensures Split(MetaRow(Cleared), ',') == ["_meta", "streak", "0", "last_completed_day", ""]
  {
    var s := Cleared;
    assert ReadScores(s.scores).Keys == {};
    assert ExportedDays(s) == [];
    assert CsvRows(s) == Preamble(s) + DataRows(map[], []);
    assert DataRows(map[], []) == [];
    MetaRowReadBack(s);
  }

  /** String(n) is digits, perhaps after a minus sign: no line break, no comma. */
  lemma NoBreak(n: int)
    ensures '\n' !in IntToString(n) && ',' !in IntToString(n)
  {
    var t := if n < 0 then NatToString(-n) else NatToString(n);
    assert forall i :: 0 <= i < |t| ==> IsDigit(t[i]);
  }

  lemma FieldsClean(day: int, r: ScoreRecord)
    ensures forall k :: 0 <= k < |Fields(day, r)| ==> '\n' !in Fields(day, r)[k] && ',' !in Fields(day, r)[k]
  {
    NoBreak(day);
    NoBreak(r.correct);
    NoBreak(r.total);
    NoBreak(r.pct);
    NoBreak(r.ts);
  }

  lemma MetaFieldsClean(s: Snapshot)
    ensures forall k :: 0 <= k < |MetaFields(s)| ==> '\n' !in MetaFields(s)[k] && ',' !in MetaFields(s)[k]
  {
    NoBreak(s.streakCount.GetOr(0));
    NoBreak(s.lastCompletedDay.GetOr(0));
  }

  lemma DataRowOneLine(day: int, r: ScoreRecord)
    ensures '\n' !in DataRow(day, r)
  {
    FieldsClean(day, r);
    JoinAvoids(Fields(day, r), ",", '\n');
  }

  lemma MetaRowOneLine(s: Snapshot)
    ensures '\n' !in MetaRow(s)
  {
    MetaFieldsClean(s);
    JoinAvoids(MetaFields(s), ",", '\n');
  }

  lemma HeaderOneLine()
    ensures '\n' !in Header
  {}

  lemma RowOneLine(s: Snapshot, k: int)
    requires 0 <= k < |CsvRows(s)|
    ensures '\n' !in CsvRows(s)[k]
  {
    CsvLayout(s);
    if k == 0 {
      MetaRowOneLine(s);
    } else if k == 1 {
      HeaderOneLine();
    } else {
      var days := ExportedDays(s);
      DataRowOneLine(days[k - 2], ReadScores(s.scores)[days[k - 2]]);
    }
  }

  /** No row of the export contains a line break. */
  lemma RowsOneLine(s: Snapshot)
    ensures forall k :: 0 <= k < |CsvRows(s)| ==> '\n' !in CsvRows(s)[k]
  {
    forall k | 0 <= k < |CsvRows(s)|
      ensures '\n' !in CsvRows(s)[k]
    {
      RowOneLine(s, k);
    }
  }

  /** Splitting the export at line breaks gives its rows back. */
  lemma CsvLines(s: Snapshot)
    ensures Split(CsvText(s), '\n') == CsvRows(s)
  {
    RowsOneLine(s);
    SplitJoin(CsvRows(s), '\n');
  }

  /** The export as written has no line break: all rows end up on one line of text. */
  lemma CsvAsWrittenOneLine(s: Snapshot)
    ensures '\n' !in CsvAsWritten(s)
    ensures Split(CsvAsWritten(s), '\n') == [CsvAsWritten(s)]
  {
    RowsOneLine(s);
    JoinAvoids(CsvRows(s), "\\n", '\n');
    SplitWhole(CsvAsWritten(s), '\n');
  }

  /** A data row reads back field by field: five comma-separated integers, the day first. */
  lemma DataRowReadBack(day: int, r: ScoreRecord)
    ensures Split(DataRow(day, r), ',') == Fields(day, r)
    ensures ParseInt(Split(DataRow(day, r), ',')[0]) == Some(day)
  {
    FieldsClean(day, r);
    SplitJoin(Fields(day, r), ',');
    IntToStringRoundTrip(day);
  }

  /** The meta row reads back too: its third field is the stored streak count, "0" when there is none. */
  lemma MetaRowReadBack(s: Snapshot)
    ensures Split(MetaRow(s), ',') == MetaFields(s)
    ensures ParseInt(Split(MetaRow(s), ',')[2]) == Some(s.streakCount.GetOr(0))
  {
    MetaFieldsClean(s);
    SplitJoin(MetaFields(s), ',');
    IntToStringRoundTrip(s.streakCount.GetOr(0));
    DigitsRoundTrip("0");
  }

  // ---------------------------------------------------------------- completing a lesson

  /**
   * What showSummary writes when lesson day is finished with the given score
   * at clock reading today and time ts: saveScore, then bumpStreak, then the
   * last completed day.
   */
  function Complete(s: Snapshot, day: int, correct: int, total: int, pct: int, today: Instant, ts: int): Snapshot
    requires ValidDate(today.date)
  {
    var saved := s.(scores := WithScore(s.scores, day, ScoreRecord(correct, total, pct, ts)));
    Bump(saved, today).(lastCompletedDay := Some(day))
  }

  /**
   * After a completion the export shows the day's score row and the day as
   * the last completed one, the last date is today, the other days' records
   * are kept, and the next visit preselects the following day.
   */
  lemma CompleteEffects(s: Snapshot, day: int, correct: int, total: int, pct: int, today: Instant, ts: int)
    requires ValidDate(today.date)
    ensures var r := Complete(s, day, correct, total, pct, today, ts);
      DataRow(day, ScoreRecord(correct, total, pct, ts)) in CsvRows(r) &&
      LastDayText(r) == IntToString(day) &&
      r.lastDate == Some(FmtDate(today.date)) &&
      (forall d :: d in ReadScores(s.scores) && d != day ==> d in ReadScores(r.scores) && ReadScores(r.scores)[d] == ReadScores(s.scores)[d]) &&
      NextDayChoice(r) == (if day < 30 then day + 1 else 30)
  {
    var r := Complete(s, day, correct, total, pct, today, ts);
    SavedRowExported(r, day);
  }

  // ---------------------------------------------------------------- the device's storage

  /** localStorage under the app's four keys. */
  class LocalStore {
    var streakCount: Option<int>
    var lastDate: Option<string>
    var lastCompletedDay: Option<int>
    var scores: ScoresSlot

    function State(): Snapshot
      reads this
    {
      Snapshot(streakCount, lastDate, lastCompletedDay, scores)
    }

    constructor (s: Snapshot)
      ensures State() == s
    {
      streakCount := s.streakCount;
      lastDate := s.lastDate;
      lastCompletedDay := s.lastCompletedDay;
      scores := s.scores;
    }

    /** saveScore(day, correct, total, pct) at time ts. */
    method SaveScore(day: int, correct: int, total: int, pct: int, ts: int)
      modifies this
      ensures State() == old(State()).(scores := WithScore(old(scores), day, ScoreRecord(correct, total, pct, ts)))
    {
      var m := ReadScores(scores);
      m := m[day := ScoreRecord(correct, total, pct, ts)];
      scores := Stored(m);
    }

    /** bumpStreak() at clock reading today. */
    method BumpStreak(today: Instant)
      requires ValidDate(today.date)
      modifies this
      ensures State() == Bump(old(State()), today)
    {
      ghost var count := BumpedCount(streakCount, lastDate, today);
      var todayStr := FmtDate(today.date);
      if lastDate.None? || lastDate.value == "" {
        streakCount := Some(1);
        lastDate := Some(todayStr);
        return;
      }
      var diff := DayDiff(lastDate.value, today);
      var c := streakCount.GetOr(0);
      if diff == Some(0) {
        // same day: the count stays
      } else if diff == Some(1) {
        c := c + 1;
        streakCount := Some(c);
      } else {
        // missed days, a clock set back, or an unreadable date
        streakCount := Some(1);
      }
      assert streakCount == count;
      lastDate := Some(todayStr);
    }

    /** localStorage.setItem(lastCompletedDay, String(day)). */
    method SetLastCompletedDay(day: int)
      modifies this
      ensures State() == old(State()).(lastCompletedDay := Some(day))
    {
      lastCompletedDay := Some(day);
    }

    /** The progress reset: every key removed. */
    method ResetProgress()
      modifies this
      ensures State() == Cleared
    {
      streakCount := None;
      lastDate := None;
      lastCompletedDay := None;
      scores := Missing;
    }

    /**
     * exportScoresCSV(): the meta row and the header, then a row per stored
     * day, taken in ascending order, joined as written by backslash and n.
     */
    method ExportCsv() returns (csv: string)
      ensures csv == CsvAsWritten(State())
    {
      var snap := State();
      var m := ReadScores(scores);
      var days := SortedDays(m.Keys);
      var data: seq<string> := [];
      var i := 0;
      while i < |days|
        invariant 0 <= i <= |days|
        invariant forall k :: 0 <= k < |days| ==> days[k] in m
        invariant data == DataRows(m, days[..i])
      {
        DataRowsAppend(m, days, i);
        data := data + [DataRow(days[i], m[days[i]])];
        i := i + 1;
      }
      assert days[..i] == days;
      var rows := Preamble(snap) + data;
      csv := Join(rows, "\\n");
    }
  }
}
