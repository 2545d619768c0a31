/**
 * The lesson being worked through: which day was asked for, the loaded
 * lesson, the index of the activity on screen and the gradebook of answers
 * checked so far; the Start, Prev and Next buttons, the Check buttons, and
 * the summary that folds the gradebook into the device's progress.
 */
module LessonSession {
  import opened Wrappers
  import opened Text
  import opened Calendar
  import opened Gradebook
  import opened Grading
  import opened Progress

  /** The lesson shown when data/day<d>.json cannot be fetched or read. */
  function Placeholder(day: int): (l: Lesson)
    ensures l.day == day && l.activities == []
    ensures l.title == "Day " + IntToString(day)
  {
    Lesson(day, "Day " + IntToString(day), "Lesson content coming soon.", [])
  }

  /** loadLesson's outcome: the fetched lesson, or the placeholder for the day asked for. */
  function Loaded(day: int, fetched: Option<Lesson>): (l: Lesson)
    ensures fetched.Some? ==> l == fetched.value
    ensures fetched.None? ==> l.day == day && l.activities == []
  {
    if fetched.Some? then fetched.value else Placeholder(day)
  }

  /** lesson.activities[idx], undefined (None) past either end: "No activities for this day yet." */
  function ActivityAt(l: Lesson, idx: int): (a: Option<Activity>)
    ensures a.Some? <==> 0 <= idx < |l.activities|
    ensures a.Some? ==> a.value == l.activities[idx]
  {
    if 0 <= idx < |l.activities| then Some(l.activities[idx]) else None
  }

  /** The index Next moves to, or None when Next shows the summary instead. */
  function NextIndex(l: Lesson, idx: int): (r: Option<int>)
    ensures r.Some? <==> idx < |l.activities| - 1
    ensures r.Some? ==> r.value == idx + 1
  {
    if idx < |l.activities| - 1 then Some(idx + 1) else None
  }

  /** The index Prev moves to: one back, never below 0. */
  function PrevIndex(idx: int): (r: int)
    ensures idx > 0 ==> r == idx - 1
    ensures idx <= 0 ==> r == idx
  {
    if idx > 0 then idx - 1 else idx
  }

  /** An index inside the activity list, or 0 for a lesson without activities. */
  predicate InRange(l: Lesson, idx: int) {
    0 <= idx && (idx < |l.activities| || idx == 0)
  }

  /** Prev and Next keep the index inside the list; Next leaves it where it is when it shows the summary. */
  lemma NavigationStaysInRange(l: Lesson, idx: int)
    requires InRange(l, idx)
    ensures InRange(l, PrevIndex(idx))
    ensures NextIndex(l, idx).Some? ==> InRange(l, NextIndex(l, idx).value)
    ensures NextIndex(l, idx).None? ==> idx == |l.activities| - 1 || |l.activities| == 0
  {}

  /** Next from the first activity reaches the last after n - 1 clicks, and the n-th click shows the summary. */
  lemma {:induction false} NextWalk(l: Lesson, idx: int, k: nat)
    requires 0 <= idx && idx + k < |l.activities|
    ensures Walk(l, idx, k) == Some(idx + k)
    ensures idx + k == |l.activities| - 1 ==> NextIndex(l, idx + k).None?
    decreases k
  {
    if k > 0 {
      NextWalk(l, idx, k - 1);
    }
  }

  /** Where k clicks on Next lead from idx, None once the summary has been reached. */
  function Walk(l: Lesson, idx: int, k: nat): Option<int>
    decreases k
  {
    if k == 0 then Some(idx)
    else
      var prev := Walk(l, idx, k - 1);
      if prev.None? then None else NextIndex(l, prev.value)
  }

  /** Going forward then back returns to the same activity. */
  lemma NextThenPrev(l: Lesson, idx: int)
    requires 0 <= idx && NextIndex(l, idx).Some?
    ensures PrevIndex(NextIndex(l, idx).value) == idx
  {}

  /** The placeholder has no activities: Next at once folds an empty gradebook, 0/0 and 0 %. */
  lemma PlaceholderGoesToSummary(day: int)
    ensures ActivityAt(Placeholder(day), 0).None?
    ensures NextIndex(Placeholder(day), 0).None?
    ensures Summarize([]) == Summary(0, 0, 0)
  {
    SummaryNoneCorrect([]);
  }

  /** The state of one page: the globals currentDay, lesson, activityIndex and gradebook. */
  class Session {
    var currentDay: int
    var lesson: Option<Lesson>
    var activityIndex: int
    var gradebook: seq<Outcome>

    /** Before the first lesson the index is 0; afterwards it is inside the lesson's list. */
    predicate Valid()
      reads this
    {
      if lesson.None? then activityIndex == 0 else InRange(lesson.value, activityIndex)
    }

    /** The page as loaded: day 1, no lesson, index 0, an empty gradebook. */
    constructor ()
      ensures Valid()
      ensures currentDay == 1 && lesson.None? && activityIndex == 0 && gradebook == []
    {
      currentDay := 1;
      lesson := None;
      activityIndex := 0;
      gradebook := [];
    }

    /** loadLesson(day) with the fetch's outcome: a new lesson, an empty gradebook, index 0. */
    method LoadLesson(day: int, fetched: Option<Lesson>)
      modifies this
      ensures Valid()
      ensures lesson == Some(Loaded(day, fetched))
      ensures gradebook == [] && activityIndex == 0 && currentDay == old(currentDay)
    {
      if fetched.Some? {
        lesson := fetched;
      } else {
        lesson := Some(Placeholder(day));
      }
      gradebook := [];
      activityIndex := 0;
    }

    /** showActivity(idx): the index moves to idx and the activity there, if any, is shown. */
    method ShowActivity(idx: int) returns (shown: Option<Activity>)
      requires lesson.Some?
      modifies this
      ensures lesson == old(lesson) && gradebook == old(gradebook) && currentDay == old(currentDay)
      ensures activityIndex == idx
      ensures shown == ActivityAt(lesson.value, idx)
    {
      activityIndex := idx;
      if 0 <= idx < |lesson.value.activities| {
        shown := Some(lesson.value.activities[idx]);
      } else {
        shown := None;
      }
    }

    /** The Start button: the chosen day's lesson is loaded and its first activity shown. */
    method Start(day: int, fetched: Option<Lesson>) returns (shown: Option<Activity>)
      modifies this
      ensures Valid()
      ensures currentDay == day && lesson == Some(Loaded(day, fetched))
      ensures gradebook == [] && activityIndex == 0
      ensures shown == ActivityAt(Loaded(day, fetched), 0)
    {
      currentDay := day;
      LoadLesson(day, fetched);
      shown := ShowActivity(0);
    }

    /** The Prev button: back one activity unless at the first. */
    method Prev() returns (shown: Option<Activity>)
      requires Valid()
      modifies this
      ensures Valid()
      ensures activityIndex == PrevIndex(old(activityIndex))
      ensures lesson == old(lesson) && gradebook == old(gradebook) && currentDay == old(currentDay)
      ensures old(activityIndex) > 0 ==> lesson.Some? && shown == ActivityAt(lesson.value, activityIndex)
    {
      shown := None;
      if activityIndex > 0 {
        shown := ShowActivity(activityIndex - 1);
      }
    }

    /** recordResult(kind, correct): one entry appended to the gradebook, nothing else changes. */
    method RecordResult(kind: Kind, correct: bool)
      modifies this
      ensures gradebook == old(gradebook) + [Outcome(kind, correct)]
      ensures lesson == old(lesson) && activityIndex == old(activityIndex) && currentDay == old(currentDay)
    {
      gradebook := gradebook + [Outcome(kind, correct)];
    }

    /**
     * A click on a Check button, or the recogniser's callback: the answer is
     * graded and logged once, except that an empty transcript logs nothing
     * and a synonym question without reference answers throws before logging.
     */
    method Check(c: Check) returns (graded: Option<Outcome>)
      modifies this
      ensures graded == GradeAsWritten(c)
      ensures gradebook == old(gradebook) + (if graded.Some? then [graded.value] else [])
      ensures lesson == old(lesson) && activityIndex == old(activityIndex) && currentDay == old(currentDay)
    {
      match c {
        case SynonymCheck(q, response) =>
          var score := SynonymScore(q.answers.GetOr([]), ResponseSet(response));
          var ok := score >= 2;
          if !ok && q.answers.None? {
            // the "e.g." hint reads q.answers.slice of a missing list and throws
            graded := None;
          } else {
            graded := Some(Outcome(Synonym, ok));
          }
        case ListenCheck(item, transcript) =>
          if transcript == "" {
            graded := None;
          } else {
            graded := Some(Outcome(Pronunciation, HeardCorrect(transcript, item.word)));
          }
        case _ =>
          graded := GradeAsWritten(c);
      }
      if graded.Some? {
        RecordResult(graded.value.kind, graded.value.correct);
      }
    }

    /**
     * showSummary at clock reading today and time ts: the score of the
     * gradebook is shown, saved under the lesson's day, the streak bumped and
     * the day stored as the last completed one.
     */
    method ShowSummary(store: LocalStore, today: Instant, ts: int) returns (summary: Summary)
      requires lesson.Some? && ValidDate(today.date)
      modifies store
      ensures summary == Summarize(gradebook)
      ensures store.State() == Complete(old(store.State()), lesson.value.day, summary.correct, summary.total, summary.pct, today, ts)
    {
      summary := Summarize(gradebook);
      var day := lesson.value.day;
      store.SaveScore(day, summary.correct, summary.total, summary.pct, ts);
      store.BumpStreak(today);
      store.SetLastCompletedDay(day);
    }

    /**
     * The Next button: forward one activity, or the summary from the last
     * one (at once for a lesson without activities). Before any lesson is
     * loaded the handler stops at the missing lesson and nothing happens.
     */
    method Next(store: LocalStore, today: Instant, ts: int) returns (shown: Option<Activity>, summary: Option<Summary>)
      requires Valid() && ValidDate(today.date)
      modifies this, store
      ensures Valid()
      ensures lesson == old(lesson) && gradebook == old(gradebook) && currentDay == old(currentDay)
      ensures old(lesson).None? ==> summary.None? && activityIndex == old(activityIndex) && store.State() == old(store.State())
      ensures old(lesson).Some? && NextIndex(lesson.value, old(activityIndex)).Some? ==>
        activityIndex == old(activityIndex) + 1 && shown == ActivityAt(lesson.value, activityIndex) &&
        summary.None? && store.State() == old(store.State())
      ensures old(lesson).Some? && NextIndex(lesson.value, old(activityIndex)).None? ==>
        activityIndex == old(activityIndex) && summary == Some(Summarize(gradebook)) &&
        store.State() == Complete(old(store.State()), lesson.value.day, summary.value.correct, summary.value.total, summary.value.pct, today, ts)
    {
      shown, summary := None, None;
      if lesson.None? {
        return;
      }
      if activityIndex < |lesson.value.activities| - 1 {
        shown := ShowActivity(activityIndex + 1);
      } else {
        var s := ShowSummary(store, today, ts);
        summary := Some(s);
      }
    }
  }
}
