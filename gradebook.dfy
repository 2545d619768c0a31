/**
 * The gradebook of a lesson: an append-only log of graded answers, and the
 * summary shown at the end of the lesson (correct/total and a percentage
 * rounded half up, 0 for an empty log).
 */
module Gradebook {

  /** The kinds of answer the lesson records, one per kind of check button. */
  datatype Kind = Antonym | Synonym | Choice | Match | Pronunciation | Progress

  /** The kind string recordResult is called with. */
  function Tag(k: Kind): string {
    match k
    case Antonym => "antonym"
    case Synonym => "synonym"
    case Choice => "mc"
    case Match => "match"
    case Pronunciation => "pronunciation"
    case Progress => "progress"
  }

  /** Different kinds are logged under different strings. */
  lemma TagInjective(a: Kind, b: Kind)
    ensures Tag(a) == Tag(b) <==> a == b
  {}

  /** One gradebook entry, {kind, correct}. */
  datatype Outcome = Outcome(kind: Kind, correct: bool)

  /** What the summary shows: correct/total and the percentage. */
  datatype Summary = Summary(correct: nat, total: nat, pct: nat)

  /** gradebook.filter(x => x.correct), keeping the order of the log. */
  function CorrectEntries(g: seq<Outcome>): (r: seq<Outcome>)
    ensures |r| <= |g|
    ensures forall i :: 0 <= i < |r| ==> r[i].correct
    ensures forall o :: o in r <==> o in g && o.correct
    ensures |r| == |set i | 0 <= i < |g| && g[i].correct|
    decreases |g|
  {
    if g == [] then []
    else
      var front := g[..|g| - 1];
      var last := g[|g| - 1];
      assert g == front + [last];
      assert (set i | 0 <= i < |g| && g[i].correct) ==
        (set i | 0 <= i < |front| && front[i].correct) + (if last.correct then {|g| - 1} else {});
      if last.correct then CorrectEntries(front) + [last] else CorrectEntries(front)
  }

  /** Each entry appended to the log adds one to the correct count exactly when it is correct. */
  lemma CorrectEntriesAppend(g: seq<Outcome>, o: Outcome)
    ensures CorrectEntries(g + [o]) == CorrectEntries(g) + (if o.correct then [o] else [])
  {
    assert (g + [o])[..|g|] == g;
  }

  /** A log with every answer right keeps all of it; one with none right keeps nothing. */
  lemma {:induction false} CorrectEntriesAll(g: seq<Outcome>)
    ensures (forall i :: 0 <= i < |g| ==> g[i].correct) ==> CorrectEntries(g) == g
    ensures (forall i :: 0 <= i < |g| ==> !g[i].correct) ==> CorrectEntries(g) == []
    decreases |g|
  {
    if g != [] {
      var front := g[..|g| - 1];
      CorrectEntriesAll(front);
      assert g == front + [g[|g| - 1]];
      CorrectEntriesAppend(front, g[|g| - 1]);
    }
  }

  /**
   * Math.round(correct * 100 / total) for 0 <= correct, 0 < total, read as
   * exact rational arithmetic: the integer nearest to 100 * correct / total,
   * halves rounded up; 0 when total is 0.
   */
  function Percent(correct: nat, total: nat): (p: nat)
    ensures total == 0 ==> p == 0
    ensures total > 0 ==> 2 * total * p <= 200 * correct + total < 2 * total * (p + 1)
    ensures correct <= total ==> p <= 100
  {
    if total == 0 then 0
    else
      var n, t2 := 200 * correct + total, 2 * total;
      var p := n / t2;
      assert t2 * p <= n < t2 * (p + 1) by {
        assert n == t2 * p + n % t2;
        assert t2 * (p + 1) == t2 * p + t2;
      }
      assert correct <= total ==> p <= 100 by {
        if correct <= total {
          assert t2 * 101 == 202 * total;
          MulLtCancel(t2, p, 101);
        }
      }
      p
  }

  lemma MulLtCancel(t: int, x: int, y: int)
    requires t > 0 && t * x < t * y
    ensures x < y
  {
    assert t * y - t * x == t * (y - x);
  }

  /** The rounding is determined: only one integer lies within half a unit of 100 * correct / total in that way. */
  lemma PercentUnique(correct: nat, total: nat, p: int)
    requires total > 0
    requires 2 * total * p <= 200 * correct + total < 2 * total * (p + 1)
    ensures p == Percent(correct, total)
  {
    var q, t2 := Percent(correct, total), 2 * total;
    assert t2 * (q + 1) == t2 * q + t2 && t2 * (p + 1) == t2 * p + t2;
    MulLtCancel(t2, p, q + 1);
    MulLtCancel(t2, q, p + 1);
  }

  /** The worked cases: 2 of 3 is 67 %, 1 of 8 (12.5 %) rounds up to 13, all right is 100 %. */
  lemma PercentExamples()
    ensures Percent(2, 3) == 67 && Percent(1, 8) == 13 && Percent(5, 5) == 100 && Percent(0, 4) == 0
  {
    PercentUnique(2, 3, 67);
    PercentUnique(1, 8, 13);
    PercentUnique(5, 5, 100);
    PercentUnique(0, 4, 0);
  }

  /** showSummary's arithmetic: total is the log length, correct the number of right answers. */
  function Summarize(g: seq<Outcome>): (s: Summary)
    ensures s.total == |g| && s.correct <= s.total
    ensures s.correct == |set i | 0 <= i < |g| && g[i].correct|
    ensures s.pct <= 100 && (s.total == 0 ==> s.pct == 0)
    ensures s.total > 0 ==> 2 * s.total * s.pct <= 200 * s.correct + s.total < 2 * s.total * (s.pct + 1)
  {
    var correct := |CorrectEntries(g)|;
    Summary(correct, |g|, Percent(correct, |g|))
  }

  /** A log of right answers only scores 100 %. */
  lemma SummaryAllCorrect(g: seq<Outcome>)
    requires g != [] && forall i :: 0 <= i < |g| ==> g[i].correct
    ensures Summarize(g) == Summary(|g|, |g|, 100)
  {
    CorrectEntriesAll(g);
    PercentUnique(|g|, |g|, 100);
  }

  /** A log without a right answer scores 0 %; in particular the empty log gives 0/0 and 0 %. */
  lemma SummaryNoneCorrect(g: seq<Outcome>)
    requires forall i :: 0 <= i < |g| ==> !g[i].correct
    ensures Summarize(g) == Summary(0, |g|, 0)
  {
    CorrectEntriesAll(g);
    if g != [] {
      PercentUnique(0, |g|, 0);
    }
  }
}
