/**
 * Lesson content and the answer rules behind each Check button: antonyms,
 * synonyms, multiple choice, match pairs, the progress quiz and spoken
 * pronunciation. A click on a Check button is a value of type Check; Grade
 * says which outcome, if any, that click logs.
 */
module Grading {
  import opened Wrappers
  import opened Text
  import opened Gradebook

  // ---------------------------------------------------------------- lesson content

  datatype AntonymQuestion = AntonymQuestion(prompt: string, answer: string)

  /** A synonym question; its list of reference answers may be missing from the lesson file. */
  datatype SynonymQuestion = SynonymQuestion(prompt: string, answers: Option<seq<string>>)

  datatype ChoiceQuestion = ChoiceQuestion(prompt: string, options: seq<string>, answer: string)

  datatype RootPair = RootPair(root: string, meaning: string, examples: seq<string>)

  datatype PronunciationItem = PronunciationItem(word: string, say: Option<string>, sentence: Option<string>)

  datatype MatchPair = MatchPair(left: string, right: string)

  /** One activity of a lesson, by its type string; lists the lesson may omit are options. */
  datatype Activity =
    | AntonymTest(antonyms: seq<AntonymQuestion>)
    | SynonymTest(synonyms: seq<SynonymQuestion>)
    | MultipleChoice(choices: seq<ChoiceQuestion>)
    | RootsMatch(roots: seq<RootPair>)
    | PronunciationPractice(items: Option<seq<PronunciationItem>>)
    | MatchPairs(pairs: Option<seq<MatchPair>>)
    | ProgressQuiz(review: seq<ChoiceQuestion>)
    | Other(typeName: string)

  datatype Lesson = Lesson(day: int, title: string, intro: string, activities: seq<Activity>)

  /** The activity's type field. */
  function TypeName(a: Activity): string {
    match a
    case AntonymTest(_) => "antonym_test"
    case SynonymTest(_) => "synonym_test"
    case MultipleChoice(_) => "multiple_choice"
    case RootsMatch(_) => "roots_match"
    case PronunciationPractice(_) => "pronunciation"
    case MatchPairs(_) => "match_pairs"
    case ProgressQuiz(_) => "progress_quiz"
    case Other(t) => t
  }

  /** The heading of the activity shown at index idx: "1. Antonym Test" and so on. */
  function Heading(a: Activity, idx: nat): string {
    NatToString(idx + 1) + ". " + ToTitle(TypeName(a))
  }

  lemma TitleExample()
    ensures ToTitle("antonym_test") == "Antonym Test"
  {
    assert UnderscoresToSpaces("antonym_test") == "antonym test";
  }

  lemma HeadingExample()
    ensures Heading(AntonymTest([]), 0) == "1. Antonym Test"
  {
    TitleExample();
    assert NatToString(1) == "1";
  }

  // ---------------------------------------------------------------- single-answer rules

  /** Antonym: the trimmed input equals the answer, letter case aside. */
  predicate AntonymCorrect(input: string, answer: string) {
    Lower(Trim(input)) == Lower(answer)
  }

  /**
   * Spaces typed around the response do not matter and neither does letter
   * case; the response itself must match the answer exactly otherwise.
   */
  lemma AntonymByCore(w1: string, core: string, w2: string, answer: string)
    requires AllSpace(w1) && AllSpace(w2) && Unpadded(core)
    ensures AntonymCorrect(w1 + core + w2, answer) <==> Lower(core) == Lower(answer)
    ensures AntonymCorrect(w1 + core + w2, Upper(answer)) <==> AntonymCorrect(w1 + core + w2, answer)
  {
    TrimExact(w1, core, w2);
    LowerForgetsCase(answer);
  }

  /** Multiple choice and the progress quiz: some option is selected and it is the answer. */
  predicate ChoiceCorrect(selected: Option<string>, answer: string) {
    selected.Some? && selected.value == answer
  }

  /** No selection is wrong; a selection is right exactly when it is the answer. */
  lemma ChoiceRule(selected: Option<string>, answer: string)
    ensures !ChoiceCorrect(None, answer)
    ensures ChoiceCorrect(selected, answer) <==> selected == Some(answer)
  {}

  /** Match pairs: the dropdown's value is not the empty placeholder and it is the pair's right side. */
  predicate MatchCorrect(selection: string, right: string) {
    selection != "" && selection == right
  }

  /** A pair whose right side is empty can never be matched; otherwise the exact right side is needed. */
  lemma MatchRule(selection: string, right: string)
    ensures MatchCorrect(selection, right) <==> right != "" && selection == right
    ensures !MatchCorrect("", right)
  {}

  /** Pronunciation: the trimmed, lower-cased transcript contains the lower-cased word. */
  predicate HeardCorrect(transcript: string, word: string) {
    Includes(Lower(Trim(transcript)), Lower(word))
  }

  /** The word is heard exactly when it occurs somewhere in the normalised transcript. */
  lemma HeardIff(transcript: string, word: string)
    ensures HeardCorrect(transcript, word) <==> exists i :: OccursAt(Lower(Trim(transcript)), Lower(word), i)
  {
    IncludesIff(Lower(Trim(transcript)), Lower(word));
  }

  /** Saying the word on its own, in any letter case and with any surrounding spaces, is heard right. */
  lemma HeardExactWord(w1: string, word: string, w2: string)
    requires AllSpace(w1) && AllSpace(w2) && Unpadded(word)
    ensures HeardCorrect(w1 + Upper(word) + w2, word) && HeardCorrect(w1 + word + w2, word)
  {
    UpperUnpadded(word);
    TrimExact(w1, Upper(word), w2);
    TrimExact(w1, word, w2);
    LowerForgetsCase(word);
    var lw := Lower(word);
    assert OccursAt(lw, lw, 0) by {
      assert lw[0..|lw|] == lw;
    }
    IncludesIff(lw, lw);
  }

  lemma UpperUnpadded(s: string)
    requires Unpadded(s)
    ensures Unpadded(Upper(s))
  {}

  // ---------------------------------------------------------------- synonyms

  /** The parts of a response: split on ',', trimmed, lower-cased, empty parts dropped, in order. */
  function NormalizeParts(ps: seq<string>): (r: seq<string>)
    ensures forall k :: 0 <= k < |r| ==> r[k] != ""
    ensures forall x :: x in r <==> x != "" && exists k :: 0 <= k < |ps| && Lower(Trim(ps[k])) == x
    decreases |ps|
  {
    if ps == [] then []
    else
      var x := Lower(Trim(ps[0]));
      var rest := NormalizeParts(ps[1..]);
      assert forall k :: 1 <= k < |ps| ==> ps[1..][k - 1] == ps[k];
      (if x != "" then [x] else []) + rest
  }

  /** new Set(parts) for the response typed into a synonym question. */
  function ResponseSet(response: string): (r: set<string>)
    ensures forall x :: x in r <==> x != "" && exists k :: 0 <= k < |Split(response, ',')| && Lower(Trim(Split(response, ',')[k])) == x
  {
    set x | x in NormalizeParts(Split(response, ','))
  }

  /** How many reference answers, lower-cased, are in the response set; repeated references count again. */
  function MatchCount(refs: seq<string>, response: set<string>): (n: nat)
    ensures n <= |refs|
    decreases |refs|
  {
    if refs == [] then 0
    else MatchCount(refs[..|refs| - 1], response) + (if Lower(refs[|refs| - 1]) in response then 1 else 0)
  }

  /** The synonym handler's loop: score++ for every reference answer the response contains. */
  method SynonymScore(refs: seq<string>, response: set<string>) returns (score: nat)
    ensures score == MatchCount(refs, response) && score <= |refs|
  {
    score := 0;
    var i := 0;
    while i < |refs|
      invariant 0 <= i <= |refs|
      invariant score == MatchCount(refs[..i], response)
    {
      if Lower(refs[i]) in response {
        score := score + 1;
      }
      assert refs[..i + 1][..i] == refs[..i];
      i := i + 1;
    }
    assert refs[..|refs|] == refs;
  }

  predicate Hit(refs: seq<string>, response: set<string>, i: int)
    requires 0 <= i < |refs|
  {
    Lower(refs[i]) in response
  }

  /**
   * At least one, and at least two, reference answers are found exactly when
   * one, respectively two different positions of the reference list hit.
   */
  lemma {:induction false} MatchCountHits(refs: seq<string>, response: set<string>)
    ensures MatchCount(refs, response) >= 1 <==> exists i :: 0 <= i < |refs| && Hit(refs, response, i)
    ensures MatchCount(refs, response) >= 2 <==>
      exists i, j :: 0 <= i < j < |refs| && Hit(refs, response, i) && Hit(refs, response, j)
    decreases |refs|
  {
    if refs != [] {
      var n := |refs|;
      var front := refs[..n - 1];
      MatchCountHits(front, response);
      assert forall i :: 0 <= i < n - 1 ==> Hit(front, response, i) == Hit(refs, response, i);
      if MatchCount(refs, response) >= 1 && !Hit(refs, response, n - 1) {
        var i :| 0 <= i < n - 1 && Hit(front, response, i);
        assert Hit(refs, response, i);
      }
      if MatchCount(refs, response) >= 2 {
        if MatchCount(front, response) >= 2 {
          var i, j :| 0 <= i < j < n - 1 && Hit(front, response, i) && Hit(front, response, j);
          assert Hit(refs, response, i) && Hit(refs, response, j);
        } else {
          var i :| 0 <= i < n - 1 && Hit(front, response, i);
          assert Hit(refs, response, i) && Hit(refs, response, n - 1);
        }
      }
      if exists i, j :: 0 <= i < j < n && Hit(refs, response, i) && Hit(refs, response, j) {
        var i, j :| 0 <= i < j < n && Hit(refs, response, i) && Hit(refs, response, j);
        if j < n - 1 {
          assert Hit(front, response, i) && Hit(front, response, j);
        } else {
          assert Hit(front, response, i);
        }
      }
    }
  }

  /** Synonym: at least two of the reference answers are in the response. */
  predicate SynonymCorrect(refs: seq<string>, response: string) {
    MatchCount(refs, ResponseSet(response)) >= 2
  }

  /** A word as the learner might type it: non-empty, lower case, no comma, no surrounding spaces. */
  predicate Plain(w: string) {
    w != "" && ',' !in w && Unpadded(w) && Lower(w) == w
  }

  /** A plain word is its own normal form. */
  lemma PlainWord(w: string)
    requires Plain(w)
    ensures Lower(Trim(w)) == w
  {
    assert "" + w + "" == w;
    TrimExact("", w, "");
  }

  /** "x,y" gives the response set {x, y}. */
  lemma ResponseOfTwo(x: string, y: string)
    requires Plain(x) && Plain(y)
    ensures ResponseSet(x + [','] + y) == {x, y}
  {
    SplitFirst(x, ',', y);
    SplitWhole(y, ',');
    var parts := Split(x + [','] + y, ',');
    assert parts == [x, y];
    PlainWord(x);
    PlainWord(y);
    assert Lower(Trim(parts[0])) == x && Lower(Trim(parts[1])) == y;
  }

  /** "x," gives {x}: the empty part after the comma is dropped. */
  lemma ResponseOfOne(x: string)
    requires Plain(x)
    ensures ResponseSet(x + [',']) == {x}
  {
    assert x + [','] == x + [','] + "";
    SplitFirst(x, ',', "");
    SplitWhole("", ',');
    var parts := Split(x + [','], ',');
    assert parts == [x, ""];
    PlainWord(x);
    assert Lower(Trim(parts[0])) == x;
    assert Trim("") == "";
  }

  /** The score over three reference answers, one term per answer. */
  lemma MatchCountThree(a: string, b: string, c: string, response: set<string>)
    ensures MatchCount([a, b, c], response) ==
      (if Lower(a) in response then 1 else 0) + (if Lower(b) in response then 1 else 0) + (if Lower(c) in response then 1 else 0)
  {
    assert [a, b, c][..2] == [a, b];
    assert [a, b][..1] == [a];
    assert [a][..0] == [];
    assert MatchCount([a], response) == (if Lower(a) in response then 1 else 0);
    assert MatchCount([a, b], response) == MatchCount([a], response) + (if Lower(b) in response then 1 else 0);
  }

  /** Two of three different reference answers typed as "b,c" are right. */
  lemma SynonymTwoOfThree(a: string, b: string, c: string)
    requires Plain(b) && Plain(c)
    ensures SynonymCorrect([a, b, c], b + [','] + c)
  {
    ResponseOfTwo(b, c);
    MatchCountThree(a, b, c, {b, c});
  }

  /** One reference answer and a trailing comma, "a,", is wrong when the other two differ from it. */
  lemma SynonymOneOfThree(a: string, b: string, c: string)
    requires Plain(a) && Lower(b) != a && Lower(c) != a
    ensures !SynonymCorrect([a, b, c], a + [','])
  {
    ResponseOfOne(a);
    MatchCountThree(a, b, c, {a});
  }

  /** A reference answer listed twice counts twice, so one typed word can be enough. */
  lemma SynonymRepeatedReference(x: string, y: string)
    requires Plain(x) && Lower(y) == x
    ensures SynonymCorrect([x, y], x)
  {
    assert x == x + "";
    SplitWhole(x, ',');
    PlainWord(x);
    var r := ResponseSet(x);
    assert Lower(Trim(Split(x, ',')[0])) == x;
    assert Hit([x, y], r, 0) && Hit([x, y], r, 1);
    MatchCountHits([x, y], r);
  }

  // ---------------------------------------------------------------- one click on Check

  /**
   * The click on a Check button: the question and what the learner gave.
   * A radio group may have no selection; a dropdown's placeholder has the
   * value ""; the speech recogniser hands back a transcript, "" when it heard
   * nothing or failed.
   */
  datatype Check =
    | AntonymCheck(antonym: AntonymQuestion, input: string)
    | SynonymCheck(synonym: SynonymQuestion, response: string)
    | ChoiceCheck(choice: ChoiceQuestion, selected: Option<string>)
    | ReviewCheck(quiz: ChoiceQuestion, picked: Option<string>)
    | MatchCheck(pair: MatchPair, selection: string)
    | ListenCheck(item: PronunciationItem, transcript: string)

  /** The kind under which a check is logged. */
  function CheckKind(c: Check): Kind {
    match c
    case AntonymCheck(_, _) => Antonym
    case SynonymCheck(_, _) => Synonym
    case ChoiceCheck(_, _) => Choice
    case ReviewCheck(_, _) => Progress
    case MatchCheck(_, _) => Match
    case ListenCheck(_, _) => Pronunciation
  }

  /**
   * What a check logs, if anything: exactly one outcome, of the check's kind,
   * except that an empty transcript logs nothing. A synonym question without
   * reference answers is graded against the empty list.
   */
  function Grade(c: Check): (r: Option<Outcome>)
    ensures r.None? <==> c.ListenCheck? && c.transcript == ""
    ensures r.Some? ==> r.value.kind == CheckKind(c)
    ensures c.SynonymCheck? && c.synonym.answers.None? ==> r == Some(Outcome(Synonym, false))
  {
    match c
    case AntonymCheck(q, input) => Some(Outcome(Antonym, AntonymCorrect(input, q.answer)))
    case SynonymCheck(q, response) => Some(Outcome(Synonym, SynonymCorrect(q.answers.GetOr([]), response)))
    case ChoiceCheck(q, selected) => Some(Outcome(Choice, ChoiceCorrect(selected, q.answer)))
    case ReviewCheck(q, picked) => Some(Outcome(Progress, ChoiceCorrect(picked, q.answer)))
    case MatchCheck(pair, selection) => Some(Outcome(Match, MatchCorrect(selection, pair.right)))
    case ListenCheck(item, transcript) =>
      if transcript == "" then None else Some(Outcome(Pronunciation, HeardCorrect(transcript, item.word)))
  }

  /**
   * The synonym handler as written: with the reference list missing the score
   * is 0, and building the "e.g." hint then reads q.answers.slice of a
   * missing list, which throws before the outcome is recorded.
   */
  function SynonymGradeAsWritten(q: SynonymQuestion, response: string): (r: Option<Outcome>)
    ensures q.answers.Some? ==> r == Grade(SynonymCheck(q, response))
  {
    var ok := SynonymCorrect(q.answers.GetOr([]), response);
    if !ok && q.answers.None? then None else Some(Outcome(Synonym, ok))
  }

  /**
   * What one click logs as the handlers are written: the corrected outcome,
   * except that a synonym question without reference answers throws and logs
   * nothing.
   */
  function GradeAsWritten(c: Check): (r: Option<Outcome>)
    ensures r.None? <==> (c.ListenCheck? && c.transcript == "") || (c.SynonymCheck? && c.synonym.answers.None?)
    ensures r.Some? ==> r == Grade(c)
  {
    if c.SynonymCheck? then SynonymGradeAsWritten(c.synonym, c.response) else Grade(c)
  }

  /** A question without reference answers: the handler as written logs nothing, the corrected one a wrong answer. */
  lemma SynonymMissingAnswers(response: string)
    ensures SynonymGradeAsWritten(SynonymQuestion("big", None), response) == None
    ensures GradeAsWritten(SynonymCheck(SynonymQuestion("big", None), response)) == None
    ensures Grade(SynonymCheck(SynonymQuestion("big", None), response)) == Some(Outcome(Synonym, false))
  {}

  // ---------------------------------------------------------------- which checks an activity offers

  /** The kind of outcome an activity's checks log; roots_match and unknown types have no checks. */
  function ActivityKind(a: Activity): Option<Kind> {
    match a
    case AntonymTest(_) => Some(Antonym)
    case SynonymTest(_) => Some(Synonym)
    case MultipleChoice(_) => Some(Choice)
    case RootsMatch(_) => None
    case PronunciationPractice(_) => Some(Pronunciation)
    case MatchPairs(_) => Some(Match)
    case ProgressQuiz(_) => Some(Progress)
    case Other(_) => None
  }

  /** The right sides of the pairs: the dropdown's options, in some shuffled order. */
  function Rights(pairs: seq<MatchPair>): (r: seq<string>)
    ensures |r| == |pairs|
    ensures forall p :: p in pairs ==> p.right in r
    ensures forall x :: x in r ==> exists p :: p in pairs && p.right == x
  {
    var r := seq(|pairs|, k requires 0 <= k < |pairs| => pairs[k].right);
    assert forall k :: 0 <= k < |pairs| ==> r[k] == pairs[k].right && r[k] in r;
    r
  }

  /** c is a click the rendered activity a can produce. */
  predicate Offers(a: Activity, c: Check) {
    match a
    case AntonymTest(qs) => c.AntonymCheck? && c.antonym in qs
    case SynonymTest(qs) => c.SynonymCheck? && c.synonym in qs
    case MultipleChoice(qs) =>
      c.ChoiceCheck? && c.choice in qs && (c.selected.None? || c.selected.value in c.choice.options)
    case RootsMatch(_) => false
    case PronunciationPractice(items) => c.ListenCheck? && c.item in items.GetOr([])
    case MatchPairs(pairs) =>
      c.MatchCheck? && c.pair in pairs.GetOr([]) && (c.selection == "" || c.selection in Rights(pairs.GetOr([])))
    case ProgressQuiz(qs) => c.ReviewCheck? && c.quiz in qs && (c.picked.None? || c.picked.value in c.quiz.options)
    case Other(_) => false
  }

  /** Every check an activity offers logs, when it logs, an outcome of that activity's kind. */
  lemma OffersKind(a: Activity, c: Check)
    requires Offers(a, c)
    ensures ActivityKind(a) == Some(CheckKind(c))
    ensures Grade(c).Some? ==> Some(Grade(c).value.kind) == ActivityKind(a)
  {}

  /** roots_match only shows the roots and a tip: nothing in it can be checked or logged. */
  lemma RootsMatchOffersNothing(roots: seq<RootPair>, c: Check)
    ensures !Offers(RootsMatch(roots), c) && ActivityKind(RootsMatch(roots)) == None
  {}
}
