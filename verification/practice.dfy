/**
 * The single-player practice page: generate a set of questions for a
 * topic, answer them one by one, see the score. The option the player
 * picks is held as its label 'A'..'D'.
 *
 * Each submit schedules a delayed step (move to the next question, or
 * show the result). The delay is modelled as a `Pending` value that
 * `Fire` applies later; the step was fixed when it was scheduled.
 */
module Practice {
  import opened Common

  /** A generated question; it has no id. */
  datatype PracticeQuestion = PracticeQuestion(
    text: string,
    optionA: string,
    optionB: string,
    optionC: string,
    optionD: string,
    correctAnswer: string)

  /** The page state. `difficulty` and `questionCount` are the two choices
      sent to the generator with the topic, held as the select boxes'
      strings. */
  datatype PState = PState(
    topic: string,
    difficulty: string,
    questionCount: string,
    questions: seq<PracticeQuestion>,
    index: nat,
    selected: string,
    showResult: bool,
    score: nat,
    answered: seq<bool>)

  /** The delayed step a submit schedules. */
  datatype Pending = AdvanceTo(next: nat) | RevealResult | NoStep

  /** The outcome of asking the quiz generator. */
  datatype Generation = GenerationFailed | GenerationReturned(questions: seq<PracticeQuestion>)

  /** The page's first state. */
  const InitialPractice := PState("", "medium", "10", [], 0, "", false, 0, [])

  /** `flags[i] = true` on a JavaScript array: past the end the array grows,
      the new holes reading as false. */
  function SetFlag(flags: seq<bool>, i: nat): (out: seq<bool>)
    ensures |out| == if i < |flags| then |flags| else i + 1
    ensures out[i]
    ensures forall k :: 0 <= k < |out| && k != i ==> out[k] == (k < |flags| && flags[k])
  {
    if i < |flags| then flags[i := true]
    else flags + seq(i - |flags|, _ => false) + [true]
  }

  /** The number of set flags: `answeredQuestions.filter(Boolean).length`. */
  function CountSet(flags: seq<bool>): (n: nat)
    ensures n <= |flags|
  {
    if |flags| == 0 then 0 else (if flags[0] then 1 else 0) + CountSet(flags[1..])
  }

  /** `handleGenerate`: nothing happens for a blank topic. Otherwise the
      questions, index, score, flags and result screen are reset, and a
      non-empty set of generated questions is taken over with one unset
      flag per question. The selection, the topic and the two generator
      choices are kept. */
  function Generate(s: PState, g: Generation): (t: PState)
    ensures IsBlank(s.topic) ==> t == s
    ensures !IsBlank(s.topic) ==>
      && t.index == 0 && t.score == 0 && !t.showResult
      && t.topic == s.topic && t.selected == s.selected
      && t.difficulty == s.difficulty && t.questionCount == s.questionCount
      && (g.GenerationReturned? && |g.questions| > 0 ==>
            t.questions == g.questions && |t.answered| == |t.questions| && CountSet(t.answered) == 0)
      && (g.GenerationFailed? || |g.questions| == 0 ==> t.questions == [] && t.answered == [])
  {
    TrimEmptyIffBlank(s.topic);
    if Trim(s.topic) == "" then s
    else
      var reset := s.(questions := [], index := 0, score := 0, answered := [], showResult := false);
      if g.GenerationReturned? && |g.questions| > 0 then
        var flags := seq(|g.questions|, _ => false);
        NoneSet(flags);
        reset.(questions := g.questions, answered := flags)
      else reset
  }

  lemma {:induction false} NoneSet(flags: seq<bool>)
    requires forall k :: 0 <= k < |flags| ==> !flags[k]
    ensures CountSet(flags) == 0
  {
    if |flags| > 0 {
      NoneSet(flags[1..]);
    }
  }

  /** `handleSubmitAnswer`, for a position in the question list (the page
      shows the submit button only with a question on screen). Without a
      selection nothing happens. Otherwise the score goes up by one exactly
      when the selected label is the answer key, the current question's
      flag is set and no other flag changes, the selection is cleared, and
      the delayed step moves to the next question or, on the last one,
      shows the result. */
  function Submit(s: PState): (r: (PState, Pending))
    requires s.index < |s.questions|
    ensures s.selected == "" ==> r == (s, NoStep)
    ensures s.selected != "" ==>
      var (t, p) := r;
      && t.score == (if s.selected == s.questions[s.index].correctAnswer then s.score + 1 else s.score)
      && t.answered == SetFlag(s.answered, s.index)
      && t.selected == ""
      && t.questions == s.questions && t.index == s.index && t.showResult == s.showResult && t.topic == s.topic
      && t.difficulty == s.difficulty && t.questionCount == s.questionCount
      && (s.index < |s.questions| - 1 ==> p == AdvanceTo(s.index + 1))
      && (s.index == |s.questions| - 1 ==> p == RevealResult)
  {
    if s.selected == "" then (s, NoStep)
    else
      var q := s.questions[s.index];
      var score := if s.selected == q.correctAnswer then s.score + 1 else s.score;
      var t := s.(score := score, answered := SetFlag(s.answered, s.index), selected := "");
      (t, if s.index < |s.questions| - 1 then AdvanceTo(s.index + 1) else RevealResult)
  }

  /** The delayed step runs. */
  function Fire(s: PState, p: Pending): (t: PState)
    ensures p.AdvanceTo? ==> t == s.(index := p.next)
    ensures p.RevealResult? ==> t == s.(showResult := true)
    ensures p.NoStep? ==> t == s
  {
    match p
    case AdvanceTo(k) => s.(index := k)
    case RevealResult => s.(showResult := true)
    case NoStep => s
  }

  /** `handleRestart`: the game and the topic are cleared; the difficulty
      and question count the player chose stay selected. */
  function Restart(s: PState): (t: PState)
    ensures t.questions == [] && t.index == 0 && t.score == 0 && t.answered == []
    ensures !t.showResult && t.selected == "" && t.topic == ""
    ensures t.difficulty == s.difficulty && t.questionCount == s.questionCount
  {
    InitialPractice.(difficulty := s.difficulty, questionCount := s.questionCount)
  }

  /** Restarting forgets everything but the two generator choices: states
      that agree on them restart alike, whatever game they were in; the
      first state restarts to itself; and a second restart changes
      nothing. */
  lemma RestartForgets(s1: PState, s2: PState)
    requires s1.difficulty == s2.difficulty && s1.questionCount == s2.questionCount
    ensures Restart(s1) == Restart(s2)
    ensures Restart(InitialPractice) == InitialPractice
    ensures Restart(Restart(s1)) == Restart(s1)
  {
  }

  /** After a restart the topic is blank, so generating does nothing until
      a new topic is typed. */
  lemma RestartWaitsForTopic(s: PState, g: Generation)
    ensures Generate(Restart(s), g) == Restart(s)
  {
  }

  // ---------------------------------------------------------------------
  // The result screen

  /** `Math.round((score / n) * 100)`. */
  function Percent(score: nat, n: nat): (p: nat)
    requires n > 0
    ensures score <= n ==> p <= 100
    ensures 2 * n * p <= 200 * score + n < 2 * n * (p + 1)
  {
    RoundedPercent(score, n)
  }

  datatype Band = Outstanding | GreatJob | GoodEffort | KeepLearning

  /** The message band, from `score / n` against 0.9, 0.7 and 0.5. The
      thresholds are compared exactly in integers; a ratio of two small
      integers lies either on a threshold (and then the floating-point
      quotient equals the literal) or at least 1/(10n) away from it. */
  function ResultBand(score: nat, n: nat): (b: Band)
    requires n > 0
    ensures b == Outstanding <==> 10 * score >= 9 * n
    ensures b == GreatJob <==> 7 * n <= 10 * score < 9 * n
    ensures b == GoodEffort <==> 5 * n <= 10 * score < 7 * n
    ensures b == KeepLearning <==> 10 * score < 5 * n
  {
    if 10 * score >= 9 * n then Outstanding
    else if 10 * score >= 7 * n then GreatJob
    else if 2 * score >= n then GoodEffort
    else KeepLearning
  }

  /** A perfect run is outstanding and shows 100%; a run with no correct
      answer shows 0% and the lowest band. */
  lemma BandExtremes(n: nat)
    requires n > 0
    ensures ResultBand(n, n) == Outstanding && Percent(n, n) == 100
    ensures ResultBand(0, n) == KeepLearning && Percent(0, n) == 0
  {
  }

  /** The band never goes down as the score goes up. */
  lemma BandMonotone(s1: nat, s2: nat, n: nat)
    requires n > 0 && s1 <= s2
    ensures BandRank(ResultBand(s1, n)) <= BandRank(ResultBand(s2, n))
  {
  }

  function BandRank(b: Band): nat {
    match b
    case KeepLearning => 0
    case GoodEffort => 1
    case GreatJob => 2
    case Outstanding => 3
  }

  // ---------------------------------------------------------------------
  // A whole game

  /** The number of picks that match the answer keys, position by position. */
  function CountCorrect(qs: seq<PracticeQuestion>, picks: seq<string>): (n: nat)
    requires |picks| <= |qs|
    ensures n <= |picks|
  {
    if |picks| == 0 then 0
    else (if picks[0] == qs[0].correctAnswer then 1 else 0) + CountCorrect(qs[1..], picks[1..])
  }

  /** The player picks `picks[0]`, submits, and waits for the delayed step;
      then the same with the next pick. */
  function Play(s: PState, picks: seq<string>): PState
    requires s.index + |picks| <= |s.questions|
    decreases |picks|
  {
    if |picks| == 0 then s
    else
      var (t, p) := Submit(s.(selected := picks[0]));
      var u := Fire(t, p);
      if u.index + |picks| - 1 <= |u.questions| then Play(u, picks[1..]) else u
  }

  /** Answering the remaining questions one at a time, each submit followed
      by its delayed step, adds one point per correct pick, flags every
      question answered, and ends on the result screen at the last question. */
  lemma {:induction false} PlayScores(s: PState, picks: seq<string>)
    requires |picks| > 0 && s.index + |picks| == |s.questions|
    requires |s.answered| == |s.questions|
    requires forall k :: 0 <= k < |picks| ==> picks[k] != ""
    ensures var f := Play(s, picks);
      && f.score == s.score + CountCorrect(s.questions[s.index..], picks)
      && f.showResult
      && f.index == |s.questions| - 1
      && f.questions == s.questions
      && |f.answered| == |s.answered|
      && (forall k :: s.index <= k < |s.questions| ==> f.answered[k])
      && (forall k :: 0 <= k < s.index ==> f.answered[k] == s.answered[k])
    decreases |picks|
  {
    var (t, p) := Submit(s.(selected := picks[0]));
    var u := Fire(t, p);
    assert s.questions[s.index..][1..] == s.questions[s.index + 1..];
    if |picks| > 1 {
      assert u.index == s.index + 1;
      assert picks[1..][0] == picks[1];
      PlayScores(u, picks[1..]);
    }
  }

  /** After a successful generation, answering every question leaves a
      score between 0 and the number of questions, a percentage of at
      most 100, and every question flagged. */
  lemma FullGameBounded(s: PState, qs: seq<PracticeQuestion>, picks: seq<string>)
    requires !IsBlank(s.topic) && |qs| > 0 && |picks| == |qs|
    requires forall k :: 0 <= k < |picks| ==> picks[k] != ""
    ensures var g := Generate(s, GenerationReturned(qs));
      var f := Play(g, picks);
      && f.showResult
      && f.score == CountCorrect(qs, picks) <= |qs|
      && Percent(f.score, |qs|) <= 100
      && CountSet(f.answered) == |qs|
  {
    var g := Generate(s, GenerationReturned(qs));
    PlayScores(g, picks);
    assert qs[0..] == qs;
    var f := Play(g, picks);
    AllSet(f.answered);
  }

  lemma {:induction false} AllSet(flags: seq<bool>)
    requires forall k :: 0 <= k < |flags| ==> flags[k]
    ensures CountSet(flags) == |flags|
  {
    if |flags| > 0 {
      AllSet(flags[1..]);
    }
  }
}
