/**
 * The JavaScript variant of the practice page. It differs from the
 * TypeScript one in two places: picking an option stores the option's
 * TEXT as the selection (while the answer key is a label 'A'..'D'), and
 * the delayed step clears the selection only when it moves to the next
 * question.
 */
module PracticeJsx {
  import opened Common
  import opened Practice

  datatype OptionKey = KeyA | KeyB | KeyC | KeyD

  function OptionText(q: PracticeQuestion, k: OptionKey): string {
    match k
    case KeyA => q.optionA
    case KeyB => q.optionB
    case KeyC => q.optionC
    case KeyD => q.optionD
  }

  function LabelOf(k: OptionKey): string {
    match k
    case KeyA => "A"
    case KeyB => "B"
    case KeyC => "C"
    case KeyD => "D"
  }

  /** Clicking an option, as written: the selection becomes its text. */
  function Choose(s: PState, k: OptionKey): (t: PState)
    requires s.index < |s.questions|
    ensures t == s.(selected := OptionText(s.questions[s.index], k))
  {
    s.(selected := OptionText(s.questions[s.index], k))
  }

  /** `handleSubmitAnswer`: as on the other page, except that the selection
      stays until the delayed step. */
  function SubmitJsx(s: PState): (r: (PState, Pending))
    requires s.index < |s.questions|
    ensures s.selected == "" ==> r == (s, NoStep)
    ensures s.selected != "" ==>
      var (t, p) := r;
      && t.score == (if s.selected == s.questions[s.index].correctAnswer then s.score + 1 else s.score)
      && t.answered == SetFlag(s.answered, s.index)
      && t.selected == s.selected
      && t.questions == s.questions && t.index == s.index && t.showResult == s.showResult
      && (s.index < |s.questions| - 1 ==> p == AdvanceTo(s.index + 1))
      && (s.index == |s.questions| - 1 ==> p == RevealResult)
  {
    if s.selected == "" then (s, NoStep)
    else
      var q := s.questions[s.index];
      var score := if s.selected == q.correctAnswer then s.score + 1 else s.score;
      (s.(score := score, answered := SetFlag(s.answered, s.index)),
       if s.index < |s.questions| - 1 then AdvanceTo(s.index + 1) else RevealResult)
  }

  /** The delayed step: moving on clears the selection; showing the result
      keeps it. */
  function FireJsx(s: PState, p: Pending): (t: PState)
    ensures p.AdvanceTo? ==> t == s.(index := p.next, selected := "")
    ensures p.RevealResult? ==> t == s.(showResult := true)
    ensures p.NoStep? ==> t == s
  {
    match p
    case AdvanceTo(k) => s.(index := k, selected := "")
    case RevealResult => s.(showResult := true)
    case NoStep => s
  }

  /** `handleRestart`: the same as on the other page. */
  function RestartJsx(s: PState): (t: PState)
    ensures t == Restart(s)
    ensures t.questions == [] && t.score == 0 && t.selected == "" && t.topic == ""
  {
    PState("", s.difficulty, s.questionCount, [], 0, "", false, 0, [])
  }

  /** The message band on this page has two levels only, split at 0.7. */
  function GreatOrKeepPracticing(score: nat, n: nat): (great: bool)
    requires n > 0
    ensures great <==> BandRank(ResultBand(score, n)) >= BandRank(GreatJob)
  {
    10 * score >= 7 * n
  }

  /** Choosing option `k` and submitting scores a point exactly when the
      option's text equals the answer key. */
  lemma ChoiceScoresOnText(s: PState, k: OptionKey)
    requires s.index < |s.questions| && OptionText(s.questions[s.index], k) != ""
    ensures var q := s.questions[s.index];
      SubmitJsx(Choose(s, k)).0.score == if OptionText(q, k) == q.correctAnswer then s.score + 1 else s.score
  {
  }

  /** With a label as answer key and option texts that are not labels
      themselves, no choice ever scores: the correct option is missed. */
  lemma LabelKeyNeverMatches(s: PState, k: OptionKey)
    requires s.index < |s.questions|
    requires var q := s.questions[s.index];
      q.correctAnswer in {"A", "B", "C", "D"}
      && OptionText(q, k) != "" && OptionText(q, k) !in {"A", "B", "C", "D"}
    ensures SubmitJsx(Choose(s, k)).0.score == s.score
  {
  }

  /** No option text of the question is empty or a label. */
  predicate TextOptions(q: PracticeQuestion) {
    forall k: OptionKey :: OptionText(q, k) != "" && OptionText(q, k) !in {"A", "B", "C", "D"}
  }

  /** The player chooses `keys[0]`, submits and waits; then the next. */
  function PlayJsx(s: PState, keys: seq<OptionKey>): PState
    requires s.index + |keys| <= |s.questions|
    decreases |keys|
  {
    if |keys| == 0 then s
    else
      var (t, p) := SubmitJsx(Choose(s, keys[0]));
      var u := FireJsx(t, p);
      if u.index + |keys| - 1 <= |u.questions| then PlayJsx(u, keys[1..]) else u
  }

  /** As written, a whole game over questions keyed by label whose option
      texts are ordinary words ends on the result screen with the score it
      started with, whatever the player chooses. */
  lemma {:induction false} GameNeverScores(s: PState, keys: seq<OptionKey>)
    requires |keys| > 0 && s.index + |keys| == |s.questions|
    requires forall i :: s.index <= i < |s.questions| ==>
      s.questions[i].correctAnswer in {"A", "B", "C", "D"} && TextOptions(s.questions[i])
    ensures var f := PlayJsx(s, keys);
      f.score == s.score && f.showResult && f.index == |s.questions| - 1
    decreases |keys|
  {
    var (t, p) := SubmitJsx(Choose(s, keys[0]));
    var u := FireJsx(t, p);
    if |keys| > 1 {
      GameNeverScores(u, keys[1..]);
    }
  }

  const Capitals := PracticeQuestion("Capital of France?", "Berlin", "Paris", "Rome", "Madrid", "B")

  /** The correct option of a concrete question — "Paris", under key "B" —
      earns nothing as written; choosing it by label earns the point. */
  lemma CorrectOptionMissed()
    ensures var s := PState("geography", "medium", "10", [Capitals], 0, "", false, 0, [false]);
      && SubmitJsx(Choose(s, KeyB)).0.score == 0
      && SubmitJsx(ChooseLabel(s, KeyB)).0.score == 1
  {
  }

  /** Clicking an option, corrected: the selection is the option's label,
      as on the TypeScript page. */
  function ChooseLabel(s: PState, k: OptionKey): (t: PState)
    ensures t.selected in {"A", "B", "C", "D"} && t.selected == LabelOf(k)
    ensures t == s.(selected := t.selected)
  {
    s.(selected := LabelOf(k))
  }

  /** With labels as selections, a submit scores exactly when the chosen
      label is the answer key, whatever the option texts are. */
  lemma LabelChoiceScores(s: PState, k: OptionKey)
    requires s.index < |s.questions|
    ensures var q := s.questions[s.index];
      && SubmitJsx(ChooseLabel(s, k)).0.score == (if LabelOf(k) == q.correctAnswer then s.score + 1 else s.score)
      && Submit(ChooseLabel(s, k)).0.score == SubmitJsx(ChooseLabel(s, k)).0.score
  {
  }

  /** Every key of a question whose answer key is a label is reachable:
      some option choice scores. */
  lemma SomeLabelScores(s: PState)
    requires s.index < |s.questions| && s.questions[s.index].correctAnswer in {"A", "B", "C", "D"}
    ensures exists k :: SubmitJsx(ChooseLabel(s, k)).0.score == s.score + 1
  {
    var key := s.questions[s.index].correctAnswer;
    var k := if key == "A" then KeyA else if key == "B" then KeyB else if key == "C" then KeyC else KeyD;
    assert SubmitJsx(ChooseLabel(s, k)).0.score == s.score + 1;
  }
}
