/**
 * The quiz editor: the list of draft questions and its edits (add, remove,
 * change one field, append generated questions), and saving, which keeps
 * the complete drafts only and numbers them densely before writing them to
 * the questions table.
 */
module QuizBuilder {
  import opened Common
  import opened Domain

  /** A question as edited; `id` is present for questions loaded from the
      store and is never written back. */
  datatype Draft = Draft(
    id: Option<string>,
    text: string,
    optionA: string,
    optionB: string,
    optionC: string,
    optionD: string,
    correctAnswer: string,
    orderIndex: int)

  /** The string fields the editor's inputs change. */
  datatype Field = QuestionText | OptionA | OptionB | OptionC | OptionD | CorrectAnswer

  /** A question as the quiz generator returns it. */
  datatype Generated = Generated(text: string, optionA: string, optionB: string, optionC: string, optionD: string, correctAnswer: string)

  /** A fresh empty question: no text, no options, answer "A". */
  function BlankDraft(orderIndex: int): Draft {
    Draft(None, "", "", "", "", "", "A", orderIndex)
  }

  /** The editor opens with one empty question. */
  const InitialDrafts: seq<Draft> := [BlankDraft(0)]

  // ---------------------------------------------------------------------
  // Edits

  /** `addQuestion`: one empty question at the end, numbered by the old length. */
  function AddQuestion(ds: seq<Draft>): (out: seq<Draft>)
    ensures |out| == |ds| + 1 && out[..|ds|] == ds
    ensures out[|ds|] == BlankDraft(|ds|)
  {
    ds + [BlankDraft(|ds|)]
  }

  /** `removeQuestion(index)`: keep every draft whose position differs from
      `index`, an index outside the list removing nothing. */
  function RemoveQuestion(ds: seq<Draft>, index: int): (out: seq<Draft>)
    ensures 0 <= index < |ds| ==> out == ds[..index] + ds[index + 1..]
    ensures !(0 <= index < |ds|) ==> out == ds
  {
    if |ds| == 0 then []
    else
      var rest := RemoveQuestion(ds[1..], index - 1);
      if index == 0 then
        assert ds[1..] == ds[..0] + ds[1..];
        rest
      else
        assert 0 < index < |ds| ==> [ds[0]] + ds[1..][..index - 1] == ds[..index];
        [ds[0]] + rest
  }

  function SetField(d: Draft, f: Field, value: string): Draft {
    match f
    case QuestionText => d.(text := value)
    case OptionA => d.(optionA := value)
    case OptionB => d.(optionB := value)
    case OptionC => d.(optionC := value)
    case OptionD => d.(optionD := value)
    case CorrectAnswer => d.(correctAnswer := value)
  }

  function GetField(d: Draft, f: Field): string {
    match f
    case QuestionText => d.text
    case OptionA => d.optionA
    case OptionB => d.optionB
    case OptionC => d.optionC
    case OptionD => d.optionD
    case CorrectAnswer => d.correctAnswer
  }

  /** `updateQuestion(index, field, value)`, for a position in the list (the
      editor only calls it for a rendered question): that draft's field now
      reads `value`; its other fields, and every other draft, are as before. */
  function UpdateQuestion(ds: seq<Draft>, index: int, f: Field, value: string): (out: seq<Draft>)
    requires 0 <= index < |ds|
    ensures |out| == |ds|
    ensures forall i :: 0 <= i < |ds| && i != index ==> out[i] == ds[i]
    ensures GetField(out[index], f) == value
    ensures forall g :: g != f ==> GetField(out[index], g) == GetField(ds[index], g)
    ensures out[index].id == ds[index].id && out[index].orderIndex == ds[index].orderIndex
  {
    ds[index := SetField(ds[index], f, value)]
  }

  /** `handleAIGenerated`: the generated questions go after the existing
      ones, numbered on from the old length. */
  function AppendGenerated(ds: seq<Draft>, gs: seq<Generated>): (out: seq<Draft>)
    ensures |out| == |ds| + |gs| && out[..|ds|] == ds
    ensures forall k :: 0 <= k < |gs| ==>
      var d := out[|ds| + k];
      var g := gs[k];
      && d.id.None? && d.orderIndex == |ds| + k
      && d.text == g.text && d.correctAnswer == g.correctAnswer
      && d.optionA == g.optionA && d.optionB == g.optionB && d.optionC == g.optionC && d.optionD == g.optionD
  {
    ds + seq(|gs|, k requires 0 <= k < |gs| =>
      Draft(None, gs[k].text, gs[k].optionA, gs[k].optionB, gs[k].optionC, gs[k].optionD, gs[k].correctAnswer, |ds| + k))
  }

  // ---------------------------------------------------------------------
  // Saving

  /** A question is complete when its text and all four options are
      non-blank; the answer key is not checked. */
  predicate Complete(d: Draft) {
    !IsBlank(d.text) && !IsBlank(d.optionA) && !IsBlank(d.optionB) && !IsBlank(d.optionC) && !IsBlank(d.optionD)
  }

  /** `validQuestions`: the complete drafts, in order. */
  function ValidQuestions(ds: seq<Draft>): (out: seq<Draft>)
    ensures |out| <= |ds|
  {
    if |ds| == 0 then []
    else (if Complete(ds[0]) then [ds[0]] else []) + ValidQuestions(ds[1..])
  }

  /** The filter keeps exactly the complete drafts. */
  lemma {:induction false} ValidMembers(ds: seq<Draft>)
    ensures forall d :: d in ValidQuestions(ds) <==> d in ds && Complete(d)
  {
    if |ds| > 0 {
      ValidMembers(ds[1..]);
      assert forall d :: d in ds <==> d == ds[0] || d in ds[1..];
    }
  }

  /** The rows `handleSave` inserts: the drafts' contents under `quizId`,
      the k-th with order index k and the id the store assigns it. */
  function QuestionRows(valid: seq<Draft>, quizId: string, freshId: int -> string): (rows: seq<Question>)
    ensures |rows| == |valid|
    ensures DenseOrder(rows)
    ensures forall k :: 0 <= k < |valid| ==>
      var d := valid[k];
      && rows[k].quizId == quizId && rows[k].id == freshId(k)
      && rows[k].text == d.text && rows[k].correctAnswer == d.correctAnswer
      && rows[k].optionA == d.optionA && rows[k].optionB == d.optionB
      && rows[k].optionC == d.optionC && rows[k].optionD == d.optionD
  {
    seq(|valid|, k requires 0 <= k < |valid| =>
      Question(freshId(k), quizId, valid[k].text, valid[k].optionA, valid[k].optionB, valid[k].optionC,
               valid[k].optionD, valid[k].correctAnswer, k))
  }

  /** The outcomes of the writes `handleSave` makes, in order: the quiz row
      (insert or update), the removal of the old questions (edits only) and
      the insertion of the new ones. */
  datatype SaveWrites = SaveWrites(quiz: Call, delete: Call, insert: Call)

  datatype SaveResult =
    | Refused(message: string)
    | Aborted(table: seq<Question>)
    | Saved(table: seq<Question>)

  const TitleMissing := "Please enter a quiz title"
  const NothingComplete := "Please add at least one complete question"

  function WithoutQuiz(qs: seq<Question>, quizId: string): (out: seq<Question>)
    ensures forall q :: q in out <==> q in qs && q.quizId != quizId
  {
    if |qs| == 0 then []
    else (if qs[0].quizId != quizId then [qs[0]] else []) + WithoutQuiz(qs[1..], quizId)
  }

  /** `handleSave` over the questions table. A blank title, then an empty
      set of complete questions, refuse the save before anything is
      written. Otherwise the writes run in order and the first failure
      stops them, keeping what earlier writes did. */
  function HandleSave(title: string, ds: seq<Draft>, table: seq<Question>, quizId: string, isEdit: bool,
                      freshId: int -> string, w: SaveWrites): (r: SaveResult)
    ensures IsBlank(title) <==> r == Refused(TitleMissing)
    ensures !IsBlank(title) ==> (|ValidQuestions(ds)| == 0 <==> r == Refused(NothingComplete))
    ensures r.Saved? ==> !IsBlank(title) && |ValidQuestions(ds)| > 0 && w.quiz.Ok? && w.insert.Ok?
    ensures w.quiz.Failed? && r.Aborted? ==> r.table == table
    ensures r.Saved? ==>
      r.table == (if isEdit then WithoutQuiz(table, quizId) else table) + QuestionRows(ValidQuestions(ds), quizId, freshId)
  {
    TrimEmptyIffBlank(title);
    if Trim(title) == "" then Refused(TitleMissing)
    else
      var valid := ValidQuestions(ds);
      if |valid| == 0 then Refused(NothingComplete)
      else if w.quiz.Failed? then Aborted(table)
      else if isEdit && w.delete.Failed? then Aborted(table)
      else
        var kept := if isEdit then WithoutQuiz(table, quizId) else table;
        if w.insert.Failed? then Aborted(kept)
        else Saved(kept + QuestionRows(valid, quizId, freshId))
  }

  // ---------------------------------------------------------------------
  // Properties of the filter

  lemma {:induction false} ValidAppend(a: seq<Draft>, b: seq<Draft>)
    ensures ValidQuestions(a + b) == ValidQuestions(a) + ValidQuestions(b)
  {
    if |a| == 0 {
      assert a + b == b;
    } else {
      var head := if Complete(a[0]) then [a[0]] else [];
      assert (a + b)[0] == a[0];
      assert (a + b)[1..] == a[1..] + b;
      assert ValidQuestions(a + b) == head + ValidQuestions(a[1..] + b);
      ValidAppend(a[1..], b);
      assert ValidQuestions(a) == head + ValidQuestions(a[1..]);
    }
  }

  /** Filtering twice is filtering once. */
  lemma {:induction false} ValidIdempotent(ds: seq<Draft>)
    ensures ValidQuestions(ValidQuestions(ds)) == ValidQuestions(ds)
  {
    if |ds| > 0 {
      ValidIdempotent(ds[1..]);
      if Complete(ds[0]) {
        ValidAppend([ds[0]], ValidQuestions(ds[1..]));
        assert ValidQuestions([ds[0]]) == [ds[0]];
      } else {
        assert ValidQuestions(ds) == ValidQuestions(ds[1..]);
      }
    }
  }

  /** A list of complete drafts passes the filter unchanged. */
  lemma {:induction false} ValidKeepsComplete(ds: seq<Draft>)
    requires forall i :: 0 <= i < |ds| ==> Complete(ds[i])
    ensures ValidQuestions(ds) == ds
  {
    if |ds| > 0 {
      ValidKeepsComplete(ds[1..]);
    }
  }

  /** Adding an empty question does not change what a save writes. */
  lemma AddDoesNotChangeSave(ds: seq<Draft>)
    ensures ValidQuestions(AddQuestion(ds)) == ValidQuestions(ds)
  {
    ValidAppend(ds, [BlankDraft(|ds|)]);
  }

  lemma SplitAround(ds: seq<Draft>, i: int)
    requires 0 <= i < |ds|
    ensures ds == ds[..i] + [ds[i]] + ds[i + 1..]
  {
  }

  lemma ValidThree(pre: seq<Draft>, x: Draft, post: seq<Draft>)
    ensures ValidQuestions(pre + [x] + post) == ValidQuestions(pre) + ValidQuestions([x]) + ValidQuestions(post)
  {
    assert pre + [x] + post == pre + ([x] + post);
    ValidAppend(pre, [x] + post);
    ValidAppend([x], post);
  }

  /** What a save writes after removing draft `i` is what it writes for the
      drafts before `i` followed by what it writes for those after it. */
  lemma RemoveSplitsSave(ds: seq<Draft>, i: int)
    requires 0 <= i < |ds|
    ensures ValidQuestions(ds) == ValidQuestions(ds[..i]) + ValidQuestions([ds[i]]) + ValidQuestions(ds[i + 1..])
    ensures ValidQuestions(RemoveQuestion(ds, i)) == ValidQuestions(ds[..i]) + ValidQuestions(ds[i + 1..])
  {
    SplitAround(ds, i);
    ValidThree(ds[..i], ds[i], ds[i + 1..]);
    ValidAppend(ds[..i], ds[i + 1..]);
  }

  /** Removing an incomplete question does not change what a save writes;
      removing a complete one drops exactly its row from what is written. */
  lemma RemoveAndSave(ds: seq<Draft>, i: int)
    requires 0 <= i < |ds|
    ensures !Complete(ds[i]) ==> ValidQuestions(RemoveQuestion(ds, i)) == ValidQuestions(ds)
    ensures Complete(ds[i]) ==>
      var p := |ValidQuestions(ds[..i])|;
      && p < |ValidQuestions(ds)| && ValidQuestions(ds)[p] == ds[i]
      && ValidQuestions(RemoveQuestion(ds, i)) == ValidQuestions(ds)[..p] + ValidQuestions(ds)[p + 1..]
  {
    RemoveSplitsSave(ds, i);
    ValidSingle(ds[i]);
    if Complete(ds[i]) {
      MiddleOut(ValidQuestions(ds[..i]), ds[i], ValidQuestions(ds[i + 1..]));
    } else {
      assert ValidQuestions(ds[..i]) + [] == ValidQuestions(ds[..i]);
    }
  }

  lemma ValidSingle(x: Draft)
    ensures ValidQuestions([x]) == if Complete(x) then [x] else []
  {
    assert [x][1..] == [];
  }

  lemma MiddleOut<T>(a: seq<T>, x: T, b: seq<T>)
    ensures var v := a + [x] + b;
      |a| < |v| && v[|a|] == x && v[..|a|] + v[|a| + 1..] == a + b
  {
    var v := a + [x] + b;
    assert v[..|a|] == a;
    assert v[|a| + 1..] == b;
  }

  /** Whatever order indices the drafts carry (removals leave gaps,
      loaded questions keep theirs), a successful save stores the quiz's
      complete questions densely numbered from 0, in editor order, and
      leaves other quizzes' questions alone. An edit replaces the quiz's
      questions; a new quiz gets a fresh id no stored question carries. */
  lemma SavedQuizIsDense(title: string, ds: seq<Draft>, table: seq<Question>, quizId: string, isEdit: bool,
                         freshId: int -> string, w: SaveWrites)
    requires isEdit || |InQuiz(table, quizId)| == 0
    requires HandleSave(title, ds, table, quizId, isEdit, freshId, w).Saved?
    ensures var saved := HandleSave(title, ds, table, quizId, isEdit, freshId, w).table;
      && InQuiz(saved, quizId) == QuestionRows(ValidQuestions(ds), quizId, freshId)
      && DenseOrder(InQuiz(saved, quizId))
      && forall q: Question :: q.quizId != quizId ==> (q in saved <==> q in table)
  {
    var kept := if isEdit then WithoutQuiz(table, quizId) else table;
    var rows := QuestionRows(ValidQuestions(ds), quizId, freshId);
    InQuizAppend(kept, rows, quizId);
    InQuizNone(kept, quizId);
    InQuizAll(rows, quizId);
  }

  /** An edit whose insert fails after the old questions were removed
      leaves the quiz with no questions at all. */
  lemma FailedInsertEmptiesQuiz(title: string, ds: seq<Draft>, table: seq<Question>, quizId: string, freshId: int -> string)
    requires !IsBlank(title) && |ValidQuestions(ds)| > 0
    ensures var r := HandleSave(title, ds, table, quizId, true, freshId, SaveWrites(Ok, Ok, Failed));
      r.Aborted? && InQuiz(r.table, quizId) == []
  {
    InQuizNone(WithoutQuiz(table, quizId), quizId);
  }

  lemma {:induction false} InQuizAppend(a: seq<Question>, b: seq<Question>, quizId: string)
    ensures InQuiz(a + b, quizId) == InQuiz(a, quizId) + InQuiz(b, quizId)
  {
    if |a| == 0 {
      assert a + b == b;
    } else {
      assert (a + b)[1..] == a[1..] + b;
      InQuizAppend(a[1..], b, quizId);
    }
  }

  lemma InQuizNone(qs: seq<Question>, quizId: string)
    requires forall q :: q in qs ==> q.quizId != quizId
    ensures InQuiz(qs, quizId) == []
  {
    if |InQuiz(qs, quizId)| > 0 {
      assert InQuiz(qs, quizId)[0] in InQuiz(qs, quizId);
    }
  }

  lemma {:induction false} InQuizAll(qs: seq<Question>, quizId: string)
    requires forall k :: 0 <= k < |qs| ==> qs[k].quizId == quizId
    ensures InQuiz(qs, quizId) == qs
  {
    if |qs| > 0 {
      InQuizAll(qs[1..], quizId);
    }
  }
}
