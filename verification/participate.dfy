/**
 * The participant's page: the question currently shown, the answer picked,
 * whether this participant has answered it, and the three ways that state
 * changes — loading a question, a new session snapshot from the realtime
 * channel, and picking an answer (which inserts a response row).
 *
 * The page registers its mount-time fetch and its realtime handler once,
 * when it first renders. Those closures keep seeing the first render's
 * state: a participant name of "" and no question shown. `FirstRender`
 * is that captured state; `Live` is the state a fresh closure would see.
 */
module Participate {
  import opened Common
  import opened Domain

  /** The page state. `left` records the redirect to the join page. */
  datatype PView = PView(
    sessionId: string,
    participantName: string,
    currentQuestion: Option<Question>,
    selectedAnswer: Option<string>,
    hasAnswered: bool,
    loading: bool,
    sessionStatus: Status,
    questionNumber: nat,
    totalQuestions: nat,
    left: bool)

  /** The state of the first render. */
  function Initial(sessionId: string): PView {
    PView(sessionId, "", None, None, false, true, Waiting, 1, 0, false)
  }

  /** What a callback reads of the page state when it runs. */
  datatype Closure = Closure(name: string, shown: Option<Question>)

  const FirstRender: Closure := Closure("", None)

  function Live(v: PView): Closure {
    Closure(v.participantName, v.currentQuestion)
  }

  // ---------------------------------------------------------------------
  // Reads

  /** The outcome of each read the page makes: the session row joined with
      its quiz, the quiz's question count, the question row, the count of
      questions ordered before it, and the participant's existing answer. */
  datatype Reads = Reads(session: Call, total: Call, question: Call, position: Call, existing: Call)

  /** Every read reaches the store. */
  const Reached: Reads := Reads(Ok, Ok, Ok, Ok, Ok)

  /** The session rows with id `id` whose quiz row exists: the inner join
      with the quizzes table drops a session whose quiz is gone. */
  function SessionsWithId(store: Store, id: string): (out: seq<Session>)
    ensures forall s :: s in out <==> s in store.sessions && s.id == id && s.quizId in store.quizzes
  {
    JoinedRows(store.sessions, store.quizzes, id)
  }

  function JoinedRows(rows: seq<Session>, quizzes: seq<string>, id: string): (out: seq<Session>)
    ensures forall s :: s in out <==> s in rows && s.id == id && s.quizId in quizzes
  {
    if |rows| == 0 then []
    else (if rows[0].id == id && rows[0].quizId in quizzes then [rows[0]] else []) + JoinedRows(rows[1..], quizzes, id)
  }

  function QuestionsWithId(qs: seq<Question>, id: string): (out: seq<Question>)
    ensures forall q :: q in out <==> q in qs && q.id == id
  {
    if |qs| == 0 then []
    else (if qs[0].id == id then [qs[0]] else []) + QuestionsWithId(qs[1..], id)
  }

  /** The questions with an order index below `order`. */
  function Below(qs: seq<Question>, order: int): (out: seq<Question>)
    ensures |out| <= |qs|
    ensures forall q :: q in out <==> q in qs && q.orderIndex < order
  {
    if |qs| == 0 then []
    else (if qs[0].orderIndex < order then [qs[0]] else []) + Below(qs[1..], order)
  }

  /** The responses of one participant to one question of one session. */
  function Answers(rs: seq<Response>, sessionId: string, questionId: string, name: string): (out: seq<Response>)
    ensures |out| <= |rs|
    ensures forall r :: r in out <==> r in rs && r.sessionId == sessionId && r.questionId == questionId && r.participantName == name
  {
    if |rs| == 0 then []
    else
      var r := rs[0];
      (if r.sessionId == sessionId && r.questionId == questionId && r.participantName == name then [r] else [])
        + Answers(rs[1..], sessionId, questionId, name)
  }

  predicate Answered(rs: seq<Response>, sessionId: string, questionId: string, name: string) {
    exists r :: r in rs && r.sessionId == sessionId && r.questionId == questionId && r.participantName == name
  }

  // ---------------------------------------------------------------------
  // The page's operations

  /** `fetchQuestion(questionId, quizId)` run by a closure that reads the
      participant name `lookupName`. When the question read succeeds and the
      id matches exactly one row, that question is shown with the answer
      state reset. Its number is one more than the count of the quiz's
      questions ordered before it; a failed count reads as 0, so the number
      is 1. It counts as answered exactly when the existing-answer read
      succeeds and finds one response of `lookupName` to it: a failed read,
      or one that finds several rows, gives no data and no error is looked
      at. Otherwise the question read throws and the catch leaves the page
      as it was. */
  function FetchQuestion(v: PView, lookupName: string, questionId: string, quizId: string, store: Store, io: Reads): (w: PView)
    ensures var found := QuestionsWithId(store.questions, questionId);
      && (io.question.Failed? || |found| != 1 ==> w == v)
      && (io.question.Ok? && |found| == 1 ==>
          && w.currentQuestion == Some(found[0])
          && found[0].id == questionId
          && w.selectedAnswer == None
          && (io.position.Ok? ==> w.questionNumber == 1 + |Below(InQuiz(store.questions, quizId), found[0].orderIndex)|)
          && (io.position.Failed? ==> w.questionNumber == 1)
          && (w.hasAnswered <==> io.existing.Ok? && |Answers(store.responses, v.sessionId, questionId, lookupName)| == 1)
          && w == v.(currentQuestion := w.currentQuestion, selectedAnswer := None,
                     hasAnswered := w.hasAnswered, questionNumber := w.questionNumber))
  {
    var found := if io.question.Ok? then Single(QuestionsWithId(store.questions, questionId)) else None;
    if found.None? then v
    else
      var q := found.value;
      assert q in QuestionsWithId(store.questions, questionId);
      var before := if io.position.Ok? then |Below(InQuiz(store.questions, quizId), q.orderIndex)| else 0;
      var existing := if io.existing.Ok? then Single(Answers(store.responses, v.sessionId, questionId, lookupName)) else None;
      v.(currentQuestion := Some(q), hasAnswered := existing.Some?, selectedAnswer := None,
         questionNumber := before + 1)
  }

  /** `fetchSessionData`: a failed session read, or a session id matching no
      single row of a session whose quiz still exists, sends the participant
      back to the join page. Otherwise the status is taken over; an ended
      session stops there; else the quiz's question count is read (a failed
      count reads as 0) and, when the session points at a question, that
      question is loaded. Loading ends in every case. */
  function FetchSessionData(v: PView, c: Closure, store: Store, io: Reads): (w: PView)
    ensures w.sessionId == v.sessionId && w.participantName == v.participantName && !w.loading
    ensures (forall s :: s in store.sessions && s.id == v.sessionId ==> s.quizId !in store.quizzes) ==> w.left
    ensures var found := SessionsWithId(store, v.sessionId);
      && (io.session.Failed? || |found| != 1 ==> w == v.(loading := false, left := true))
      && (io.session.Ok? && |found| == 1 ==>
          var s := found[0];
          && w.left == v.left
          && w.sessionStatus == s.status
          && (s.status == Ended ==> w == v.(sessionStatus := Ended, loading := false))
          && (s.status != Ended && io.total.Ok? ==> w.totalQuestions == |InQuiz(store.questions, s.quizId)|)
          && (s.status != Ended && io.total.Failed? ==> w.totalQuestions == 0)
          && (s.status != Ended && !Truthy(s.currentQuestionId) ==>
                w == v.(sessionStatus := s.status, totalQuestions := w.totalQuestions, loading := false))
          && (s.status != Ended && Truthy(s.currentQuestionId) ==>
                w == FetchQuestion(v.(sessionStatus := s.status, totalQuestions := w.totalQuestions),
                                   c.name, s.currentQuestionId.value, s.quizId, store, io).(loading := false)))
  {
    var found := if io.session.Ok? then Single(SessionsWithId(store, v.sessionId)) else None;
    if found.None? then v.(loading := false, left := true)
    else
      var s := found.value;
      var v1 := v.(sessionStatus := s.status);
      if s.status == Ended then v1.(loading := false)
      else
        var v2 := v1.(totalQuestions := if io.total.Ok? then |InQuiz(store.questions, s.quizId)| else 0);
        var v3 := if Truthy(s.currentQuestionId) then FetchQuestion(v2, c.name, s.currentQuestionId.value, s.quizId, store, io) else v2;
        v3.(loading := false)
  }

  /** The mount effect: without a session id or a stored name the page
      sends the participant to the join page; otherwise it takes the stored
      name over and runs `fetchSessionData` through the closure `c`. */
  function Mount(sessionId: string, storedName: Option<string>, c: Closure, store: Store, io: Reads): (w: PView)
    ensures sessionId == "" || !Truthy(storedName) ==> w.left && w.currentQuestion.None?
    ensures sessionId != "" && Truthy(storedName) ==>
      w.sessionId == sessionId && w.participantName == storedName.value && !w.loading
  {
    if sessionId == "" || !Truthy(storedName) then Initial(sessionId).(left := true)
    else FetchSessionData(Initial(sessionId).(participantName := storedName.value), c, store, io)
  }

  /** The realtime handler for an UPDATE of the session row, run through
      the closure `c`: the status is taken over; an ended session stops
      there; otherwise the snapshot's question is loaded when it is set and
      differs from the one the closure sees as shown. */
  function OnSessionUpdate(v: PView, c: Closure, snapshot: Session, store: Store, io: Reads): (w: PView)
    ensures w.sessionStatus == snapshot.status
    ensures w.sessionId == v.sessionId && w.participantName == v.participantName
    ensures snapshot.status == Ended ==> w == v.(sessionStatus := Ended)
    ensures snapshot.status != Ended && Truthy(snapshot.currentQuestionId)
            && (c.shown.None? || c.shown.value.id != snapshot.currentQuestionId.value) ==>
      w == FetchQuestion(v.(sessionStatus := snapshot.status), c.name, snapshot.currentQuestionId.value, snapshot.quizId, store, io)
    ensures !Truthy(snapshot.currentQuestionId)
            || (c.shown.Some? && c.shown.value.id == snapshot.currentQuestionId.value) ==>
      w == v.(sessionStatus := snapshot.status)
  {
    var v1 := v.(sessionStatus := snapshot.status);
    if snapshot.status == Ended then v1
    else if Truthy(snapshot.currentQuestionId)
         && (c.shown.None? || c.shown.value.id != snapshot.currentQuestionId.value) then
      FetchQuestion(v1, c.name, snapshot.currentQuestionId.value, snapshot.quizId, store, io)
    else v1
  }

  /** `handleAnswerSelect(answer)`: nothing happens once answered, with no
      question shown or without a session id. Otherwise one response is
      inserted, its correctness fixed at write time by comparing the label
      with the question's answer key; on success the question counts as
      answered, on failure the selection is cleared and nothing is stored. */
  function AnswerSelect(v: PView, answer: string, store: Store, call: Call): (step: (PView, Store))
    ensures v.hasAnswered || v.currentQuestion.None? || v.sessionId == "" ==> step == (v, store)
    ensures step.1.sessions == store.sessions && step.1.questions == store.questions
    ensures step.0.currentQuestion == v.currentQuestion
    ensures !v.hasAnswered && v.currentQuestion.Some? && v.sessionId != "" ==>
      var q := v.currentQuestion.value;
      && (call.Ok? ==>
          && step.0 == v.(selectedAnswer := Some(answer), hasAnswered := true)
          && |step.1.responses| == |store.responses| + 1
          && step.1.responses[..|store.responses|] == store.responses
          && var r := step.1.responses[|store.responses|];
             && r.sessionId == v.sessionId && r.questionId == q.id
             && r.participantName == v.participantName && r.selectedAnswer == answer
             && (r.isCorrect <==> answer == q.correctAnswer))
      && (call.Failed? ==> step == (v.(selectedAnswer := None), store) && !step.0.hasAnswered)
  {
    if v.hasAnswered || v.currentQuestion.None? || v.sessionId == "" then (v, store)
    else
      var q := v.currentQuestion.value;
      var r := Response(v.sessionId, q.id, v.participantName, answer, answer == q.correctAnswer);
      if call.Ok? then
        (v.(selectedAnswer := Some(answer), hasAnswered := true), store.(responses := store.responses + [r]))
      else
        (v.(selectedAnswer := None), store)
  }

  // ---------------------------------------------------------------------
  // The question number

  lemma {:induction false} BelowShifted(qs: seq<Question>, base: int, order: int)
    requires forall k :: 0 <= k < |qs| ==> qs[k].orderIndex == base + k
    ensures |Below(qs, order)| == if order <= base then 0 else if order - base >= |qs| then |qs| else order - base
  {
    if |qs| > 0 {
      BelowShifted(qs[1..], base + 1, order);
    }
  }

  /** With densely ordered questions the number shown is the question's
      position: one more than its order index. */
  lemma QuestionNumberIsPosition(v: PView, lookupName: string, quizId: string, store: Store, io: Reads, k: nat)
    requires io.question.Ok? && io.position.Ok?
    requires DenseOrder(InQuiz(store.questions, quizId))
    requires k < |InQuiz(store.questions, quizId)|
    requires |QuestionsWithId(store.questions, InQuiz(store.questions, quizId)[k].id)| == 1
    ensures var q := InQuiz(store.questions, quizId)[k];
      FetchQuestion(v, lookupName, q.id, quizId, store, io).questionNumber == k + 1
  {
    var qs := InQuiz(store.questions, quizId);
    var q := qs[k];
    var found := QuestionsWithId(store.questions, q.id);
    assert q in found;
    assert found[0] == q by {
      assert found[0] in found;
      assert forall x :: x in found ==> x == found[0];
    }
    BelowShifted(qs, 0, q.orderIndex);
  }

  // ---------------------------------------------------------------------
  // One response per participant and question

  predicate SameKey(a: Response, b: Response) {
    a.sessionId == b.sessionId && a.questionId == b.questionId && a.participantName == b.participantName
  }

  /** No participant has answered a question of a session twice. The store
      itself enforces nothing of the kind; only the page's guard does. */
  predicate AtMostOnce(rs: seq<Response>) {
    forall i, j :: 0 <= i < j < |rs| ==> !SameKey(rs[i], rs[j])
  }

  /** The page's `hasAnswered` agrees with the store for the question shown. */
  predicate Synced(v: PView, store: Store) {
    v.currentQuestion.Some? ==>
      (v.hasAnswered <==> Answered(store.responses, v.sessionId, v.currentQuestion.value.id, v.participantName))
  }

  lemma {:induction false} AnswersOfUniqueKeys(rs: seq<Response>, sessionId: string, questionId: string, name: string)
    requires AtMostOnce(rs)
    ensures |Answers(rs, sessionId, questionId, name)| == 1 <==> Answered(rs, sessionId, questionId, name)
    ensures |Answers(rs, sessionId, questionId, name)| <= 1
  {
    if |rs| > 0 {
      var r := rs[0];
      AnswersOfUniqueKeys(rs[1..], sessionId, questionId, name);
      if !(r.sessionId == sessionId && r.questionId == questionId && r.participantName == name) {
        if Answered(rs, sessionId, questionId, name) {
          var x :| x in rs && x.sessionId == sessionId && x.questionId == questionId && x.participantName == name;
          assert x in rs[1..];
        }
      }
    }
  }

  /** Loading a question through a closure that reads the live name leaves
      the page in agreement with the store, as long as the existing-answer
      read succeeds (`FailedLookupAnswersTwice` shows the other case). */
  lemma LiveFetchSyncs(v: PView, questionId: string, quizId: string, store: Store, io: Reads)
    requires io.existing.Ok?
    requires AtMostOnce(store.responses) && Synced(v, store)
    ensures Synced(FetchQuestion(v, v.participantName, questionId, quizId, store, io), store)
  {
    AnswersOfUniqueKeys(store.responses, v.sessionId, questionId, v.participantName);
  }

  /** Picking an answer from a page in agreement with the store keeps every
      participant's answers unique and keeps the page in agreement. */
  lemma AnswerKeepsUniqueAndSynced(v: PView, answer: string, store: Store, call: Call)
    requires AtMostOnce(store.responses) && Synced(v, store)
    ensures var (w, after) := AnswerSelect(v, answer, store, call);
      AtMostOnce(after.responses) && Synced(w, after)
  {
    var (w, after) := AnswerSelect(v, answer, store, call);
    if !v.hasAnswered && v.currentQuestion.Some? && v.sessionId != "" && call.Ok? {
      var rs := store.responses;
      var r := after.responses[|rs|];
      assert after.responses == rs + [r];
      forall i | 0 <= i < |rs|
        ensures !SameKey(rs[i], r)
      {
        assert rs[i] in rs;
      }
      assert r in after.responses;
    }
  }

  /** Another participant's answer, or an answer to another question, does
      not disturb the page's agreement with the store. */
  lemma OtherAnswerKeepsSync(v: PView, store: Store, r: Response)
    requires Synced(v, store) && v.currentQuestion.Some?
    requires r.sessionId != v.sessionId || r.questionId != v.currentQuestion.value.id || r.participantName != v.participantName
    ensures Synced(v, store.(responses := store.responses + [r]))
  {
    var q := v.currentQuestion.value;
    if Answered(store.responses + [r], v.sessionId, q.id, v.participantName) {
      var x :| x in store.responses + [r] && x.sessionId == v.sessionId && x.questionId == q.id && x.participantName == v.participantName;
      assert x in store.responses;
    }
  }

  /** Mounting with a closure that reads the live name leaves the page in
      agreement with the store. */
  lemma LiveMountSyncs(sessionId: string, storedName: string, store: Store, io: Reads)
    requires io.existing.Ok?
    requires AtMostOnce(store.responses) && storedName != ""
    ensures Synced(Mount(sessionId, Some(storedName), Closure(storedName, None), store, io), store)
  {
    if sessionId != "" {
      var v0 := Initial(sessionId).(participantName := storedName);
      var found := if io.session.Ok? then Single(SessionsWithId(store, sessionId)) else None;
      if found.Some? && found.value.status != Ended && Truthy(found.value.currentQuestionId) {
        var s := found.value;
        var total := if io.total.Ok? then |InQuiz(store.questions, s.quizId)| else 0;
        var v2 := v0.(sessionStatus := s.status, totalQuestions := total);
        LiveFetchSyncs(v2, s.currentQuestionId.value, s.quizId, store, io);
      }
    }
  }

  /** The realtime handler run through a live closure keeps the page in
      agreement with the store. */
  lemma LiveUpdateSyncs(v: PView, snapshot: Session, store: Store, io: Reads)
    requires io.existing.Ok?
    requires AtMostOnce(store.responses) && Synced(v, store)
    ensures Synced(OnSessionUpdate(v, Live(v), snapshot, store, io), store)
  {
    if snapshot.status != Ended && Truthy(snapshot.currentQuestionId) {
      LiveFetchSyncs(v.(sessionStatus := snapshot.status), snapshot.currentQuestionId.value, snapshot.quizId, store, io);
    }
  }

  // ---------------------------------------------------------------------
  // The first render's closure

  const ExampleSession := Session("s1", "ABC123", Active, "quiz1", Some("q1"), None)
  const ExampleQuestion := Question("q1", "quiz1", "2 + 2", "3", "4", "5", "6", "B", 0)
  const ExampleStore := Store(["quiz1"], [ExampleSession], [ExampleQuestion], [Response("s1", "q1", "Al", "B", true)])

  lemma ExampleRows()
    ensures SessionsWithId(ExampleStore, "s1") == [ExampleSession]
    ensures QuestionsWithId(ExampleStore.questions, "q1") == [ExampleQuestion]
  {
    assert ExampleStore.quizzes[0] == "quiz1";
    assert JoinedRows(ExampleStore.sessions[1..], ExampleStore.quizzes, "s1") == [];
  }

  /** As written, the mount-time fetch looks the existing response up under
      the first render's name "". A participant who answered, reloads the
      page and picks again gets a second response stored for the same
      question; a closure reading the live name shows the question as
      answered and the second pick does nothing. */
  lemma ReloadAnswersTwice()
    ensures var v := Mount("s1", Some("Al"), FirstRender, ExampleStore, Reached);
      && v.currentQuestion == Some(ExampleQuestion)
      && !v.hasAnswered
      && var after := AnswerSelect(v, "B", ExampleStore, Ok).1;
         && |Answers(after.responses, "s1", "q1", "Al")| == 2
         && !AtMostOnce(after.responses)
    ensures var v := Mount("s1", Some("Al"), Closure("Al", None), ExampleStore, Reached);
      && v.hasAnswered
      && AnswerSelect(v, "B", ExampleStore, Ok).1 == ExampleStore
  {
    var v := Mount("s1", Some("Al"), FirstRender, ExampleStore, Reached);
    ExampleRows();
    assert Answers(ExampleStore.responses, "s1", "q1", "") == [];
    assert Answers(ExampleStore.responses, "s1", "q1", "Al") == ExampleStore.responses;
    var after := AnswerSelect(v, "B", ExampleStore, Ok).1;
    assert after.responses[1..] == [after.responses[1]];
    assert Answers(after.responses, "s1", "q1", "Al") == after.responses;
    assert SameKey(after.responses[0], after.responses[1]);
  }

  /** As written, the realtime handler compares against the first render's
      "no question shown", so a snapshot repeating the question on screen
      reloads it, and the reload forgets that it was answered. */
  lemma RepeatedSnapshotForgetsAnswer()
    ensures var v := Mount("s1", Some("Al"), Closure("Al", None), ExampleStore, Reached);
      && v.hasAnswered
      && !OnSessionUpdate(v, FirstRender, ExampleSession, ExampleStore, Reached).hasAnswered
      && OnSessionUpdate(v, Live(v), ExampleSession, ExampleStore, Reached).hasAnswered
  {
    ExampleRows();
    assert Answers(ExampleStore.responses, "s1", "q1", "") == [];
    assert Answers(ExampleStore.responses, "s1", "q1", "Al") == ExampleStore.responses;
  }

  /** The existing-answer read's error is never looked at. When that read
      fails, even a closure reading the live name shows an answered
      question as unanswered, and the next pick stores a second response. */
  lemma FailedLookupAnswersTwice()
    ensures var v := Mount("s1", Some("Al"), Closure("Al", None), ExampleStore, Reached.(existing := Failed));
      && v.currentQuestion == Some(ExampleQuestion)
      && !v.hasAnswered
      && !Synced(v, ExampleStore)
      && !AtMostOnce(AnswerSelect(v, "B", ExampleStore, Ok).1.responses)
  {
    var v := Mount("s1", Some("Al"), Closure("Al", None), ExampleStore, Reached.(existing := Failed));
    ExampleRows();
    assert ExampleStore.responses[0] in ExampleStore.responses;
    var after := AnswerSelect(v, "B", ExampleStore, Ok).1;
    assert SameKey(after.responses[0], after.responses[1]);
  }

  /** A session whose quiz row is gone is dropped by the join, so the
      participant is sent back even though the session row exists; failed
      counts show the question as number 1 of 0. */
  lemma DeletedQuizAndFailedCounts()
    ensures Mount("s1", Some("Al"), Closure("Al", None), ExampleStore.(quizzes := []), Reached).left
    ensures var v := Mount("s1", Some("Al"), Closure("Al", None), ExampleStore, Reached.(total := Failed, position := Failed));
      && !v.left && v.currentQuestion == Some(ExampleQuestion)
      && v.questionNumber == 1 && v.totalQuestions == 0
  {
    ExampleRows();
  }
}
