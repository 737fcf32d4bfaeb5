/**
 * The host's presentation page: the host's copy of the session row, the
 * quiz's questions in order and the local question index, and the three
 * host actions that write the session row (start, next question, end).
 */
module Present {
  import opened Common
  import opened Domain

  /** The page state: the loaded session (null until loaded), the ordered
      questions and `currentQuestionIndex`, which starts at 0. */
  datatype HostView = HostView(session: Option<Session>, questions: seq<Question>, currentQuestionIndex: nat)

  /** The columns one host action overwrites in the session row. */
  datatype Patch =
    | StartPatch(firstQuestionId: string)
    | AdvancePatch(questionId: string)
    | EndPatch(endedAt: string)

  function ApplyPatch(s: Session, p: Patch): (t: Session)
    ensures t.id == s.id && t.sessionCode == s.sessionCode && t.quizId == s.quizId
  {
    match p
    case StartPatch(q) => s.(status := Active, currentQuestionId := Some(q))
    case AdvancePatch(q) => s.(currentQuestionId := Some(q))
    case EndPatch(at) => s.(status := Ended, endedAt := Some(at))
  }

  /** `.from('sessions').update(patch).eq('id', id)`: every row with that
      id is patched, the others are left alone. */
  function UpdateSessions(rows: seq<Session>, id: string, p: Patch): (out: seq<Session>)
    ensures |out| == |rows|
    ensures forall i :: 0 <= i < |rows| ==> out[i].id == rows[i].id
    ensures forall i :: 0 <= i < |rows| && rows[i].id != id ==> out[i] == rows[i]
    ensures forall i :: 0 <= i < |rows| && rows[i].id == id ==> out[i] == ApplyPatch(rows[i], p)
  {
    if |rows| == 0 then []
    else [if rows[0].id == id then ApplyPatch(rows[0], p) else rows[0]] + UpdateSessions(rows[1..], id, p)
  }

  /** A host action's effect: the page state after it and the sessions table. */
  datatype HostStep = HostStep(view: HostView, sessions: seq<Session>)

  /** `startSession`: with a loaded session and at least one question, a
      successful update makes the session active on the first question, in
      the store and in the page; otherwise nothing changes. The local index
      is not touched. */
  function StartSession(v: HostView, rows: seq<Session>, call: Call): (st: HostStep)
    ensures v.session.None? || |v.questions| == 0 || call.Failed? ==> st == HostStep(v, rows)
    ensures st.view.questions == v.questions && st.view.currentQuestionIndex == v.currentQuestionIndex
    ensures v.session.Some? && |v.questions| > 0 && call.Ok? ==>
      var s := v.session.value;
      && st.view.session.Some?
      && st.view.session.value.status == Active
      && st.view.session.value.currentQuestionId == Some(v.questions[0].id)
      && st.view.session.value == ApplyPatch(s, StartPatch(v.questions[0].id))
      && st.sessions == UpdateSessions(rows, s.id, StartPatch(v.questions[0].id))
  {
    if v.session.None? || |v.questions| == 0 then HostStep(v, rows)
    else if call.Failed? then HostStep(v, rows)
    else
      var s := v.session.value;
      var first := v.questions[0].id;
      HostStep(v.(session := Some(ApplyPatch(s, StartPatch(first)))), UpdateSessions(rows, s.id, StartPatch(first)))
  }

  /** `nextQuestion`: a no-op without a session or on the last question
      (`currentQuestionIndex >= questions.length - 1`); otherwise a
      successful update moves the index on by exactly one and points the
      session, in the store and in the page, at that question. */
  function NextQuestion(v: HostView, rows: seq<Session>, call: Call): (st: HostStep)
    ensures v.session.None? || v.currentQuestionIndex >= |v.questions| - 1 || call.Failed? ==>
      st == HostStep(v, rows)
    ensures st.view.questions == v.questions
    ensures v.session.Some? && v.currentQuestionIndex < |v.questions| - 1 && call.Ok? ==>
      var k := v.currentQuestionIndex + 1;
      var s := v.session.value;
      && st.view.currentQuestionIndex == k
      && st.view.session.Some?
      && st.view.session.value.status == s.status
      && st.view.session.value.currentQuestionId == Some(v.questions[k].id)
      && st.view.session.value == ApplyPatch(s, AdvancePatch(v.questions[k].id))
      && st.sessions == UpdateSessions(rows, s.id, AdvancePatch(v.questions[k].id))
  {
    if v.session.None? || v.currentQuestionIndex >= |v.questions| - 1 then HostStep(v, rows)
    else
      var k := v.currentQuestionIndex + 1;
      var next := v.questions[k];
      if call.Failed? then HostStep(v, rows)
      else
        var s := v.session.value;
        HostStep(
          v.(currentQuestionIndex := k, session := Some(ApplyPatch(s, AdvancePatch(next.id)))),
          UpdateSessions(rows, s.id, AdvancePatch(next.id)))
  }

  /** `endSession`: a successful update marks the session row ended at
      `now`; the page itself is left (it navigates away), so its state is
      unchanged. */
  function EndSession(v: HostView, rows: seq<Session>, call: Call, now: string): (st: HostStep)
    ensures st.view == v
    ensures v.session.None? || call.Failed? ==> st.sessions == rows
    ensures v.session.Some? && call.Ok? ==>
      st.sessions == UpdateSessions(rows, v.session.value.id, EndPatch(now))
    ensures v.session.Some? && call.Ok? ==>
      forall i :: 0 <= i < |rows| && rows[i].id == v.session.value.id ==>
        st.sessions[i].status == Ended && st.sessions[i].endedAt == Some(now)
  {
    if v.session.None? || call.Failed? then HostStep(v, rows)
    else HostStep(v, UpdateSessions(rows, v.session.value.id, EndPatch(now)))
  }

  // ---------------------------------------------------------------------
  // The question index

  function Min(a: int, b: int): int { if a <= b then a else b }
  function Max(a: int, b: int): int { if a >= b then a else b }

  function OkCount(calls: seq<Call>): nat {
    if |calls| == 0 then 0 else (if calls[0].Ok? then 1 else 0) + OkCount(calls[1..])
  }

  /** The host presses "Next Question" once per entry of `calls`, each
      update having the given outcome. */
  function RunNext(v: HostView, rows: seq<Session>, calls: seq<Call>): HostStep
    decreases |calls|
  {
    if |calls| == 0 then HostStep(v, rows)
    else
      var st := NextQuestion(v, rows, calls[0]);
      RunNext(st.view, st.sessions, calls[1..])
  }

  /** Any run of "Next Question" presses moves the index forward by one per
      successful update until it reaches the last question, and no
      further: it never decreases and never passes the last question. */
  lemma {:induction false} RunNextIndex(v: HostView, rows: seq<Session>, calls: seq<Call>)
    requires v.session.Some?
    ensures var w := RunNext(v, rows, calls).view;
      && w.questions == v.questions
      && w.currentQuestionIndex
           == Min(v.currentQuestionIndex + OkCount(calls), Max(v.currentQuestionIndex, |v.questions| - 1))
    decreases |calls|
  {
    if |calls| > 0 {
      var st := NextQuestion(v, rows, calls[0]);
      RunNextIndex(st.view, st.sessions, calls[1..]);
    }
  }

  /** From the initial index 0, the index stays within the question list
      (0 when it is empty) and never goes down. */
  lemma RunNextStaysInRange(v: HostView, rows: seq<Session>, calls: seq<Call>)
    requires v.session.Some? && v.currentQuestionIndex == 0
    ensures var i := RunNext(v, rows, calls).view.currentQuestionIndex;
      0 <= i <= Max(0, |v.questions| - 1) && i <= OkCount(calls)
  {
    RunNextIndex(v, rows, calls);
  }

  /** The page shows a question and the session points at that question. */
  predicate ShowsCurrent(v: HostView) {
    && v.session.Some?
    && v.currentQuestionIndex < |v.questions|
    && v.session.value.currentQuestionId == Some(v.questions[v.currentQuestionIndex].id)
  }

  /** Starting from the initial index lines the session up with the index. */
  lemma StartLinesUpIndex(v: HostView, rows: seq<Session>, call: Call)
    requires v.session.Some? && |v.questions| > 0 && v.currentQuestionIndex == 0
    ensures call.Ok? ==> ShowsCurrent(StartSession(v, rows, call).view)
  {
  }

  /** Every "Next Question" keeps the index and the session in step,
      whatever the index and whatever the update's outcome. */
  lemma NextKeepsIndexInStep(v: HostView, rows: seq<Session>, call: Call)
    ensures ShowsCurrent(v) ==> ShowsCurrent(NextQuestion(v, rows, call).view)
  {
  }

  /** So does any run of presses. */
  lemma {:induction false} RunNextKeepsIndexInStep(v: HostView, rows: seq<Session>, calls: seq<Call>)
    ensures ShowsCurrent(v) ==> ShowsCurrent(RunNext(v, rows, calls).view)
    decreases |calls|
  {
    if |calls| > 0 {
      var st := NextQuestion(v, rows, calls[0]);
      NextKeepsIndexInStep(v, rows, calls[0]);
      RunNextKeepsIndexInStep(st.view, st.sessions, calls[1..]);
    }
  }

  // ---------------------------------------------------------------------
  // What the host actions leave alone

  /** Only the named columns are overwritten: the row's id, join code and
      quiz stay as they were, in the page and in the store. */
  lemma ActionsKeepIdentity(v: HostView, rows: seq<Session>, call: Call, now: string)
    requires v.session.Some?
    ensures forall st :: st in {StartSession(v, rows, call), NextQuestion(v, rows, call), EndSession(v, rows, call, now)} ==>
      && st.view.session.Some?
      && st.view.session.value.id == v.session.value.id
      && st.view.session.value.sessionCode == v.session.value.sessionCode
      && st.view.session.value.quizId == v.session.value.quizId
      && |st.sessions| == |rows|
      && forall i :: 0 <= i < |rows| ==>
           st.sessions[i].id == rows[i].id
           && st.sessions[i].sessionCode == rows[i].sessionCode
           && st.sessions[i].quizId == rows[i].quizId
  {
  }

  /** A failed update leaves the page and the store as they were. */
  lemma FailedUpdateChangesNothing(v: HostView, rows: seq<Session>, now: string)
    ensures StartSession(v, rows, Failed) == HostStep(v, rows)
    ensures NextQuestion(v, rows, Failed) == HostStep(v, rows)
    ensures EndSession(v, rows, Failed, now) == HostStep(v, rows)
  {
  }

  // ---------------------------------------------------------------------
  // The lifecycle as the page offers it

  datatype HostAction = Start | Next | End

  /** The buttons the page renders: "Start Quiz" while the session is
      waiting and "End Session" otherwise; "Next Question" while the session
      is active and the index is before the last question. */
  predicate Offered(v: HostView, a: HostAction) {
    && v.session.Some?
    && match a
       case Start => v.session.value.status == Waiting
       case End => v.session.value.status != Waiting
       case Next => v.session.value.status == Active && v.currentQuestionIndex < |v.questions| - 1
  }

  function Perform(v: HostView, rows: seq<Session>, a: HostAction, call: Call, now: string): HostStep {
    match a
    case Start => StartSession(v, rows, call)
    case Next => NextQuestion(v, rows, call)
    case End => EndSession(v, rows, call, now)
  }

  /** The page's copy of the session is the store's row. */
  predicate InSync(v: HostView, rows: seq<Session>) {
    && v.session.Some?
    && forall i :: 0 <= i < |rows| && rows[i].id == v.session.value.id ==> rows[i] == v.session.value
  }

  /** Through the buttons the page offers, a session's status only moves
      forward: a waiting session can become active, an active one stays
      active or ends, an ended one stays ended, and nothing makes a session
      waiting again. */
  lemma OfferedActionsMoveStatusForward(v: HostView, rows: seq<Session>, a: HostAction, call: Call, now: string)
    requires InSync(v, rows) && Offered(v, a)
    ensures var after := Perform(v, rows, a, call, now).sessions;
      && |after| == |rows|
      && forall i :: 0 <= i < |rows| && rows[i].id == v.session.value.id ==>
        && (rows[i].status == Ended ==> after[i].status == Ended)
        && (rows[i].status == Active ==> after[i].status in {Active, Ended})
        && (after[i].status == Waiting ==> rows[i].status == Waiting)
  {
  }

  /** Start and Next keep the page in step with the store. */
  lemma StartAndNextKeepSync(v: HostView, rows: seq<Session>, call: Call)
    requires InSync(v, rows)
    ensures InSync(StartSession(v, rows, call).view, StartSession(v, rows, call).sessions)
    ensures InSync(NextQuestion(v, rows, call).view, NextQuestion(v, rows, call).sessions)
  {
  }
}
