/**
 * The rows of the three tables the live-session pages read and write
 * (`sessions`, `questions`, `responses`), and the in-memory store that
 * stands in for the database.
 */
module Domain {
  import opened Common

  /** `sessions.status`. The column holds a string that the pages compare
      with the literals 'waiting', 'active' and 'ended'; any other value is
      kept as `Other`. */
  datatype Status = Waiting | Active | Ended | Other(name: string)

  /** A row of `questions`. `correctAnswer` is the label 'A'..'D' the
      question builder stores; nothing in the pages enforces that. */
  datatype Question = Question(
    id: string,
    quizId: string,
    text: string,
    optionA: string,
    optionB: string,
    optionC: string,
    optionD: string,
    correctAnswer: string,
    orderIndex: int)

  /** A row of `responses`; its generated id and timestamp are read by no page. */
  datatype Response = Response(
    sessionId: string,
    questionId: string,
    participantName: string,
    selectedAnswer: string,
    isCorrect: bool)

  /** A row of `sessions`. */
  datatype Session = Session(
    id: string,
    sessionCode: string,
    status: Status,
    quizId: string,
    currentQuestionId: Option<string>,
    endedAt: Option<string>)

  /** The database: the ids of the quiz rows and the rows of the sessions,
      questions and responses tables. */
  datatype Store = Store(quizzes: seq<string>, sessions: seq<Session>, questions: seq<Question>, responses: seq<Response>)

  /** The four option labels a participant can pick. */
  const Labels: set<string> := {"A", "B", "C", "D"}

  /** The outcome of a `.single()` or `.maybeSingle()` read: data only when
      exactly one row matched (no rows, or several, give no data). */
  function Single<T>(rows: seq<T>): (r: Option<T>)
    ensures r.Some? <==> |rows| == 1
    ensures r.Some? ==> r.value == rows[0]
  {
    if |rows| == 1 then Some(rows[0]) else None
  }

  /** A quiz's questions, in store order. */
  function InQuiz(qs: seq<Question>, quizId: string): (out: seq<Question>)
    ensures |out| <= |qs|
    ensures forall q :: q in out <==> q in qs && q.quizId == quizId
  {
    if |qs| == 0 then []
    else (if qs[0].quizId == quizId then [qs[0]] else []) + InQuiz(qs[1..], quizId)
  }

  /** Questions carrying order indices 0, 1, 2, ... in sequence order, as
      the quiz builder saves them. */
  predicate DenseOrder(qs: seq<Question>) {
    forall k :: 0 <= k < |qs| ==> qs[k].orderIndex == k
  }

  /** A JavaScript truthiness test on a nullable string column. */
  predicate Truthy(s: Option<string>) {
    s.Some? && s.value != ""
  }
}
