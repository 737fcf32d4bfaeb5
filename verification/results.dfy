/**
 * The host's results page: per-question statistics, the participant count,
 * the average score, the overall totals and accuracy, and the CSV export,
 * all as pure functions of the quiz's questions and the session's responses.
 */
module Results {
  import opened Common
  import opened Domain

  // ---------------------------------------------------------------------
  // Selecting and counting responses

  /** The columns responses are grouped by: question and participant on
      this page, session on the reports page. */
  datatype Key = ByQuestion | ByParticipant | BySession

  function KeyOf(r: Response, k: Key): string {
    match k
    case ByQuestion => r.questionId
    case ByParticipant => r.participantName
    case BySession => r.sessionId
  }

  /** `responses.filter(r => r.<column> === v)`. */
  function Keyed(rs: seq<Response>, k: Key, v: string): (out: seq<Response>)
    ensures |out| <= |rs|
    ensures forall r :: r in out <==> r in rs && KeyOf(r, k) == v
  {
    if |rs| == 0 then []
    else (if KeyOf(rs[0], k) == v then [rs[0]] else []) + Keyed(rs[1..], k, v)
  }

  /** The responses to one question. */
  function ResponsesTo(rs: seq<Response>, questionId: string): seq<Response> {
    Keyed(rs, ByQuestion, questionId)
  }

  /** The responses of one participant. */
  function ResponsesBy(rs: seq<Response>, name: string): seq<Response> {
    Keyed(rs, ByParticipant, name)
  }

  /** `rs.filter(r => r.is_correct).length`. */
  function CorrectCount(rs: seq<Response>): (n: nat)
    ensures n <= |rs|
  {
    if |rs| == 0 then 0 else (if rs[0].isCorrect then 1 else 0) + CorrectCount(rs[1..])
  }

  /** `rs.filter(r => r.selected_answer === answer).length`. */
  function LabelCount(rs: seq<Response>, answer: string): (n: nat)
    ensures n <= |rs|
  {
    if |rs| == 0 then 0 else (if rs[0].selectedAnswer == answer then 1 else 0) + LabelCount(rs[1..], answer)
  }

  /** The responses whose selected answer is none of the four labels. */
  function UnlabelledCount(rs: seq<Response>): nat {
    if |rs| == 0 then 0 else (if rs[0].selectedAnswer in Labels then 0 else 1) + UnlabelledCount(rs[1..])
  }

  /** Every response is counted under exactly one of the four labels or
      under none of them. */
  lemma {:induction false} LabelCountsPartition(rs: seq<Response>)
    ensures LabelCount(rs, "A") + LabelCount(rs, "B") + LabelCount(rs, "C") + LabelCount(rs, "D")
            + UnlabelledCount(rs) == |rs|
  {
    if |rs| > 0 {
      LabelCountsPartition(rs[1..]);
    }
  }

  lemma {:induction false} UnlabelledCountZero(rs: seq<Response>)
    requires forall r :: r in rs ==> r.selectedAnswer in Labels
    ensures UnlabelledCount(rs) == 0
  {
    if |rs| > 0 {
      assert rs[0] in rs;
      assert forall r :: r in rs[1..] ==> r in rs;
      UnlabelledCountZero(rs[1..]);
    }
  }

  /** When every response to a question carries one of the four labels,
      the four label counts cover all of them. */
  lemma LabelledResponsesCovered(rs: seq<Response>, questionId: string)
    ensures (forall r :: r in rs && r.questionId == questionId ==> r.selectedAnswer in Labels) ==>
      UnlabelledCount(ResponsesTo(rs, questionId)) == 0
  {
    if forall r :: r in rs && r.questionId == questionId ==> r.selectedAnswer in Labels {
      UnlabelledCountZero(ResponsesTo(rs, questionId));
    }
  }

  // ---------------------------------------------------------------------
  // Partitioning responses by a key

  /** The sum over `vs` of the number of responses with each key value. */
  function CountOver(rs: seq<Response>, k: Key, vs: seq<string>): nat {
    if |vs| == 0 then 0 else |Keyed(rs, k, vs[0])| + CountOver(rs, k, vs[1..])
  }

  /** The sum over `vs` of the number of correct responses with each key value. */
  function CorrectOver(rs: seq<Response>, k: Key, vs: seq<string>): nat {
    if |vs| == 0 then 0 else CorrectCount(Keyed(rs, k, vs[0])) + CorrectOver(rs, k, vs[1..])
  }

  /** How many entries of `vs` equal `x`. */
  function Hits(vs: seq<string>, x: string): nat {
    if |vs| == 0 then 0 else (if vs[0] == x then 1 else 0) + Hits(vs[1..], x)
  }

  lemma {:induction false} HitsOfDistinct(vs: seq<string>, x: string)
    requires NoDups(vs)
    ensures Hits(vs, x) == if x in vs then 1 else 0
  {
    if |vs| > 0 {
      assert NoDups(vs[1..]);
      HitsOfDistinct(vs[1..], x);
      if vs[0] == x {
        assert x !in vs[1..];
      }
    }
  }

  /** Taking one response off the front of the ledger takes one hit off
      each sum. */
  lemma {:induction false} OverCons(rs: seq<Response>, k: Key, vs: seq<string>)
    requires |rs| > 0
    ensures CountOver(rs, k, vs) == Hits(vs, KeyOf(rs[0], k)) + CountOver(rs[1..], k, vs)
    ensures CorrectOver(rs, k, vs)
            == (if rs[0].isCorrect then Hits(vs, KeyOf(rs[0], k)) else 0) + CorrectOver(rs[1..], k, vs)
  {
    if |vs| > 0 {
      OverCons(rs, k, vs[1..]);
      var pre := if KeyOf(rs[0], k) == vs[0] then [rs[0]] else [];
      assert Keyed(rs, k, vs[0]) == pre + Keyed(rs[1..], k, vs[0]);
      CorrectCountAppend(pre, Keyed(rs[1..], k, vs[0]));
    }
  }

  lemma {:induction false} CorrectCountAppend(a: seq<Response>, b: seq<Response>)
    ensures CorrectCount(a + b) == CorrectCount(a) + CorrectCount(b)
  {
    if |a| == 0 {
      assert a + b == b;
    } else {
      assert (a + b)[1..] == a[1..] + b;
      CorrectCountAppend(a[1..], b);
    }
  }

  /** When `vs` lists every key value the responses use, each once, the
      per-value counts add up to the whole ledger, and so do the
      per-value correct counts. */
  lemma {:induction false} Partition(rs: seq<Response>, k: Key, vs: seq<string>)
    requires NoDups(vs)
    requires forall r :: r in rs ==> KeyOf(r, k) in vs
    ensures CountOver(rs, k, vs) == |rs|
    ensures CorrectOver(rs, k, vs) == CorrectCount(rs)
  {
    if |rs| == 0 {
      EmptyOver(k, vs);
    } else {
      assert rs[0] in rs;
      assert forall r :: r in rs[1..] ==> r in rs;
      Partition(rs[1..], k, vs);
      OverCons(rs, k, vs);
      HitsOfDistinct(vs, KeyOf(rs[0], k));
    }
  }

  lemma {:induction false} EmptyOver(k: Key, vs: seq<string>)
    ensures CountOver([], k, vs) == 0 && CorrectOver([], k, vs) == 0
  {
    if |vs| > 0 {
      EmptyOver(k, vs[1..]);
    }
  }

  // ---------------------------------------------------------------------
  // Per-question statistics (`calculateStats`)

  datatype Distribution = Distribution(a: nat, b: nat, c: nat, d: nat)

  datatype QuestionStats = QuestionStats(
    question: Question,
    totalResponses: nat,
    correctCount: nat,
    incorrectCount: int,
    correctPercentage: nat,
    answerDistribution: Distribution)

  /** The statistics of one question. */
  function StatsFor(q: Question, rs: seq<Response>): (s: QuestionStats)
    ensures s.question == q
    ensures s.totalResponses == |ResponsesTo(rs, q.id)|
    ensures s.correctCount == CorrectCount(ResponsesTo(rs, q.id))
    ensures s.correctCount + s.incorrectCount == s.totalResponses
    ensures 0 <= s.incorrectCount && s.correctCount <= s.totalResponses
    ensures s.totalResponses == 0 ==> s.correctPercentage == 0
    ensures s.totalResponses > 0 ==>
      2 * s.totalResponses * s.correctPercentage
        <= 200 * s.correctCount + s.totalResponses
        < 2 * s.totalResponses * (s.correctPercentage + 1)
    ensures s.correctPercentage <= 100
    ensures var d := s.answerDistribution;
      d.a <= s.totalResponses && d.b <= s.totalResponses
      && d.c <= s.totalResponses && d.d <= s.totalResponses
    ensures (forall r :: r in rs && r.questionId == q.id ==> r.selectedAnswer in Labels) ==>
      var d := s.answerDistribution;
      d.a + d.b + d.c + d.d == s.totalResponses
  {
    var qr := ResponsesTo(rs, q.id);
    var correct := CorrectCount(qr);
    var total := |qr|;
    LabelCountsPartition(qr);
    LabelledResponsesCovered(rs, q.id);
    QuestionStats(
      q,
      total,
      correct,
      total - correct,
      if total > 0 then RoundedPercent(correct, total) else 0,
      Distribution(LabelCount(qr, "A"), LabelCount(qr, "B"), LabelCount(qr, "C"), LabelCount(qr, "D")))
  }

  /** `questions.map(question => ...)`: one entry per question, in order. */
  function QuestionStatsList(qs: seq<Question>, rs: seq<Response>): (stats: seq<QuestionStats>)
    ensures |stats| == |qs|
    ensures forall i :: 0 <= i < |qs| ==> stats[i].question == qs[i]
    ensures forall i :: 0 <= i < |qs| ==>
      stats[i].correctCount + stats[i].incorrectCount == stats[i].totalResponses
    ensures forall i :: 0 <= i < |qs| ==> stats[i] == StatsFor(qs[i], rs)
  {
    if |qs| == 0 then [] else [StatsFor(qs[0], rs)] + QuestionStatsList(qs[1..], rs)
  }

  function Names(rs: seq<Response>): (names: seq<string>)
    ensures |names| == |rs|
    ensures forall i :: 0 <= i < |rs| ==> names[i] == rs[i].participantName
  {
    if |rs| == 0 then [] else [rs[0].participantName] + Names(rs[1..])
  }

  lemma NamesMembers(rs: seq<Response>)
    ensures forall p :: p in Names(rs) <==> exists r :: r in rs && r.participantName == p
  {
    var names := Names(rs);
    forall p | p in names ensures exists r :: r in rs && r.participantName == p {
      var i :| 0 <= i < |names| && names[i] == p;
      assert rs[i] in rs;
    }
    forall r | r in rs ensures r.participantName in names {
      var i :| 0 <= i < |rs| && rs[i] == r;
      assert names[i] == r.participantName;
    }
  }

  /** The participant names in order of first response:
      `Array.from(new Set(responses.map(r => r.participant_name)))`. */
  function Participants(rs: seq<Response>): (ps: seq<string>)
    ensures NoDups(ps)
    ensures forall p :: p in ps <==> exists r :: r in rs && r.participantName == p
    ensures |ps| == 0 <==> |rs| == 0
  {
    NamesMembers(rs);
    var ps := Dedup(Names(rs));
    if |rs| > 0 then
      assert rs[0] in rs;
      assert rs[0].participantName in ps;
      ps
    else ps
  }

  /** The number of participants is the number of distinct names. */
  lemma DistinctParticipants(rs: seq<Response>)
    ensures |Participants(rs)| == |set r | r in rs :: r.participantName|
  {
    var ps := Participants(rs);
    NoDupsCardinality(ps);
    assert (set p | p in ps) == (set r | r in rs :: r.participantName);
  }

  /** The average score: the mean over the participants of
      `(correct answers / questions) * 100`, rounded. With `P` participants,
      `Q` questions and `c_p` correct answers for participant `p`, that mean
      is exactly `100 * (sum of c_p) / (Q * P)`. It is left as it was when
      there is no participant or no question; otherwise the sum of the
      participants' correct answers is the number of correct responses. */
  function AverageScore(prior: nat, qs: seq<Question>, rs: seq<Response>): (avg: nat)
    ensures |qs| == 0 || |rs| == 0 ==> avg == prior
    ensures |qs| > 0 && |rs| > 0 ==>
      var n := |qs| * |Participants(rs)|;
      n > 0 && avg == RoundedRatio(100 * CorrectCount(rs), n)
  {
    var ps := Participants(rs);
    if |ps| > 0 && |qs| > 0 then
      Partition(rs, ByParticipant, ps);
      PositiveProduct(|qs|, |ps|);
      RoundedRatio(100 * CorrectOver(rs, ByParticipant, ps), |qs| * |ps|)
    else prior
  }

  lemma PositiveProduct(a: nat, b: nat)
    requires a > 0 && b > 0
    ensures a * b > 0
  {
    ScaledMonotone(a, 1, b);
  }

  /** The page state `calculateStats` writes. */
  datatype ResultsView = ResultsView(
    totalParticipants: nat,
    averageScore: nat,
    questionStats: seq<QuestionStats>)

  /** `calculateStats`: the participant count, the average score and the
      per-question statistics. */
  function CalculateStats(view: ResultsView, qs: seq<Question>, rs: seq<Response>): (v: ResultsView)
    ensures v.totalParticipants == |set r | r in rs :: r.participantName|
    ensures v.totalParticipants == 0 <==> |rs| == 0
    ensures v.averageScore == AverageScore(view.averageScore, qs, rs)
    ensures |v.questionStats| == |qs|
    ensures forall i :: 0 <= i < |qs| ==> v.questionStats[i] == StatsFor(qs[i], rs)
  {
    DistinctParticipants(rs);
    ResultsView(|Participants(rs)|, AverageScore(view.averageScore, qs, rs), QuestionStatsList(qs, rs))
  }

  /** When no participant has more correct responses than the quiz has
      questions, the average score is a percentage. */
  lemma AverageScoreAtMost100(prior: nat, qs: seq<Question>, rs: seq<Response>)
    requires |qs| > 0 && |rs| > 0
    requires forall p :: CorrectCount(ResponsesBy(rs, p)) <= |qs|
    ensures AverageScore(prior, qs, rs) <= 100
  {
    var ps := Participants(rs);
    Partition(rs, ByParticipant, ps);
    CorrectOverBound(rs, ps, |qs|);
    var n := |qs| * |ps|;
    var c := CorrectCount(rs);
    assert c <= n;
    ScaledMonotone(100, c, n);
    PositiveProduct(|qs|, |ps|);
    RatioAtMost(100 * c, n, 100);
  }

  /** A ratio whose numerator is at most `k` times its denominator rounds
      to at most `k`. */
  lemma RatioAtMost(num: nat, den: nat, k: nat)
    requires den > 0 && num <= k * den
    ensures RoundedRatio(num, den) <= k
  {
    var r := RoundedRatio(num, den);
    if r > k {
      ScaledMonotone(2 * den, k + 1, r);
    }
  }

  lemma {:induction false} CorrectOverBound(rs: seq<Response>, ps: seq<string>, bound: nat)
    requires forall p :: CorrectCount(ResponsesBy(rs, p)) <= bound
    ensures CorrectOver(rs, ByParticipant, ps) <= |ps| * bound
  {
    if |ps| > 0 {
      CorrectOverBound(rs, ps[1..], bound);
      assert CorrectCount(ResponsesBy(rs, ps[0])) <= bound;
      assert (|ps| - 1) * bound + bound == |ps| * bound;
    }
  }

  // ---------------------------------------------------------------------
  // Overall totals and accuracy

  datatype Overall = Overall(totalCorrect: nat, totalResponses: nat)

  function SumCorrect(stats: seq<QuestionStats>): nat {
    if |stats| == 0 then 0 else stats[0].correctCount + SumCorrect(stats[1..])
  }

  function SumTotal(stats: seq<QuestionStats>): (n: nat)
    ensures (forall i :: 0 <= i < |stats| ==> stats[i].correctCount <= stats[i].totalResponses)
      ==> SumCorrect(stats) <= n
  {
    if |stats| == 0 then 0 else stats[0].totalResponses + SumTotal(stats[1..])
  }

  /** `overallStats`: the summed correct and total counts of all questions. */
  function OverallStats(stats: seq<QuestionStats>): (o: Overall)
    ensures (forall i :: 0 <= i < |stats| ==> stats[i].correctCount <= stats[i].totalResponses)
      ==> o.totalCorrect <= o.totalResponses
    ensures |stats| == 0 ==> o == Overall(0, 0)
  {
    if |stats| > 0 then Overall(SumCorrect(stats), SumTotal(stats)) else Overall(0, 0)
  }

  /** The "Overall Accuracy" percentage. */
  function Accuracy(o: Overall): (p: nat)
    ensures o.totalResponses == 0 ==> p == 0
    ensures o.totalCorrect <= o.totalResponses ==> p <= 100
    ensures o.totalResponses > 0 ==>
      2 * o.totalResponses * p <= 200 * o.totalCorrect + o.totalResponses
        < 2 * o.totalResponses * (p + 1)
  {
    if o.totalResponses > 0 then RoundedPercent(o.totalCorrect, o.totalResponses) else 0
  }

  function Ids(qs: seq<Question>): (ids: seq<string>)
    ensures |ids| == |qs|
    ensures forall i :: 0 <= i < |qs| ==> ids[i] == qs[i].id
  {
    if |qs| == 0 then [] else [qs[0].id] + Ids(qs[1..])
  }

  lemma {:induction false} StatsSums(qs: seq<Question>, rs: seq<Response>)
    ensures SumTotal(QuestionStatsList(qs, rs)) == CountOver(rs, ByQuestion, Ids(qs))
    ensures SumCorrect(QuestionStatsList(qs, rs)) == CorrectOver(rs, ByQuestion, Ids(qs))
  {
    if |qs| > 0 {
      StatsSums(qs[1..], rs);
      assert Ids(qs)[1..] == Ids(qs[1..]);
      assert QuestionStatsList(qs, rs)[1..] == QuestionStatsList(qs[1..], rs);
    }
  }

  /** The overall totals count every response and every correct response
      once, when the question ids are distinct and every response answers a
      question of the quiz. */
  lemma OverallCountsEveryResponse(view: ResultsView, qs: seq<Question>, rs: seq<Response>)
    requires NoDups(Ids(qs))
    requires forall r :: r in rs ==> exists q :: q in qs && q.id == r.questionId
    ensures OverallStats(CalculateStats(view, qs, rs).questionStats) == Overall(CorrectCount(rs), |rs|)
  {
    var stats := CalculateStats(view, qs, rs).questionStats;
    assert stats == QuestionStatsList(qs, rs);
    forall r | r in rs ensures KeyOf(r, ByQuestion) in Ids(qs) {
      var q :| q in qs && q.id == r.questionId;
      var i :| 0 <= i < |qs| && qs[i] == q;
      assert Ids(qs)[i] == r.questionId;
    }
    Partition(rs, ByQuestion, Ids(qs));
    StatsSums(qs, rs);
  }

  // ---------------------------------------------------------------------
  // CSV export (`exportToCSV`)

  const CsvHeader: string := "Participant,Question,Selected Answer,Correct Answer,Is Correct\n"

  /** `questions.find(q => q.id === id)`. */
  function FindQuestion(qs: seq<Question>, id: string): (r: Option<Question>)
    ensures r.Some? ==> r.value in qs && r.value.id == id
    ensures r.None? ==> forall q :: q in qs ==> q.id != id
  {
    if |qs| == 0 then None else if qs[0].id == id then Some(qs[0]) else FindQuestion(qs[1..], id)
  }

  /** The five fields of a response's row. A missing question, or one with
      an empty text, shows as 'Unknown'; a missing question, or one with an
      empty correct answer, shows an empty correct answer. */
  function RowFields(qs: seq<Question>, r: Response): (fs: seq<string>)
    ensures |fs| == 5
    ensures fs[0] == r.participantName && fs[2] == r.selectedAnswer
    ensures fs[4] == (if r.isCorrect then "Yes" else "No")
    ensures var q := FindQuestion(qs, r.questionId);
      fs[1] == (if q.Some? && q.value.text != "" then q.value.text else "Unknown")
      && fs[3] == (if q.Some? then q.value.correctAnswer else "")
  {
    var q := FindQuestion(qs, r.questionId);
    [ r.participantName,
      if q.Some? && q.value.text != "" then q.value.text else "Unknown",
      r.selectedAnswer,
      if q.Some? then q.value.correctAnswer else "",
      if r.isCorrect then "Yes" else "No" ]
  }

  /** `` `"${field}"` ``: the field between double quotes, as written. */
  function Quote(f: string): string {
    "\"" + f + "\""
  }

  /** `xs.join(sep)`. */
  function JoinWith(sep: string, xs: seq<string>): string {
    if |xs| == 0 then "" else if |xs| == 1 then xs[0] else xs[0] + sep + JoinWith(sep, xs[1..])
  }

  function QuoteAll(fs: seq<string>): (out: seq<string>)
    ensures |out| == |fs|
    ensures forall i :: 0 <= i < |fs| ==> out[i] == Quote(fs[i])
  {
    if |fs| == 0 then [] else [Quote(fs[0])] + QuoteAll(fs[1..])
  }

  /** One CSV row, as the page builds it. */
  function CsvRow(qs: seq<Question>, r: Response): string {
    JoinWith(",", QuoteAll(RowFields(qs, r)))
  }

  function CsvRows(qs: seq<Question>, rs: seq<Response>): (rows: seq<string>)
    ensures |rows| == |rs|
    ensures forall i :: 0 <= i < |rs| ==> rows[i] == CsvRow(qs, rs[i])
  {
    if |rs| == 0 then [] else [CsvRow(qs, rs[0])] + CsvRows(qs, rs[1..])
  }

  /** The exported text: nothing when there are no responses, otherwise
      the fixed header followed by the rows, one per response in ledger
      order, separated by line breaks. As long as no field holds a line
      break, splitting what follows the header at the line breaks gives
      back exactly the rows. */
  function ExportCsv(qs: seq<Question>, rs: seq<Response>): (csv: Option<string>)
    ensures csv.None? <==> |rs| == 0
    ensures csv.Some? ==> CsvHeader <= csv.value
    ensures csv.Some? && (forall r, f :: r in rs && f in RowFields(qs, r) ==> '\n' !in f) ==>
      Split(csv.value[|CsvHeader|..], '\n') == CsvRows(qs, rs)
  {
    if |rs| == 0 then None
    else
      var rows := CsvRows(qs, rs);
      var body := JoinWith("\n", rows);
      RowsWithoutLineBreaks(qs, rs);
      if forall r, f :: r in rs && f in RowFields(qs, r) ==> '\n' !in f then
        SplitJoin(rows, '\n');
        assert (CsvHeader + body)[|CsvHeader|..] == body;
        Some(CsvHeader + body)
      else
        Some(CsvHeader + body)
  }

  /** `s.split(c)`. */
  function Split(s: string, c: char): (parts: seq<string>)
    ensures |parts| > 0
  {
    if |s| == 0 then [""]
    else
      var rest := Split(s[1..], c);
      if s[0] == c then [""] + rest else [[s[0]] + rest[0]] + rest[1..]
  }

  lemma {:induction false} SplitNoSeparator(a: string, c: char)
    requires c !in a
    ensures Split(a, c) == [a]
  {
    if |a| > 0 {
      assert c !in a[1..];
      SplitNoSeparator(a[1..], c);
      assert [a[0]] + a[1..] == a;
    }
  }

  lemma {:induction false} SplitAtSeparator(a: string, b: string, c: char)
    requires c !in a
    ensures Split(a + [c] + b, c) == [a] + Split(b, c)
  {
    if |a| == 0 {
      assert a + [c] + b == [c] + b;
      assert ([c] + b)[1..] == b;
    } else {
      assert (a + [c] + b)[1..] == a[1..] + [c] + b;
      assert c !in a[1..];
      SplitAtSeparator(a[1..], b, c);
      assert [a[0]] + a[1..] == a;
    }
  }

  /** Splitting joined lines gives the lines back when none holds the
      separator. */
  lemma {:induction false} SplitJoin(xs: seq<string>, c: char)
    requires |xs| > 0
    requires forall x :: x in xs ==> c !in x
    ensures Split(JoinWith([c], xs), c) == xs
  {
    if |xs| == 1 {
      SplitNoSeparator(xs[0], c);
    } else {
      assert forall x :: x in xs[1..] ==> x in xs;
      SplitJoin(xs[1..], c);
      assert xs[0] in xs;
      SplitAtSeparator(xs[0], JoinWith([c], xs[1..]), c);
      assert [xs[0]] + xs[1..] == xs;
    }
  }

  /** A row holds no line break unless one of its fields does. */
  lemma RowsWithoutLineBreaks(qs: seq<Question>, rs: seq<Response>)
    ensures (forall r, f :: r in rs && f in RowFields(qs, r) ==> '\n' !in f) ==>
      forall row :: row in CsvRows(qs, rs) ==> '\n' !in row
  {
    if forall r, f :: r in rs && f in RowFields(qs, r) ==> '\n' !in f {
      forall row | row in CsvRows(qs, rs) ensures '\n' !in row {
        var i :| 0 <= i < |rs| && CsvRows(qs, rs)[i] == row;
        assert rs[i] in rs;
        QuotedFieldsWithout(RowFields(qs, rs[i]), '\n');
      }
    }
  }

  lemma {:induction false} QuotedFieldsWithout(fs: seq<string>, c: char)
    requires c != '"' && c != ','
    requires forall f :: f in fs ==> c !in f
    ensures c !in JoinWith(",", QuoteAll(fs))
  {
    if |fs| > 1 {
      assert forall f :: f in fs[1..] ==> f in fs;
      QuotedFieldsWithout(fs[1..], c);
      assert QuoteAll(fs)[1..] == QuoteAll(fs[1..]);
      assert fs[0] in fs;
    } else if |fs| == 1 {
      assert fs[0] in fs;
    }
  }

  // ---------------------------------------------------------------------
  // Quoting: as written, and with embedded quotes doubled

  /** As written, a field is wrapped in quotes but a quote inside it is not
      doubled, so two different responses of one export can come out as the
      very same row: here a participant named `a","b` answering a question
      with text `c`, and a participant named `a` answering another question
      of the same quiz, with text `b","c`. */
  lemma QuotedRowsCollide()
    ensures
      var qs := [Question("q1", "z", "c", "1", "2", "3", "4", "A", 0),
                 Question("q2", "z", "b\",\"c", "1", "2", "3", "4", "A", 1)];
      var r1 := Response("s", "q1", "a\",\"b", "A", true);
      var r2 := Response("s", "q2", "a", "A", true);
      RowFields(qs, r1) != RowFields(qs, r2) && CsvRow(qs, r1) == CsvRow(qs, r2)
  {
    var qs := [Question("q1", "z", "c", "1", "2", "3", "4", "A", 0),
               Question("q2", "z", "b\",\"c", "1", "2", "3", "4", "A", 1)];
    var r1 := Response("s", "q1", "a\",\"b", "A", true);
    var r2 := Response("s", "q2", "a", "A", true);
    assert FindQuestion(qs, "q1") == Some(qs[0]);
    assert FindQuestion(qs[1..], "q2") == Some(qs[1]);
    var f1 := RowFields(qs, r1);
    var f2 := RowFields(qs, r2);
    assert f1 == ["a\",\"b", "c", "A", "A", "Yes"];
    assert f2 == ["a", "b\",\"c", "A", "A", "Yes"];
    JoinFive(QuoteAll(f1));
    JoinFive(QuoteAll(f2));
    assert Quote(f1[0]) + "," + Quote(f1[1]) == Quote(f2[0]) + "," + Quote(f2[1]);
  }

  lemma JoinFive(xs: seq<string>)
    requires |xs| == 5
    ensures JoinWith(",", xs) == xs[0] + "," + xs[1] + "," + xs[2] + "," + xs[3] + "," + xs[4]
  {
    assert JoinWith(",", xs[4..]) == xs[4];
    assert JoinWith(",", xs[3..]) == xs[3] + "," + xs[4] by {
      assert xs[3..][1..] == xs[4..];
    }
    assert JoinWith(",", xs[2..]) == xs[2] + "," + xs[3] + "," + xs[4] by {
      assert xs[2..][1..] == xs[3..];
    }
    assert JoinWith(",", xs[1..]) == xs[1] + "," + xs[2] + "," + xs[3] + "," + xs[4] by {
      assert xs[1..][1..] == xs[2..];
    }
  }

  /** A field's text with every quote doubled. */
  function Escape(f: string): (e: string)
    ensures '"' !in f ==> e == f
  {
    if |f| == 0 then ""
    else (if f[0] == '"' then "\"\"" else [f[0]]) + Escape(f[1..])
  }

  function EscapeAll(fs: seq<string>): (out: seq<string>)
    ensures |out| == |fs|
    ensures forall i :: 0 <= i < |fs| ==> out[i] == Quote(Escape(fs[i]))
  {
    if |fs| == 0 then [] else [Quote(Escape(fs[0]))] + EscapeAll(fs[1..])
  }

  /** One CSV row with embedded quotes doubled. */
  function CsvRowEscaped(qs: seq<Question>, r: Response): string {
    JoinWith(",", EscapeAll(RowFields(qs, r)))
  }

  /** Reads a quoted field's text up to its closing quote, a doubled quote
      standing for one quote; gives the text and what follows the closing
      quote. */
  function ReadQuoted(s: string): (r: Option<(string, string)>)
    ensures r.Some? ==> |r.value.1| < |s|
  {
    if |s| == 0 then None
    else if s[0] == '"' then
      if |s| > 1 && s[1] == '"' then
        match ReadQuoted(s[2..])
        case None => None
        case Some(fr) => Some(("\"" + fr.0, fr.1))
      else Some(("", s[1..]))
    else
      match ReadQuoted(s[1..])
      case None => None
      case Some(fr) => Some(([s[0]] + fr.0, fr.1))
  }

  /** Reads a row of comma-separated quoted fields. */
  function ParseRow(line: string): Option<seq<string>>
    decreases |line|
  {
    if |line| == 0 || line[0] != '"' then None
    else
      match ReadQuoted(line[1..])
      case None => None
      case Some(fr) =>
        if fr.1 == "" then Some([fr.0])
        else if fr.1[0] != ',' then None
        else
          match ParseRow(fr.1[1..])
          case None => None
          case Some(fs) => Some([fr.0] + fs)
  }

  lemma {:induction false} ReadEscaped(f: string, tail: string)
    requires |tail| == 0 || tail[0] != '"'
    ensures ReadQuoted(Escape(f) + "\"" + tail) == Some((f, tail))
  {
    var s := Escape(f) + "\"" + tail;
    if |f| == 0 {
      assert s == "\"" + tail;
      assert s[1..] == tail;
    } else {
      ReadEscaped(f[1..], tail);
      var rest := Escape(f[1..]) + "\"" + tail;
      if f[0] == '"' {
        assert s == "\"\"" + rest;
        assert s[2..] == rest;
        assert "\"" + f[1..] == f;
      } else {
        assert s == [f[0]] + rest;
        assert s[1..] == rest;
        assert [f[0]] + f[1..] == f;
      }
    }
  }

  /** Reading an escaped row gives its fields back. */
  lemma {:induction false} ParseEscapedRow(fs: seq<string>)
    requires |fs| > 0
    ensures ParseRow(JoinWith(",", EscapeAll(fs))) == Some(fs)
  {
    var line := JoinWith(",", EscapeAll(fs));
    if |fs| == 1 {
      ReadEscaped(fs[0], "");
      assert line == "\"" + (Escape(fs[0]) + "\"" + "");
      assert [fs[0]] == fs;
    } else {
      var rest := JoinWith(",", EscapeAll(fs[1..]));
      assert EscapeAll(fs)[1..] == EscapeAll(fs[1..]);
      assert line == "\"" + (Escape(fs[0]) + "\"" + ("," + rest));
      ReadEscaped(fs[0], "," + rest);
      ParseEscapedRow(fs[1..]);
      assert ("," + rest)[1..] == rest;
      assert [fs[0]] + fs[1..] == fs;
    }
  }

  /** With quotes doubled, every exported row reads back as the five fields
      of its response, so different responses give different rows. */
  lemma EscapedRowDecodes(qs: seq<Question>, r: Response)
    ensures ParseRow(CsvRowEscaped(qs, r)) == Some(RowFields(qs, r))
  {
    ParseEscapedRow(RowFields(qs, r));
  }

  /** Doubling quotes changes no row whose fields hold no quote. */
  lemma EscapedRowAgreesWithoutQuotes(qs: seq<Question>, r: Response)
    requires forall f :: f in RowFields(qs, r) ==> '"' !in f
    ensures CsvRowEscaped(qs, r) == CsvRow(qs, r)
  {
    var fs := RowFields(qs, r);
    assert forall i :: 0 <= i < |fs| ==> fs[i] in fs;
    assert EscapeAll(fs) == QuoteAll(fs);
  }

  function CsvRowsEscaped(qs: seq<Question>, rs: seq<Response>): (rows: seq<string>)
    ensures |rows| == |rs|
    ensures forall i :: 0 <= i < |rs| ==> rows[i] == CsvRowEscaped(qs, rs[i])
  {
    if |rs| == 0 then [] else [CsvRowEscaped(qs, rs[0])] + CsvRowsEscaped(qs, rs[1..])
  }

  /** The export with quotes doubled: the same header and row order, and
      every row reads back as its response's fields. */
  function ExportCsvEscaped(qs: seq<Question>, rs: seq<Response>): (csv: Option<string>)
    ensures csv.None? <==> |rs| == 0
    ensures csv.Some? ==> CsvHeader <= csv.value
    ensures csv.Some? ==> csv.value == CsvHeader + JoinWith("\n", CsvRowsEscaped(qs, rs))
    ensures forall i :: 0 <= i < |rs| ==> ParseRow(CsvRowsEscaped(qs, rs)[i]) == Some(RowFields(qs, rs[i]))
  {
    EscapedRowsDecode(qs, rs);
    if |rs| == 0 then None else Some(CsvHeader + JoinWith("\n", CsvRowsEscaped(qs, rs)))
  }

  lemma EscapedRowsDecode(qs: seq<Question>, rs: seq<Response>)
    ensures forall i :: 0 <= i < |rs| ==> ParseRow(CsvRowsEscaped(qs, rs)[i]) == Some(RowFields(qs, rs[i]))
  {
    forall i | 0 <= i < |rs| ensures ParseRow(CsvRowsEscaped(qs, rs)[i]) == Some(RowFields(qs, rs[i])) {
      EscapedRowDecodes(qs, rs[i]);
    }
  }
}
