/**
 * The dashboard's reports: over the sessions a host created, the session
 * totals, the response totals, and one line per quiz (in the order the
 * quizzes first appear among the sessions) with its session and response
 * counts.
 */
module Reports {
  import opened Common
  import opened Domain
  import opened Results

  /** A session as the reports read it: its id, status and quiz. */
  datatype ReportSession = ReportSession(id: string, status: Status, quizId: string, quizTitle: string)

  /** A value of the page's quiz map, with its key. */
  datatype QuizEntry = QuizEntry(quizId: string, title: string, sessions: nat, responses: nat)

  datatype QuizPerformance = QuizPerformance(quizTitle: string, sessionCount: nat, totalResponses: nat)

  datatype Report = Report(
    totalSessions: nat,
    completedSessions: nat,
    totalParticipants: nat,
    averageResponsesPerSession: nat,
    quizPerformance: seq<QuizPerformance>)

  /** The report before anything is loaded. */
  const EmptyReport := Report(0, 0, 0, 0, [])

  // ---------------------------------------------------------------------
  // Counting

  /** The exact count of responses of one session. */
  function SessionCount(rs: seq<Response>, id: string): nat {
    |Keyed(rs, BySession, id)|
  }

  function SessionIds(ss: seq<ReportSession>): (ids: seq<string>)
    ensures |ids| == |ss| && forall i :: 0 <= i < |ss| ==> ids[i] == ss[i].id
  {
    seq(|ss|, i requires 0 <= i < |ss| => ss[i].id)
  }

  function QuizIds(ss: seq<ReportSession>): (ids: seq<string>)
    ensures |ids| == |ss| && forall i :: 0 <= i < |ss| ==> ids[i] == ss[i].quizId
  {
    seq(|ss|, i requires 0 <= i < |ss| => ss[i].quizId)
  }

  /** The sessions with status 'ended'. */
  function Completed(ss: seq<ReportSession>): (n: nat)
    ensures n <= |ss|
    ensures n == |ss| <==> forall i :: 0 <= i < |ss| ==> ss[i].status == Ended
    ensures n == 0 <==> forall i :: 0 <= i < |ss| ==> ss[i].status != Ended
  {
    if |ss| == 0 then 0 else (if ss[0].status == Ended then 1 else 0) + Completed(ss[1..])
  }

  /** The count of responses whose session is listed in `ids`. */
  function InSessions(rs: seq<Response>, ids: seq<string>): (n: nat)
    ensures n <= |rs|
  {
    if |rs| == 0 then 0 else (if rs[0].sessionId in ids then 1 else 0) + InSessions(rs[1..], ids)
  }

  /** The response total: no query (and 0) without sessions, otherwise the
      exact count over the listed sessions. */
  function TotalResponses(ss: seq<ReportSession>, rs: seq<Response>): (n: nat)
    ensures |ss| == 0 ==> n == 0
    ensures n <= |rs|
  {
    if |ss| > 0 then InSessions(rs, SessionIds(ss)) else 0
  }

  // ---------------------------------------------------------------------
  // The quiz map

  /** The position of the entry for `quizId`, or -1. */
  function Find(es: seq<QuizEntry>, quizId: string): (k: int)
    ensures -1 <= k < |es|
    ensures k >= 0 ==> es[k].quizId == quizId
    ensures k == -1 <==> forall j :: 0 <= j < |es| ==> es[j].quizId != quizId
  {
    if |es| == 0 then -1
    else if es[|es| - 1].quizId == quizId then |es| - 1
    else Find(es[..|es| - 1], quizId)
  }

  function EntryIds(es: seq<QuizEntry>): (ids: seq<string>)
    ensures |ids| == |es| && forall i :: 0 <= i < |es| ==> ids[i] == es[i].quizId
  {
    seq(|es|, i requires 0 <= i < |es| => es[i].quizId)
  }

  /** One loop iteration: create the quiz's entry on first sight (with this
      session's title), then add one session and its response count. */
  function AddSession(es: seq<QuizEntry>, s: ReportSession, count: nat): (out: seq<QuizEntry>)
    ensures var k := Find(es, s.quizId);
      && (k >= 0 ==> out == es[k := es[k].(sessions := es[k].sessions + 1, responses := es[k].responses + count)])
      && (k < 0 ==> out == es + [QuizEntry(s.quizId, s.quizTitle, 1, count)])
  {
    var k := Find(es, s.quizId);
    if k >= 0 then es[k := es[k].(sessions := es[k].sessions + 1, responses := es[k].responses + count)]
    else es + [QuizEntry(s.quizId, s.quizTitle, 1, count)]
  }

  /** The quiz map after the loop over the sessions, in insertion order. */
  function Aggregate(ss: seq<ReportSession>, rs: seq<Response>): seq<QuizEntry> {
    if |ss| == 0 then []
    else
      var last := ss[|ss| - 1];
      AddSession(Aggregate(ss[..|ss| - 1], rs), last, SessionCount(rs, last.id))
  }

  function Performance(es: seq<QuizEntry>): (ps: seq<QuizPerformance>)
    ensures |ps| == |es|
    ensures forall i :: 0 <= i < |es| ==>
      ps[i] == QuizPerformance(es[i].title, es[i].sessions, es[i].responses)
  {
    seq(|es|, i requires 0 <= i < |es| => QuizPerformance(es[i].title, es[i].sessions, es[i].responses))
  }

  /** `fetchReports`, given the host's sessions and the responses table.
      A failed sessions read keeps the report shown; otherwise every field
      is recomputed. The participant figure is the response total, not a
      count of distinct people. */
  function FetchReports(prior: Report, ss: seq<ReportSession>, rs: seq<Response>, read: Call): (r: Report)
    ensures read.Failed? ==> r == prior
    ensures read.Ok? ==>
      && r.totalSessions == |ss|
      && r.completedSessions == Completed(ss)
      && r.completedSessions <= r.totalSessions
      && r.totalParticipants == TotalResponses(ss, rs)
      && (|ss| == 0 ==> r.totalParticipants == 0 && r.averageResponsesPerSession == 0 && r.quizPerformance == [])
      && (|ss| > 0 ==>
            2 * |ss| * r.averageResponsesPerSession <= 2 * r.totalParticipants + |ss|
              < 2 * |ss| * (r.averageResponsesPerSession + 1))
      && r.quizPerformance == Performance(Aggregate(ss, rs))
  {
    if read.Failed? then prior
    else
      var total := TotalResponses(ss, rs);
      Report(
        |ss|,
        Completed(ss),
        total,
        if |ss| > 0 then RoundedRatio(total, |ss|) else 0,
        Performance(Aggregate(ss, rs)))
  }

  // ---------------------------------------------------------------------
  // Properties of the quiz map

  /** The sessions of one quiz, in order. */
  function OfQuiz(ss: seq<ReportSession>, quizId: string): seq<ReportSession> {
    if |ss| == 0 then []
    else OfQuiz(ss[..|ss| - 1], quizId) + (if ss[|ss| - 1].quizId == quizId then [ss[|ss| - 1]] else [])
  }

  /** The response counts of a list of sessions, added up. */
  function ResponsesOf(ss: seq<ReportSession>, rs: seq<Response>): nat {
    if |ss| == 0 then 0 else ResponsesOf(ss[..|ss| - 1], rs) + SessionCount(rs, ss[|ss| - 1].id)
  }

  /** An entry tells the truth about its quiz: its title is that of the
      quiz's first session, it counts the quiz's sessions, and it adds up
      their responses. */
  predicate Describes(e: QuizEntry, ss: seq<ReportSession>, rs: seq<Response>) {
    var mine := OfQuiz(ss, e.quizId);
    && |mine| > 0
    && e.title == mine[0].quizTitle
    && e.sessions == |mine|
    && e.responses == ResponsesOf(mine, rs)
  }

  lemma QuizIdsSnoc(ss: seq<ReportSession>)
    requires |ss| > 0
    ensures QuizIds(ss) == QuizIds(ss[..|ss| - 1]) + [ss[|ss| - 1].quizId]
    ensures SessionIds(ss) == SessionIds(ss[..|ss| - 1]) + [ss[|ss| - 1].id]
  {
  }

  /** One loop iteration adds the session's quiz to the ids when it is new
      and keeps them otherwise. */
  lemma AddSessionIds(es: seq<QuizEntry>, s: ReportSession, count: nat)
    ensures EntryIds(AddSession(es, s, count))
            == if s.quizId in EntryIds(es) then EntryIds(es) else EntryIds(es) + [s.quizId]
  {
    var k := Find(es, s.quizId);
    if k >= 0 {
      assert EntryIds(es)[k] == s.quizId;
    }
  }

  /** The quiz map has one entry per distinct quiz, in order of first
      appearance. */
  lemma {:induction false} AggregateIds(ss: seq<ReportSession>, rs: seq<Response>)
    ensures EntryIds(Aggregate(ss, rs)) == Dedup(QuizIds(ss))
  {
    if |ss| > 0 {
      var pre := ss[..|ss| - 1];
      var s := ss[|ss| - 1];
      AggregateIds(pre, rs);
      AddSessionIds(Aggregate(pre, rs), s, SessionCount(rs, s.id));
      QuizIdsSnoc(ss);
      DedupSnoc(QuizIds(pre), s.quizId);
    }
  }

  lemma {:induction false} NoneOfQuiz(ss: seq<ReportSession>, quizId: string)
    requires quizId !in QuizIds(ss)
    ensures OfQuiz(ss, quizId) == []
  {
    if |ss| > 0 {
      QuizIdsSnoc(ss);
      NoneOfQuiz(ss[..|ss| - 1], quizId);
    }
  }

  lemma ResponsesOfSnoc(xs: seq<ReportSession>, s: ReportSession, rs: seq<Response>)
    ensures ResponsesOf(xs + [s], rs) == ResponsesOf(xs, rs) + SessionCount(rs, s.id)
  {
    assert (xs + [s])[..|xs|] == xs;
  }

  /** The entry a session of an already seen quiz bumps still describes
      that quiz once the session is added. */
  lemma BumpDescribes(e: QuizEntry, ss: seq<ReportSession>, rs: seq<Response>)
    requires |ss| > 0 && ss[|ss| - 1].quizId == e.quizId
    requires Describes(e, ss[..|ss| - 1], rs)
    ensures var s := ss[|ss| - 1];
      Describes(e.(sessions := e.sessions + 1, responses := e.responses + SessionCount(rs, s.id)), ss, rs)
  {
    var s := ss[|ss| - 1];
    var mine := OfQuiz(ss[..|ss| - 1], e.quizId);
    assert OfQuiz(ss, e.quizId) == mine + [s];
    ResponsesOfSnoc(mine, s, rs);
  }

  /** The entry a session of a new quiz creates describes that quiz. */
  lemma NewDescribes(ss: seq<ReportSession>, rs: seq<Response>)
    requires |ss| > 0 && ss[|ss| - 1].quizId !in QuizIds(ss[..|ss| - 1])
    ensures var s := ss[|ss| - 1];
      Describes(QuizEntry(s.quizId, s.quizTitle, 1, SessionCount(rs, s.id)), ss, rs)
  {
    var s := ss[|ss| - 1];
    NoneOfQuiz(ss[..|ss| - 1], s.quizId);
    assert OfQuiz(ss, s.quizId) == [s];
    ResponsesOfSnoc([], s, rs);
  }

  /** An entry of another quiz is untouched by the session and still
      describes its quiz. */
  lemma OtherDescribes(e: QuizEntry, ss: seq<ReportSession>, rs: seq<Response>)
    requires |ss| > 0 && ss[|ss| - 1].quizId != e.quizId
    requires Describes(e, ss[..|ss| - 1], rs)
    ensures Describes(e, ss, rs)
  {
    assert OfQuiz(ss, e.quizId) == OfQuiz(ss[..|ss| - 1], e.quizId);
  }

  lemma AddSessionDescribes(es: seq<QuizEntry>, ss: seq<ReportSession>, rs: seq<Response>)
    requires |ss| > 0
    requires EntryIds(es) == Dedup(QuizIds(ss[..|ss| - 1]))
    requires forall i :: 0 <= i < |es| ==> Describes(es[i], ss[..|ss| - 1], rs)
    ensures var s := ss[|ss| - 1];
      var out := AddSession(es, s, SessionCount(rs, s.id));
      forall i :: 0 <= i < |out| ==> Describes(out[i], ss, rs)
  {
    var s := ss[|ss| - 1];
    var k := Find(es, s.quizId);
    var out := AddSession(es, s, SessionCount(rs, s.id));
    if k >= 0 {
      forall i | 0 <= i < |out|
        ensures Describes(out[i], ss, rs)
      {
        if i == k {
          BumpDescribes(es[k], ss, rs);
        } else {
          assert EntryIds(es)[i] != EntryIds(es)[k];
          OtherDescribes(es[i], ss, rs);
        }
      }
    } else {
      assert s.quizId !in EntryIds(es);
      forall i | 0 <= i < |out|
        ensures Describes(out[i], ss, rs)
      {
        if i == |es| {
          NewDescribes(ss, rs);
        } else {
          assert out[i] == es[i] && EntryIds(es)[i] == es[i].quizId;
          OtherDescribes(es[i], ss, rs);
        }
      }
    }
  }

  /** Each entry of the quiz map describes its quiz. */
  lemma {:induction false} AggregateDescribes(ss: seq<ReportSession>, rs: seq<Response>)
    ensures forall i :: 0 <= i < |Aggregate(ss, rs)| ==> Describes(Aggregate(ss, rs)[i], ss, rs)
  {
    if |ss| > 0 {
      var pre := ss[..|ss| - 1];
      AggregateDescribes(pre, rs);
      AggregateIds(pre, rs);
      AddSessionDescribes(Aggregate(pre, rs), ss, rs);
    }
  }

  /** The report's quiz lines: one per distinct quiz in order of first
      appearance, each with the title of the quiz's first session, the
      number of its sessions and their responses added up. */
  lemma QuizLines(prior: Report, ss: seq<ReportSession>, rs: seq<Response>)
    ensures var r := FetchReports(prior, ss, rs, Ok);
      var ids := Dedup(QuizIds(ss));
      && |r.quizPerformance| == |ids|
      && forall i :: 0 <= i < |ids| ==>
           var mine := OfQuiz(ss, ids[i]);
           |mine| > 0 && r.quizPerformance[i] == QuizPerformance(mine[0].quizTitle, |mine|, ResponsesOf(mine, rs))
  {
    AggregateIds(ss, rs);
    AggregateDescribes(ss, rs);
    var es := Aggregate(ss, rs);
    assert forall i :: 0 <= i < |es| ==> EntryIds(es)[i] == es[i].quizId;
  }

  function SumSessions(es: seq<QuizEntry>): nat {
    if |es| == 0 then 0 else SumSessions(es[..|es| - 1]) + es[|es| - 1].sessions
  }

  function SumResponses(es: seq<QuizEntry>): nat {
    if |es| == 0 then 0 else SumResponses(es[..|es| - 1]) + es[|es| - 1].responses
  }

  lemma {:induction false} SumsBump(es: seq<QuizEntry>, k: nat, count: nat)
    requires k < |es|
    ensures var out := es[k := es[k].(sessions := es[k].sessions + 1, responses := es[k].responses + count)];
      SumSessions(out) == SumSessions(es) + 1 && SumResponses(out) == SumResponses(es) + count
  {
    var out := es[k := es[k].(sessions := es[k].sessions + 1, responses := es[k].responses + count)];
    if k < |es| - 1 {
      assert out[..|out| - 1] == es[..|es| - 1][k := out[k]];
      SumsBump(es[..|es| - 1], k, count);
    } else {
      assert out[..|out| - 1] == es[..|es| - 1];
    }
  }

  lemma SumsSnoc(es: seq<QuizEntry>, e: QuizEntry)
    ensures SumSessions(es + [e]) == SumSessions(es) + e.sessions
    ensures SumResponses(es + [e]) == SumResponses(es) + e.responses
  {
    assert (es + [e])[..|es|] == es;
  }

  /** One loop iteration adds one session and its responses to the sums. */
  lemma AddSessionTotals(es: seq<QuizEntry>, s: ReportSession, count: nat)
    ensures SumSessions(AddSession(es, s, count)) == SumSessions(es) + 1
    ensures SumResponses(AddSession(es, s, count)) == SumResponses(es) + count
  {
    var k := Find(es, s.quizId);
    if k >= 0 {
      SumsBump(es, k, count);
    } else {
      SumsSnoc(es, QuizEntry(s.quizId, s.quizTitle, 1, count));
    }
  }

  /** The quiz lines' session counts add up to the number of sessions, and
      their response counts to the per-session counts added up. */
  lemma {:induction false} AggregateTotals(ss: seq<ReportSession>, rs: seq<Response>)
    ensures SumSessions(Aggregate(ss, rs)) == |ss|
    ensures SumResponses(Aggregate(ss, rs)) == ResponsesOf(ss, rs)
  {
    if |ss| > 0 {
      var pre := ss[..|ss| - 1];
      var s := ss[|ss| - 1];
      AggregateTotals(pre, rs);
      AddSessionTotals(Aggregate(pre, rs), s, SessionCount(rs, s.id));
    }
  }

  lemma {:induction false} CountOverSnoc(rs: seq<Response>, k: Key, vs: seq<string>, v: string)
    ensures CountOver(rs, k, vs + [v]) == CountOver(rs, k, vs) + |Keyed(rs, k, v)|
  {
    if |vs| == 0 {
      assert (vs + [v])[1..] == [];
    } else {
      assert (vs + [v])[1..] == vs[1..] + [v];
      CountOverSnoc(rs, k, vs[1..], v);
    }
  }

  lemma {:induction false} ResponsesOfIsCountOver(ss: seq<ReportSession>, rs: seq<Response>)
    ensures ResponsesOf(ss, rs) == CountOver(rs, BySession, SessionIds(ss))
  {
    if |ss| > 0 {
      var pre := ss[..|ss| - 1];
      ResponsesOfIsCountOver(pre, rs);
      QuizIdsSnoc(ss);
      CountOverSnoc(rs, BySession, SessionIds(pre), ss[|ss| - 1].id);
    }
  }

  lemma {:induction false} InSessionsIsCountOver(rs: seq<Response>, ids: seq<string>)
    requires NoDups(ids)
    ensures InSessions(rs, ids) == CountOver(rs, BySession, ids)
  {
    if |rs| == 0 {
      EmptyOver(BySession, ids);
    } else {
      InSessionsIsCountOver(rs[1..], ids);
      OverCons(rs, BySession, ids);
      HitsOfDistinct(ids, rs[0].sessionId);
    }
  }

  /** With distinct session ids the quiz lines account for exactly the
      responses the headline total counts. */
  lemma QuizLinesMatchTotal(ss: seq<ReportSession>, rs: seq<Response>)
    requires NoDups(SessionIds(ss))
    ensures SumResponses(Aggregate(ss, rs)) == TotalResponses(ss, rs)
  {
    AggregateTotals(ss, rs);
    ResponsesOfIsCountOver(ss, rs);
    if |ss| > 0 {
      InSessionsIsCountOver(rs, SessionIds(ss));
    } else {
      EmptyOver(BySession, []);
    }
  }

  /** The rounded average is 0 exactly when the total is below half the
      number of sessions. */
  lemma RoundsToZero(total: nat, n: nat)
    requires n > 0
    ensures RoundedRatio(total, n) == 0 <==> 2 * total < n
  {
    var r := RoundedRatio(total, n);
    if r > 0 {
      ScaledMonotone(2 * n, 1, r);
    }
  }

  /** The headline figures: completed sessions never exceed sessions, the
      participant figure is the response total, there is one quiz line per
      distinct quiz, the quiz lines add up to the sessions and to the
      response total, and the average is 0 exactly when there are no
      sessions or fewer than half a response per session. */
  lemma ReportFigures(prior: Report, ss: seq<ReportSession>, rs: seq<Response>)
    requires NoDups(SessionIds(ss))
    ensures var r := FetchReports(prior, ss, rs, Ok);
      && r.completedSessions == Completed(ss)
      && r.completedSessions <= r.totalSessions
      && r.totalParticipants == TotalResponses(ss, rs)
      && |r.quizPerformance| == |Dedup(QuizIds(ss))|
      && SumSessions(Aggregate(ss, rs)) == r.totalSessions
      && SumResponses(Aggregate(ss, rs)) == r.totalParticipants
      && (r.averageResponsesPerSession == 0 <==> |ss| == 0 || 2 * r.totalParticipants < |ss|)
  {
    AggregateIds(ss, rs);
    AggregateTotals(ss, rs);
    QuizLinesMatchTotal(ss, rs);
    if |ss| > 0 {
      RoundsToZero(TotalResponses(ss, rs), |ss|);
    }
  }
}
