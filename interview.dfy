/**
 * The interview orchestrator of `ralph prd`: it watches what the agent
 * process prints, answers each clarifying question (`Question N: ...`) with the
 * operator's next answer, and when the agent exits classifies the session as a
 * success (the agent printed `PRD JSON saved to ...`) or a failure (it exited
 * without that confirmation), in which case it prints a diagnostic that names
 * the agent and a `Troubleshooting:` section, exits non-zero and leaves no
 * artifact behind.
 *
 * `Observe` is one transition, `Replay` the whole session and `RunInterview` its
 * outcome; `Orchestrate` is the loop that drives the session line by line.
 */
module Interview {

  /** What the orchestrator sees the agent do: print a line, or write the
      artifact at the output path. The agent exiting is the end of the list. */
  datatype AgentEvent = Says(line: string) | WritesArtifact

  /** Phases of a session, from the moment the agent is spawned with the
      request. `AwaitingAnswer(k)`: `k` question markers seen so far. */
  datatype Phase = RequestSent | AwaitingAnswer(asked: nat) | Succeeded | FailedNoConfirmation

  /** One entry of the exchange with the agent: a line it printed (shown to the
      operator) or an answer forwarded to it. */
  datatype Entry = Shown(line: string) | Forwarded(answer: string)

  datatype Session = Session(
    phase: Phase,
    asked: nat,                // question markers seen before any confirmation
    delivered: seq<string>,    // answers forwarded, in order
    exchange: seq<Entry>,      // everything shown and forwarded, in order
    artifactWritten: bool)

  // The closed table of markers and messages.
  const QuestionLabel := "Question "
  const SaveConfirmation := "PRD JSON saved to"
  const FailureSuffix := " PRD session ended before PRD save confirmation."
  const TroubleshootingHeading := "Troubleshooting:"

  predicate IsDigit(ch: char)
  {
    '0' <= ch <= '9'
  }

  predicate DigitsThenColon(s: string)
    decreases |s|
  {
    |s| > 0 && (s[0] == ':' || (IsDigit(s[0]) && DigitsThenColon(s[1..])))
  }

  /** A question marker: the label, an ordinal of one or more digits, a colon. */
  predicate IsQuestion(line: string)
  {
    && QuestionLabel <= line
    && |line| > |QuestionLabel|
    && IsDigit(line[|QuestionLabel|])
    && DigitsThenColon(line[|QuestionLabel| + 1..])
  }

  /** The label, one digit and a colon make a question marker, whatever
      follows. */
  lemma QuestionMarker(d: char, rest: string)
    requires IsDigit(d)
    ensures IsQuestion(QuestionLabel + [d] + ":" + rest)
  {
    var line := QuestionLabel + [d] + ":" + rest;
    assert line[|QuestionLabel| + 1..] == ":" + rest;
  }

  predicate Contains(s: string, p: string)
    decreases |s|
  {
    p <= s || (|s| > 0 && Contains(s[1..], p))
  }

  /** A save confirmation: a line containing the confirmation phrase anywhere. */
  predicate IsSaveConfirmation(line: string)
  {
    Contains(line, SaveConfirmation)
  }

  predicate Terminal(p: Phase)
  {
    p.Succeeded? || p.FailedNoConfirmation?
  }

  /** Phases only move forward; the two terminal phases are equally far. */
  function Rank(p: Phase): nat
  {
    match p
    case RequestSent => 0
    case AwaitingAnswer(_) => 1
    case Succeeded => 2
    case FailedNoConfirmation => 2
  }

  /** The session right after the agent was spawned with the request. */
  function Spawned(): Session
  {
    Session(RequestSent, 0, [], [], false)
  }

  /** One thing the agent does. Every line is shown. Before a confirmation,
      a question marker makes the operator answer it (with the next answer
      still available) and a confirmation line ends the interview as a
      success; after a terminal phase, nothing but the showing happens. */
  function Observe(s: Session, answers: seq<string>, ev: AgentEvent): (r: Session)
    ensures Rank(r.phase) >= Rank(s.phase)
    ensures Terminal(s.phase) ==> r.phase == s.phase
    ensures r.phase.FailedNoConfirmation? ==> s.phase.FailedNoConfirmation?
    ensures s.exchange <= r.exchange && s.delivered <= r.delivered && s.asked <= r.asked
    ensures s.artifactWritten ==> r.artifactWritten
  {
    match ev
    case WritesArtifact => s.(artifactWritten := true)
    case Says(line) =>
      var shown := s.exchange + [Shown(line)];
      if Terminal(s.phase) then s.(exchange := shown)
      else if IsSaveConfirmation(line) then s.(phase := Succeeded, exchange := shown)
      else if IsQuestion(line) then
        var k := s.asked + 1;
        if |s.delivered| < |answers| then
          var a := answers[|s.delivered|];
          s.(phase := AwaitingAnswer(k), asked := k, delivered := s.delivered + [a],
             exchange := shown + [Forwarded(a)])
        else
          s.(phase := AwaitingAnswer(k), asked := k, exchange := shown)
      else s.(exchange := shown)
  }

  /** The session after the agent did everything in `t`. */
  function Replay(s: Session, answers: seq<string>, t: seq<AgentEvent>): (r: Session)
    ensures Rank(r.phase) >= Rank(s.phase)
    ensures Terminal(s.phase) ==> r.phase == s.phase
    ensures r.phase.FailedNoConfirmation? ==> s.phase.FailedNoConfirmation?
    ensures s.exchange <= r.exchange && s.delivered <= r.delivered && s.asked <= r.asked
    ensures s.artifactWritten ==> r.artifactWritten
    decreases |t|
  {
    if t == [] then s else Replay(Observe(s, answers, t[0]), answers, t[1..])
  }

  /** The agent's name as the diagnostic writes it: first letter upper-cased. */
  function DisplayName(agent: string): (r: string)
    ensures |r| == |agent|
    ensures |agent| > 0 ==> r[1..] == agent[1..]
    ensures |agent| > 0 && 'a' <= agent[0] <= 'z' ==> 'A' <= r[0] <= 'Z' && r[0] as int == agent[0] as int - 32
    ensures |agent| > 0 && !('a' <= agent[0] <= 'z') ==> r == agent
  {
    if agent != [] && 'a' <= agent[0] <= 'z' then [(agent[0] as int - 32) as char] + agent[1..]
    else agent
  }

  function FailureMessage(agent: string): string
  {
    DisplayName(agent) + FailureSuffix
  }

  /** The lines of the exchange that were shown, in order. */
  function ShownLines(x: seq<Entry>): seq<string>
  {
    if x == [] then []
    else (if x[0].Shown? then [x[0].line] else []) + ShownLines(x[1..])
  }

  /** The answers of the exchange, in order. */
  function Forwards(x: seq<Entry>): seq<string>
  {
    if x == [] then []
    else (if x[0].Forwarded? then [x[0].answer] else []) + Forwards(x[1..])
  }

  datatype Outcome = Outcome(
    phase: Phase,
    exitCode: int,
    output: seq<string>,
    exchange: seq<Entry>,
    delivered: seq<string>,
    artifactExists: bool)

  /** The agent has exited: classify the session. */
  function Conclude(s: Session, agent: string): (o: Outcome)
    ensures o.exitCode == 0 <==> s.phase.Succeeded?
    ensures o.phase.Succeeded? <==> s.phase.Succeeded?
    ensures ShownLines(s.exchange) <= o.output && o.delivered == s.delivered
    ensures s.phase.Succeeded? ==> o.artifactExists == s.artifactWritten
    ensures !s.phase.Succeeded? ==>
      && o.phase.FailedNoConfirmation? && !o.artifactExists
      && FailureMessage(agent) in o.output && TroubleshootingHeading in o.output
  {
    if s.phase.Succeeded? then
      Outcome(Succeeded, 0, ShownLines(s.exchange), s.exchange, s.delivered, s.artifactWritten)
    else
      var output := ShownLines(s.exchange) + [FailureMessage(agent), TroubleshootingHeading];
      assert output[|output| - 2] == FailureMessage(agent);
      assert output[|output| - 1] == TroubleshootingHeading;
      Outcome(FailedNoConfirmation, 1, output, s.exchange, s.delivered, false)
  }

  /** The outcome of a whole interview with `agent`, given the operator's
      answers and what the agent did until it exited. */
  function RunInterview(agent: string, answers: seq<string>, t: seq<AgentEvent>): (o: Outcome)
    ensures o.exitCode == 0 <==> o.phase.Succeeded?
    ensures o.artifactExists ==> o.phase.Succeeded?
  {
    Conclude(Replay(Spawned(), answers, t), agent)
  }

  // ---------------------------------------------------------------- properties

  /** Whether the agent printed a save confirmation at some point. */
  predicate Confirmed(t: seq<AgentEvent>)
  {
    exists i :: 0 <= i < |t| && t[i].Says? && IsSaveConfirmation(t[i].line)
  }

  lemma {:induction false} ReplayPhase(s: Session, answers: seq<string>, t: seq<AgentEvent>)
    requires !s.phase.FailedNoConfirmation?
    ensures !Replay(s, answers, t).phase.FailedNoConfirmation?
    ensures Replay(s, answers, t).phase.Succeeded? <==> s.phase.Succeeded? || Confirmed(t)
    decreases |t|
  {
    if t != [] {
      var s' := Observe(s, answers, t[0]);
      ReplayPhase(s', answers, t[1..]);
      assert forall j :: 0 <= j < |t| - 1 ==> t[1..][j] == t[j + 1];
    }
  }

  /** The interview succeeds, with exit status 0, exactly when the agent
      printed a save confirmation before exiting; otherwise it fails with a
      non-zero status, the diagnostic naming the agent, the troubleshooting
      heading, and no artifact at the output path. */
  lemma SucceedsIffConfirmed(agent: string, answers: seq<string>, t: seq<AgentEvent>)
    ensures RunInterview(agent, answers, t).phase.Succeeded? <==> Confirmed(t)
    ensures RunInterview(agent, answers, t).exitCode == 0 <==> Confirmed(t)
    ensures !Confirmed(t) ==>
      var o := RunInterview(agent, answers, t);
      && o.phase.FailedNoConfirmation?
      && FailureMessage(agent) in o.output
      && TroubleshootingHeading in o.output
      && !o.artifactExists
  {
    ReplayPhase(Spawned(), answers, t);
    var o := RunInterview(agent, answers, t);
    if !Confirmed(t) {
      assert o.output[|o.output| - 2] == FailureMessage(agent);
      assert o.output[|o.output| - 1] == TroubleshootingHeading;
    }
  }

  function Min(a: nat, b: nat): nat
  {
    if a <= b then a else b
  }

  /** Invariant of a session: the answers forwarded so far are the first ones,
      one per question marker while answers last, and each sits in the exchange
      right after the question line it answers. */
  ghost predicate InOrder(s: Session, answers: seq<string>)
  {
    && |s.delivered| == Min(s.asked, |answers|)
    && s.delivered == answers[..|s.delivered|]
    && Forwards(s.exchange) == s.delivered
    && forall i :: 0 <= i < |s.exchange| && s.exchange[i].Forwarded? ==>
         i > 0 && s.exchange[i - 1].Shown? && IsQuestion(s.exchange[i - 1].line)
  }

  lemma {:induction false} ForwardsAppend(x: seq<Entry>, y: seq<Entry>)
    ensures Forwards(x + y) == Forwards(x) + Forwards(y)
    decreases |x|
  {
    if x == [] {
      assert x + y == y;
    } else {
      assert (x + y)[0] == x[0] && (x + y)[1..] == x[1..] + y;
      ForwardsAppend(x[1..], y);
    }
  }

  lemma {:induction false} ShownLinesAppend(x: seq<Entry>, y: seq<Entry>)
    ensures ShownLines(x + y) == ShownLines(x) + ShownLines(y)
    decreases |x|
  {
    if x == [] {
      assert x + y == y;
    } else {
      assert (x + y)[0] == x[0] && (x + y)[1..] == x[1..] + y;
      ShownLinesAppend(x[1..], y);
    }
  }

  /** Showing a line keeps the order invariant. */
  lemma ShowKeepsOrder(s: Session, answers: seq<string>, line: string, r: Session)
    requires InOrder(s, answers)
    requires r.asked == s.asked && r.delivered == s.delivered
    requires r.exchange == s.exchange + [Shown(line)]
    ensures InOrder(r, answers)
  {
    ForwardsAppend(s.exchange, [Shown(line)]);
    assert Forwards([Shown(line)]) == [];
    forall i | 0 <= i < |r.exchange| && r.exchange[i].Forwarded?
      ensures i > 0 && r.exchange[i - 1].Shown? && IsQuestion(r.exchange[i - 1].line)
    {
      assert i < |s.exchange| && r.exchange[i] == s.exchange[i] && r.exchange[i - 1] == s.exchange[i - 1];
    }
  }

  /** A question shown and answered with the next answer keeps the order
      invariant. */
  lemma AnswerKeepsOrder(s: Session, answers: seq<string>, line: string, r: Session)
    requires InOrder(s, answers) && IsQuestion(line) && |s.delivered| < |answers|
    requires r.asked == s.asked + 1 && r.delivered == s.delivered + [answers[|s.delivered|]]
    requires r.exchange == s.exchange + [Shown(line)] + [Forwarded(answers[|s.delivered|])]
    ensures InOrder(r, answers)
  {
    var a := answers[|s.delivered|];
    var shown := s.exchange + [Shown(line)];
    ForwardsAppend(s.exchange, [Shown(line)]);
    assert Forwards([Shown(line)]) == [];
    ForwardsAppend(shown, [Forwarded(a)]);
    assert Forwards([Forwarded(a)]) == [a];
    assert answers[..|s.delivered| + 1] == answers[..|s.delivered|] + [a];
    forall i | 0 <= i < |r.exchange| && r.exchange[i].Forwarded?
      ensures i > 0 && r.exchange[i - 1].Shown? && IsQuestion(r.exchange[i - 1].line)
    {
      if i < |s.exchange| {
        assert r.exchange[i] == s.exchange[i] && r.exchange[i - 1] == s.exchange[i - 1];
      } else {
        assert i == |s.exchange| + 1 && r.exchange[i - 1] == Shown(line);
      }
    }
  }

  /** A question shown when the answers have run out keeps the order
      invariant: nothing is forwarded. */
  lemma UnansweredKeepsOrder(s: Session, answers: seq<string>, line: string, r: Session)
    requires InOrder(s, answers) && |s.delivered| >= |answers|
    requires r.asked == s.asked + 1 && r.delivered == s.delivered
    requires r.exchange == s.exchange + [Shown(line)]
    ensures InOrder(r, answers)
  {
    ShowKeepsOrder(s, answers, line, s.(exchange := r.exchange));
  }

  lemma ObserveKeepsOrder(s: Session, answers: seq<string>, ev: AgentEvent)
    requires InOrder(s, answers)
    ensures InOrder(Observe(s, answers, ev), answers)
  {
    var r := Observe(s, answers, ev);
    if ev.Says? {
      if !Terminal(s.phase) && !IsSaveConfirmation(ev.line) && IsQuestion(ev.line) {
        if |s.delivered| < |answers| {
          AnswerKeepsOrder(s, answers, ev.line, r);
        } else {
          UnansweredKeepsOrder(s, answers, ev.line, r);
        }
      } else {
        ShowKeepsOrder(s, answers, ev.line, r);
      }
    }
  }

  lemma {:induction false} ReplayKeepsOrder(s: Session, answers: seq<string>, t: seq<AgentEvent>)
    requires InOrder(s, answers)
    ensures InOrder(Replay(s, answers, t), answers)
    decreases |t|
  {
    if t != [] {
      ObserveKeepsOrder(s, answers, t[0]);
      ReplayKeepsOrder(Observe(s, answers, t[0]), answers, t[1..]);
    }
  }

  /** Question markers the agent printed before its first save confirmation. */
  function QuestionsAsked(t: seq<AgentEvent>): nat
  {
    if t == [] then 0
    else if t[0].Says? && IsSaveConfirmation(t[0].line) then 0
    else (if t[0].Says? && IsQuestion(t[0].line) then 1 else 0) + QuestionsAsked(t[1..])
  }

  lemma {:induction false} ReplayCountsQuestions(s: Session, answers: seq<string>, t: seq<AgentEvent>)
    ensures Terminal(s.phase) ==> Replay(s, answers, t).asked == s.asked
    ensures !Terminal(s.phase) ==> Replay(s, answers, t).asked == s.asked + QuestionsAsked(t)
    decreases |t|
  {
    if t != [] {
      ReplayCountsQuestions(Observe(s, answers, t[0]), answers, t[1..]);
    }
  }

  /** Answers are forwarded strictly in order: the `k`-th answer forwarded is
      the operator's `k`-th answer, it is forwarded right after a question
      marker is shown, and never more answers than questions. On failure the
      forwarded answers are reported as delivered all the same. */
  lemma AnswersForwardedInOrder(agent: string, answers: seq<string>, t: seq<AgentEvent>)
    ensures var o := RunInterview(agent, answers, t);
      && |o.delivered| == Min(QuestionsAsked(t), |answers|)
      && o.delivered == answers[..|o.delivered|]
      && Forwards(o.exchange) == o.delivered
      && forall i :: 0 <= i < |o.exchange| && o.exchange[i].Forwarded? ==>
           i > 0 && o.exchange[i - 1].Shown? && IsQuestion(o.exchange[i - 1].line)
  {
    ReplayKeepsOrder(Spawned(), answers, t);
    ReplayCountsQuestions(Spawned(), answers, t);
  }

  /** The lines the agent printed, in order. */
  function AgentLines(t: seq<AgentEvent>): seq<string>
  {
    if t == [] then [] else (if t[0].Says? then [t[0].line] else []) + AgentLines(t[1..])
  }

  /** One step shows the agent's line, if it printed one, and nothing else. */
  lemma ObserveShowsLine(s: Session, answers: seq<string>, ev: AgentEvent)
    ensures ShownLines(Observe(s, answers, ev).exchange)
         == ShownLines(s.exchange) + (if ev.Says? then [ev.line] else [])
  {
    var r := Observe(s, answers, ev);
    if ev.Says? {
      var shown := s.exchange + [Shown(ev.line)];
      ShownLinesAppend(s.exchange, [Shown(ev.line)]);
      assert ShownLines([Shown(ev.line)]) == [ev.line];
      if r.exchange != shown {
        var a := r.delivered[|r.delivered| - 1];
        assert r.exchange == shown + [Forwarded(a)];
        ShownLinesAppend(shown, [Forwarded(a)]);
        assert ShownLines([Forwarded(a)]) == [];
      }
    }
  }

  lemma {:induction false} ReplayShowsEverything(s: Session, answers: seq<string>, t: seq<AgentEvent>)
    ensures ShownLines(Replay(s, answers, t).exchange) == ShownLines(s.exchange) + AgentLines(t)
    decreases |t|
  {
    if t != [] {
      var s' := Observe(s, answers, t[0]);
      var line := if t[0].Says? then [t[0].line] else [];
      ObserveShowsLine(s, answers, t[0]);
      ReplayShowsEverything(s', answers, t[1..]);
      assert AgentLines(t) == line + AgentLines(t[1..]);
      assert ShownLines(s.exchange) + line + AgentLines(t[1..])
          == ShownLines(s.exchange) + (line + AgentLines(t[1..]));
    }
  }

  /** Every line the agent printed reaches the operator's output, in order,
      whether the interview succeeds or fails. */
  lemma OutputShowsAgentLines(agent: string, answers: seq<string>, t: seq<AgentEvent>)
    ensures AgentLines(t) <= RunInterview(agent, answers, t).output
  {
    ReplayShowsEverything(Spawned(), answers, t);
  }

  lemma {:induction false} ReplayRecordsArtifact(s: Session, answers: seq<string>, t: seq<AgentEvent>)
    ensures Replay(s, answers, t).artifactWritten <==> s.artifactWritten || WritesArtifact in t
    decreases |t|
  {
    if t != [] {
      ReplayRecordsArtifact(Observe(s, answers, t[0]), answers, t[1..]);
      assert forall e :: e in t <==> e == t[0] || e in t[1..];
    }
  }

  /** The PRD file exists after the interview exactly when the agent wrote it
      and the interview succeeded: a failed interview reports no artifact. */
  lemma ArtifactIffWrittenAndConfirmed(agent: string, answers: seq<string>, t: seq<AgentEvent>)
    ensures RunInterview(agent, answers, t).artifactExists <==> Confirmed(t) && WritesArtifact in t
  {
    ReplayPhase(Spawned(), answers, t);
    ReplayRecordsArtifact(Spawned(), answers, t);
  }

  /** The orchestrator loop: one transition per thing the agent does, then the
      classification when the agent exits. */
  method Orchestrate(agent: string, answers: seq<string>, t: seq<AgentEvent>) returns (o: Outcome)
    ensures o == RunInterview(agent, answers, t)
  {
    var s := Spawned();
    var i := 0;
    while i < |t|
      invariant 0 <= i <= |t|
      invariant Replay(s, answers, t[i..]) == Replay(Spawned(), answers, t)
    {
      assert t[i..][1..] == t[i + 1..];
      s := Observe(s, answers, t[i]);
      i := i + 1;
    }
    o := Conclude(s, agent);
  }
}
