/**
 * `ralph prd`: read the request at the `> ` prompt through the key decoder
 * and the line editor, refuse an empty request with `No description
 * provided.`, otherwise write the request to a prompt file (the text and one
 * newline) and invoke the runner once with it. The runner is either a stand-in
 * that only records the call, or the real loop, which starts the agent with a
 * prompt holding `User request:` and the request, and runs the interview.
 *
 * The four scenarios of the two test drivers are stated at the end.
 */
module PrdCommand {
  import opened Wrappers
  import opened Utf8
  import opened EditEvents
  import opened KeyDecoder
  import opened LineEditor
  import opened Interview

  const NoDescription := "No description provided."
  const RequestLabel := "User request:\n"

  /** What `ralph prd` hands the prompt file to. */
  datatype Runner =
    | CaptureStub  // records its invocation, copies the prompt file, exits 0
    | AgentInterview(agent: string, preamble: string, answers: seq<string>, agentRun: seq<AgentEvent>)

  datatype PrdRun = PrdRun(
    exitCode: int,
    output: seq<string>,
    runnerCalls: nat,
    promptFile: Option<string>,   // what the runner was given to read
    agentPrompt: Option<string>,  // what the agent was started with
    delivered: seq<string>,       // answers the agent received
    artifactExists: bool)         // whether the PRD file exists at the output path

  /** The prompt file holds the request and a single newline. */
  function PromptFile(text: string): string
  {
    text + "\n"
  }

  /** The agent's prompt: the runner's own preamble, the label, the prompt file. */
  function AgentPrompt(preamble: string, promptFile: string): string
  {
    preamble + RequestLabel + promptFile
  }

  function RunPrd(request: LineResult, runner: Runner): (run: PrdRun)
    ensures run.runnerCalls == if request.Submitted? then 1 else 0
    ensures run.promptFile.Some? <==> request.Submitted?
    ensures run.exitCode == 0 ==> request.Submitted?
    ensures run.artifactExists ==> request.Submitted? && runner.AgentInterview?
  {
    match request
    case EmptyInput => PrdRun(1, [NoDescription], 0, None, None, [], false)
    case Submitted(text) =>
      var file := PromptFile(text);
      match runner
      case CaptureStub => PrdRun(0, [], 1, Some(file), None, [], false)
      case AgentInterview(agent, preamble, answers, t) =>
        var o := RunInterview(agent, answers, t);
        PrdRun(o.exitCode, o.output, 1, Some(file), Some(AgentPrompt(preamble, file)),
               o.delivered, o.artifactExists)
  }

  /** An empty request fails with `No description provided.` and a non-zero
      status before anything is run: no runner call, no agent, no artifact. */
  lemma EmptyRequestRunsNothing(runner: Runner)
    ensures var run := RunPrd(EmptyInput, runner);
      && run.exitCode != 0 && NoDescription in run.output
      && run.runnerCalls == 0 && run.promptFile == None && run.agentPrompt == None
      && run.delivered == [] && !run.artifactExists
  {
  }

  /** A request is handed to the runner exactly once, in a prompt file that
      holds the text followed by one newline. */
  lemma RequestRunsOnce(text: string, runner: Runner)
    ensures var run := RunPrd(Submitted(text), runner);
      && run.runnerCalls == 1
      && run.promptFile.Some?
      && |run.promptFile.value| == |text| + 1
      && run.promptFile.value[..|text|] == text
      && run.promptFile.value[|text|] == '\n'
  {
  }

  lemma {:induction false} ContainsAt(s: string, p: string, k: nat)
    requires k + |p| <= |s| && s[k..k + |p|] == p
    ensures Contains(s, p)
    decreases k
  {
    if k == 0 {
      assert p <= s;
    } else {
      assert s[1..][k - 1..k - 1 + |p|] == p;
      ContainsAt(s[1..], p, k - 1);
    }
  }

  /** The agent's prompt holds `User request:`, a newline and the request
      verbatim, whatever quotes or newlines the request contains. */
  lemma PromptCarriesRequest(text: string, agent: string, preamble: string,
                             answers: seq<string>, t: seq<AgentEvent>)
    ensures var run := RunPrd(Submitted(text), AgentInterview(agent, preamble, answers, t));
      && run.agentPrompt.Some?
      && Contains(run.agentPrompt.value, RequestLabel + text)
  {
    var p := AgentPrompt(preamble, PromptFile(text));
    assert p == preamble + (RequestLabel + text) + "\n";
    assert p[|preamble|..|preamble| + |RequestLabel + text|] == RequestLabel + text;
    ContainsAt(p, RequestLabel + text, |preamble|);
  }

  // ---------------------------------------------------------------- the request prompt

  /** One `send` to the prompt: the decoder takes the bytes, the editor the
      events they complete; the result is the finished line, if a `Submit`
      came. */
  method Send(dec: Decoder, ed: Editor, chunk: seq<Byte>) returns (r: Option<LineResult>)
    requires dec.Valid() && ed.Valid()
    modifies dec, ed
    ensures dec.Valid() && ed.Valid()
    ensures dec.pending == Pending(old(dec.pending) + chunk)
    ensures var p := Run(old(ed.State()), Decode(old(dec.pending) + chunk));
      && (p.Editing? ==> r == None && ed.State() == p.line)
      && (p.Done? ==> r == Some(p.result))
  {
    var events := dec.Feed(chunk);
    r := ed.HandleAll(events);
  }

  const Typed := "вот мои текст!"
  const Expected := "вот мой текст"

  /** The bytes of a text of typeable characters followed by DEL decode to
      one `Insert` per character and a `Backspace`, with nothing left over. */
  lemma TextThenDelDecodes(s: string)
    requires forall i :: 0 <= i < |s| ==> Typeable(s[i])
    ensures Decode(EncodeText(s) + [0x7F]) == Inserts(s) + [Backspace]
    ensures Pending(EncodeText(s) + [0x7F]) == []
  {
    DecodeText(s, [0x7F]);
    LoneKeys();
  }

  /** Typing a non-empty text into an empty prompt and pressing Backspace
      leaves the text without its last character, cursor at the end. */
  lemma TypingThenBackspace(s: string)
    requires |s| > 0
    ensures Run(Line([], 0), Inserts(s) + [Backspace]) == Editing(Line(s[..|s| - 1], |s| - 1))
  {
    var evs := Inserts(s) + [Backspace];
    InsertsAt(s);
    RunWithoutSubmit(Line([], 0), evs);
    ApplyAllAppend(Line([], 0), Inserts(s), [Backspace]);
    TypingInsertsText(Line([], 0), s);
    assert [] + s + [] == s;
    BackspaceAtEndDropsLast(Line(s, |s|));
  }

  /** Typing one typeable character and pressing Enter completes exactly
      those two events. */
  lemma TypingThenEnter(c: char)
    requires Typeable(c)
    ensures Decode(EncodeText([c]) + [0x0D]) == [Insert(c), Submit]
    ensures Pending(EncodeText([c]) + [0x0D]) == []
  {
    DecodeText([c], [0x0D]);
    LoneKeys();
  }

  /** A request typed at the empty prompt and then Enter is submitted as
      typed: this is how the interview test enters its request. */
  lemma TypedLineSubmitted(s: string)
    requires |s| > 0
    ensures Run(Line([], 0), Inserts(s) + [Submit]) == Done(Submitted(s))
  {
    InsertsAt(s);
    RunUntilSubmit(Line([], 0), Inserts(s), []);
    assert Inserts(s) + [Submit] + [] == Inserts(s) + [Submit];
    TypingInsertsText(Line([], 0), s);
    assert [] + s + [] == s;
  }

  /** The bytes of such a request and a carriage return decode to one
      `Insert` per character and a `Submit`, with nothing left over. */
  lemma TextThenEnterDecodes(s: string)
    requires forall i :: 0 <= i < |s| ==> Typeable(s[i])
    ensures Decode(EncodeText(s) + [0x0D]) == Inserts(s) + [Submit]
    ensures Pending(EncodeText(s) + [0x0D]) == []
  {
    DecodeText(s, [0x0D]);
    LoneKeys();
  }

  /** The request prompt end to end: a typeable request sent as its bytes and
      a carriage return is submitted exactly, with nothing left pending. */
  lemma RequestKeystrokesSubmit(request: string)
    requires |request| > 0 && forall i :: 0 <= i < |request| ==> Typeable(request[i])
    ensures Run(Line([], 0), Decode(EncodeText(request) + [0x0D])) == Done(Submitted(request))
    ensures Pending(EncodeText(request) + [0x0D]) == []
  {
    TextThenEnterDecodes(request);
    TypedLineSubmitted(request);
  }

  /** A character typed at the cursor and then Enter submit the line with
      that character inserted. */
  lemma InsertThenSubmit(l: Line, c: char)
    requires CursorInLine(l)
    ensures Run(l, [Insert(c), Submit]) == Done(Submitted(l.buf[..l.cursor] + [c] + l.buf[l.cursor..]))
  {
    assert [Insert(c), Submit][1..] == [Submit];
  }

  /** The left arrow pressed `k` times, one `send` each. */
  method PressLeft(dec: Decoder, ed: Editor, k: nat)
    requires dec.Valid() && ed.Valid() && dec.pending == [] && k <= ed.cursor
    modifies dec, ed
    ensures dec.Valid() && ed.Valid() && dec.pending == []
    ensures ed.buf == old(ed.buf) && ed.cursor == old(ed.cursor) - k
  {
    CursorKeys([]);
    assert [Esc, OpenBracket, 0x44] + [] == [Esc, OpenBracket, 0x44];
    assert [] + [Esc, OpenBracket, 0x44] == [Esc, OpenBracket, 0x44];
    for i := 0 to k
      invariant dec.Valid() && ed.Valid() && dec.pending == []
      invariant ed.buf == old(ed.buf) && ed.cursor == old(ed.cursor) - i
    {
      assert [MoveLeft][1..] == [];
      assert Run(ed.State(), [MoveLeft]) == Editing(Apply(ed.State(), MoveLeft));
      var r := Send(dec, ed, [Esc, OpenBracket, 0x44]);
    }
  }

  /** The forward-delete key, one `send`. */
  method PressDelete(dec: Decoder, ed: Editor)
    requires dec.Valid() && ed.Valid() && dec.pending == []
    modifies dec, ed
    ensures dec.Valid() && ed.Valid() && dec.pending == []
    ensures ed.State() == Apply(old(ed.State()), DeleteForward)
  {
    CursorKeys([]);
    assert [Esc, OpenBracket, 0x33, 0x7E] + [] == [Esc, OpenBracket, 0x33, 0x7E];
    assert [] + [Esc, OpenBracket, 0x33, 0x7E] == [Esc, OpenBracket, 0x33, 0x7E];
    assert [DeleteForward][1..] == [];
    assert Run(ed.State(), [DeleteForward]) == Editing(Apply(ed.State(), DeleteForward));
    var r := Send(dec, ed, [Esc, OpenBracket, 0x33, 0x7E]);
  }

  /** A text typed at the empty prompt and then Backspace, one `send`. */
  method TypeThenErase(dec: Decoder, ed: Editor, typed: string)
    requires dec.Valid() && ed.Valid() && dec.pending == [] && ed.State() == Line([], 0)
    requires |typed| > 0 && forall i :: 0 <= i < |typed| ==> Typeable(typed[i])
    modifies dec, ed
    ensures dec.Valid() && ed.Valid() && dec.pending == []
    ensures ed.State() == Line(typed[..|typed| - 1], |typed| - 1)
  {
    TextThenDelDecodes(typed);
    TypingThenBackspace(typed);
    assert [] + (EncodeText(typed) + [0x7F]) == EncodeText(typed) + [0x7F];
    var r := Send(dec, ed, EncodeText(typed) + [0x7F]);
  }

  /** A typeable character and Enter, one `send`: the line is submitted with
      the character inserted at the cursor. */
  method TypeThenEnter(dec: Decoder, ed: Editor, c: char) returns (r: Option<LineResult>)
    requires dec.Valid() && ed.Valid() && dec.pending == [] && Typeable(c)
    modifies dec, ed
    ensures r == Some(Submitted(old(ed.buf[..ed.cursor]) + [c] + old(ed.buf[ed.cursor..])))
  {
    InsertThenSubmit(ed.State(), c);
    TypingThenEnter(c);
    assert [] + (EncodeText([c]) + [0x0D]) == EncodeText([c]) + [0x0D];
    r := Send(dec, ed, EncodeText([c]) + [0x0D]);
  }

  /** Forward delete eight characters from the end of the erased text, then
      `c` typed there: the character at that position is replaced by `c`. */
  lemma Correction(typed: string, c: char)
    requires |typed| >= 8
    ensures var n := |typed|;
      var b := typed[..n - 1];
      var d := b[..n - 8] + b[n - 7..];
      && Apply(Line(b, n - 8), DeleteForward) == Line(d, n - 8)
      && d[..n - 8] + [c] + d[n - 8..] == typed[..n - 8] + [c] + typed[n - 7..n - 1]
  {
    var n := |typed|;
    var b := typed[..n - 1];
    var d := b[..n - 8] + b[n - 7..];
    assert d[..n - 8] == typed[..n - 8];
    assert d[n - 8..] == typed[n - 7..n - 1];
  }

  /** The keystrokes of the editing test, for any typed text of at least
      eight typeable characters: the text, Backspace, seven left arrows,
      forward delete, `й`, Enter. The character eight from the end is
      replaced by `й` and the last character is gone; the runner is invoked
      once with that line and a newline. */
  method EditRequest(typed: string) returns (run: PrdRun)
    requires |typed| >= 8 && forall i :: 0 <= i < |typed| ==> Typeable(typed[i])
    ensures run.exitCode == 0 && run.runnerCalls == 1
    ensures run.promptFile == Some(typed[..|typed| - 8] + ['й'] + typed[|typed| - 7..|typed| - 1] + "\n")
  {
    var n := |typed|;
    var dec := new Decoder();
    var ed := new Editor();
    TypeThenErase(dec, ed, typed);
    PressLeft(dec, ed, 7);
    PressDelete(dec, ed);
    Correction(typed, 'й');
    var r := TypeThenEnter(dec, ed, 'й');
    run := RunPrd(r.value, CaptureStub);
  }

  /** The editing test itself: `вот мои текст!` typed and corrected at the
      prompt is submitted as `вот мой текст`. */
  method EditedRequestScenario() returns (run: PrdRun)
    ensures run.exitCode == 0 && run.runnerCalls == 1
    ensures run.promptFile == Some(Expected + "\n")
  {
    assert forall i :: 0 <= i < |Typed| ==> Typeable(Typed[i]);
    run := EditRequest(Typed);
    assert Typed[..6] + ['й'] + Typed[7..13] == Expected;
  }

  /** The empty-input test: Enter alone at the prompt. The command fails with a
      non-zero status and `No description provided.`, and the runner is never
      invoked. */
  method EmptyRequestScenario() returns (run: PrdRun)
    ensures run.exitCode != 0 && NoDescription in run.output
    ensures run.runnerCalls == 0 && run.promptFile == None
  {
    var dec := new Decoder();
    var ed := new Editor();
    assert [] + [0x0D] == [0x0D];
    var r := Send(dec, ed, [0x0D]);
    run := RunPrd(r.value, CaptureStub);
  }

  // ---------------------------------------------------------------- the interview

  const Request := "Incident workflow dashboard for operations"
  const Answers := ["Ops team leads", "End of Q2"]
  const FirstQuestion := "Question 1: Who is the primary user?"
  const SecondQuestion := "Question 2: What is the deadline?"
  const UnexpectedEnd := "Interview ended unexpectedly without saving."

  lemma {:induction false} AbsentFirstCharacter(s: string, p: string)
    requires |p| > 0 && p[0] !in s
    ensures !Contains(s, p)
    decreases |s|
  {
    if |s| > 0 {
      assert forall x :: x in s[1..] ==> x in s;
      AbsentFirstCharacter(s[1..], p);
    }
  }

  /** A line without a capital `P` cannot hold the confirmation phrase. */
  lemma NoConfirmationWithoutP(line: string)
    requires 'P' !in line
    ensures !IsSaveConfirmation(line)
  {
    AbsentFirstCharacter(line, SaveConfirmation);
  }

  lemma FirstQuestionSpelled()
    ensures FirstQuestion == QuestionLabel + ['1'] + ":" + " Who is the primary user?"
  {
  }

  lemma SecondQuestionSpelled()
    ensures SecondQuestion == QuestionLabel + ['2'] + ":" + " What is the deadline?"
  {
  }

  /** A question marker whose text has no capital `P` is not a
      confirmation. */
  lemma PlainQuestion(d: char, text: string)
    requires IsDigit(d) && 'P' !in text
    ensures var line := QuestionLabel + [d] + ":" + text;
      IsQuestion(line) && !IsSaveConfirmation(line)
  {
    var line := QuestionLabel + [d] + ":" + text;
    QuestionMarker(d, text);
    assert 'P' !in QuestionLabel + [d] + ":";
    assert forall x :: x in line ==> x in QuestionLabel + [d] + ":" || x in text;
    NoConfirmationWithoutP(line);
  }

  lemma FirstQuestionIsMarker()
    ensures IsQuestion(FirstQuestion) && !IsSaveConfirmation(FirstQuestion)
  {
    FirstQuestionSpelled();
    assert 'P' !in " Who is the primary user?";
    PlainQuestion('1', " Who is the primary user?");
  }

  lemma SecondQuestionIsMarker()
    ensures IsQuestion(SecondQuestion) && !IsSaveConfirmation(SecondQuestion)
  {
    SecondQuestionSpelled();
    assert 'P' !in " What is the deadline?";
    PlainQuestion('2', " What is the deadline?");
  }

  lemma UnexpectedEndIsPlain()
    ensures !IsQuestion(UnexpectedEnd) && !IsSaveConfirmation(UnexpectedEnd)
  {
    assert UnexpectedEnd[0] != QuestionLabel[0];
    assert 'P' !in UnexpectedEnd;
    NoConfirmationWithoutP(UnexpectedEnd);
  }

  /** An agent that first asks two questions and then does only things that
      are not questions gets both of two answers, in order, and both
      questions are shown to the operator. */
  lemma TwoQuestionsBothAnswered(agent: string, answers: seq<string>, q1: string, q2: string,
                                 rest: seq<AgentEvent>)
    requires IsQuestion(q1) && !IsSaveConfirmation(q1)
    requires IsQuestion(q2) && !IsSaveConfirmation(q2)
    requires |answers| == 2 && QuestionsAsked(rest) == 0
    ensures var o := RunInterview(agent, answers, [Says(q1), Says(q2)] + rest);
      o.delivered == answers && q1 in o.output && q2 in o.output
  {
    var t := [Says(q1), Says(q2)] + rest;
    assert t[1..] == [Says(q2)] + rest;
    assert t[1..][1..] == rest;
    assert QuestionsAsked(t) == 2;
    AnswersForwardedInOrder(agent, answers, t);
    OutputShowsAgentLines(agent, answers, t);
    assert AgentLines(t)[0] == q1 && AgentLines(t)[1] == q2;
  }

  /** For the agent `qwen` the diagnostic names `Qwen`, capitalised. */
  lemma QwenDiagnostic()
    ensures FailureMessage("qwen") == "Qwen" + FailureSuffix
  {
    assert ('q' as int - 32) as char == 'Q';
    assert "qwen"[1..] == "wen";
  }

  /** The interview driver types its request and presses Enter: the line the
      command reads is exactly that request, the starting point of
      `InterviewSucceeds` and `InterviewFailsWithoutConfirmation`. */
  lemma RequestTyped()
    ensures Run(Line([], 0), Decode(EncodeText(Request) + [0x0D])) == Done(Submitted(Request))
  {
    var request := Request;
    assert forall i :: 0 <= i < |request| ==> Typeable(request[i]);
    RequestKeystrokesSubmit(request);
  }

  /** What the success agent prints last, naming the output path. */
  function SavedLine(outPath: string): string
  {
    SaveConfirmation + (" " + outPath + ". Close this chat and run `ralph build`.")
  }

  lemma SavedLineConfirms(outPath: string)
    ensures IsSaveConfirmation(SavedLine(outPath))
  {
    assert SaveConfirmation <= SavedLine(outPath);
  }

  function SuccessRun(outPath: string): seq<AgentEvent>
  {
    [Says(FirstQuestion), Says(SecondQuestion), WritesArtifact, Says(SavedLine(outPath))]
  }

  function FailureRun(last: string): seq<AgentEvent>
  {
    [Says(FirstQuestion), Says(SecondQuestion), Says(last)]
  }

  /** The success test: the agent asks two questions, writes the PRD and
      confirms it. The command exits 0, both questions and the confirmation
      are shown, the agent's prompt carries the request after
      `User request:`, both answers reach the agent in order, and the PRD file
      exists. */
  lemma InterviewSucceeds(preamble: string, outPath: string)
    ensures var run := RunPrd(Submitted(Request), AgentInterview("qwen", preamble, Answers, SuccessRun(outPath)));
      && run.exitCode == 0
      && FirstQuestion in run.output && SecondQuestion in run.output
      && SavedLine(outPath) in run.output
      && Contains(run.agentPrompt.value, RequestLabel + Request)
      && run.delivered == Answers
      && run.artifactExists
  {
    FirstQuestionIsMarker();
    SecondQuestionIsMarker();
    SavedLineConfirms(outPath);
    TwoQuestionsThenSave("qwen", preamble, Request, Answers, FirstQuestion, SecondQuestion, SavedLine(outPath));
    PromptCarriesRequest(Request, "qwen", preamble, Answers, SuccessRun(outPath));
  }

  /** Two questions, the artifact written, a confirmation line and exit: both
      answers delivered, the questions and the confirmation shown, status 0,
      and the artifact kept. */
  lemma TwoQuestionsThenSave(agent: string, preamble: string, request: string, answers: seq<string>,
                             q1: string, q2: string, saved: string)
    requires IsQuestion(q1) && !IsSaveConfirmation(q1)
    requires IsQuestion(q2) && !IsSaveConfirmation(q2)
    requires IsSaveConfirmation(saved) && |answers| == 2
    ensures var run := RunPrd(Submitted(request),
                              AgentInterview(agent, preamble, answers, [Says(q1), Says(q2), WritesArtifact, Says(saved)]));
      && run.exitCode == 0
      && q1 in run.output && q2 in run.output && saved in run.output
      && run.delivered == answers
      && run.artifactExists
  {
    var rest := [WritesArtifact, Says(saved)];
    var t := [Says(q1), Says(q2)] + rest;
    assert t == [Says(q1), Says(q2), WritesArtifact, Says(saved)];
    assert Confirmed(t) by {
      assert t[3].Says? && IsSaveConfirmation(t[3].line);
    }
    assert WritesArtifact in t by {
      assert t[2] == WritesArtifact;
    }
    assert QuestionsAsked(rest) == 0 by {
      assert rest[1..] == [Says(saved)];
    }
    TwoQuestionsBothAnswered(agent, answers, q1, q2, rest);
    SucceedsIffConfirmed(agent, answers, t);
    ArtifactIffWrittenAndConfirmed(agent, answers, t);
    OutputShowsAgentLines(agent, answers, t);
    assert AgentLines(t)[2] == saved by {
      assert t[3..] == [Says(saved)] && t[3..][1..] == [];
      assert AgentLines(t[3..]) == [saved];
      assert t[2..][1..] == t[3..];
      assert AgentLines(t[2..]) == [saved];
      assert t[1..][1..] == t[2..];
      assert AgentLines(t[1..]) == [q2, saved];
    }
  }

  /** The failure test: the agent asks two questions, prints a last line that
      is neither a question nor a confirmation (the test's is
      `Interview ended unexpectedly without saving.`, see `UnexpectedEndIsPlain`)
      and exits. The command exits non-zero with the Qwen diagnostic and the
      troubleshooting heading, both answers were still delivered, and no PRD
      file exists. */
  lemma InterviewFailsWithoutConfirmation(preamble: string, last: string)
    requires !IsQuestion(last) && !IsSaveConfirmation(last)
    ensures var run := RunPrd(Submitted(Request), AgentInterview("qwen", preamble, Answers, FailureRun(last)));
      && run.exitCode != 0
      && FirstQuestion in run.output && SecondQuestion in run.output
      && "Qwen" + FailureSuffix in run.output
      && TroubleshootingHeading in run.output
      && run.delivered == Answers
      && !run.artifactExists
  {
    FirstQuestionIsMarker();
    SecondQuestionIsMarker();
    TwoQuestionsThenExit("qwen", preamble, Request, Answers, FirstQuestion, SecondQuestion, last);
    QwenDiagnostic();
  }

  /** The failure block with the failure mock's own last line
      (`Interview ended unexpectedly without saving.`). */
  lemma FailureScenario(preamble: string)
    ensures var run := RunPrd(Submitted(Request), AgentInterview("qwen", preamble, Answers, FailureRun(UnexpectedEnd)));
      && run.exitCode != 0
      && FirstQuestion in run.output && SecondQuestion in run.output
      && "Qwen" + FailureSuffix in run.output
      && TroubleshootingHeading in run.output
      && run.delivered == Answers
      && !run.artifactExists
  {
    UnexpectedEndIsPlain();
    InterviewFailsWithoutConfirmation(preamble, UnexpectedEnd);
  }

  /** Two questions, then a plain last line and exit: both answers delivered,
      the questions shown, the diagnostic and the heading printed, a non-zero
      status and no artifact. */
  lemma TwoQuestionsThenExit(agent: string, preamble: string, request: string, answers: seq<string>,
                             q1: string, q2: string, last: string)
    requires IsQuestion(q1) && !IsSaveConfirmation(q1)
    requires IsQuestion(q2) && !IsSaveConfirmation(q2)
    requires !IsQuestion(last) && !IsSaveConfirmation(last)
    requires |answers| == 2
    ensures var run := RunPrd(Submitted(request), AgentInterview(agent, preamble, answers, [Says(q1), Says(q2), Says(last)]));
      && run.exitCode != 0
      && q1 in run.output && q2 in run.output
      && FailureMessage(agent) in run.output
      && TroubleshootingHeading in run.output
      && run.delivered == answers
      && !run.artifactExists
  {
    var rest := [Says(last)];
    var t := [Says(q1), Says(q2)] + rest;
    assert t == [Says(q1), Says(q2), Says(last)];
    assert QuestionsAsked(rest) == 0 by {
      assert rest[1..] == [];
    }
    TwoQuestionsBothAnswered(agent, answers, q1, q2, rest);
    ThreeLinesUnconfirmed(q1, q2, last);
    SucceedsIffConfirmed(agent, answers, t);
  }

  lemma ThreeLinesUnconfirmed(a: string, b: string, c: string)
    requires !IsSaveConfirmation(a) && !IsSaveConfirmation(b) && !IsSaveConfirmation(c)
    ensures !Confirmed([Says(a), Says(b), Says(c)])
  {
    var t := [Says(a), Says(b), Says(c)];
    forall i | 0 <= i < |t| ensures !(t[i].Says? && IsSaveConfirmation(t[i].line)) {
      assert i == 0 || i == 1 || i == 2;
    }
  }
}
