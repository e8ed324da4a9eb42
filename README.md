# ralph `prd`: request prompt, line editing and the agent interview

This project models the interactive `ralph prd` command as its two regression
drivers pin it down (`tests/prd-input-editing.mjs` and
`tests/prd-interview-regression.mjs`), together with the two quoting helpers
those drivers use to build their shell and Tcl (`expect`) scripts. The sources
of `bin/ralph` and of its `prd` command are not part of this model. Their
behaviour is stated as the drivers require it: the bytes a terminal sends,
the events those bytes decode to, the line the editor builds, what the
command does with that line, and how the interview with the agent ends.

Modules, one file each:

- `Wrappers` (`wrappers.dfy`): `Option` and a helper that prepends a character to an optional string.
- `Quoting` (`quoting.dfy`): `ShellQuote` and `TclQuote`, both built on `ReplaceAll`, which models JavaScript's `replace(/c/g, rep)`. Each helper is paired with a reader for its quoting rules and a round-trip proof.
- `Utf8` (`utf8.dfy`): the UTF-8 encoding of RFC 3629, from one to four bytes, with its decoding. The Cyrillic request is typed as UTF-8 bytes.
- `EditEvents` (`events.dfy`): the edit events that the line editor consumes.
- `KeyDecoder` (`key_decoder.dfy`): turns terminal bytes into edit events. It recognises UTF-8 characters, CR/LF (submit), DEL/BS (backspace), `ESC [ D` (left arrow) and `ESC [ 3 ~` (delete). Every other escape sequence is dropped whole, with no event and no text: `ESC [` control sequences, `ESC O` application-mode keys (with parameter bytes too, as in `ESC O 5 P`), and `ESC` with one printable character. The pure specification is `Decode`/`Pending`. The `Decoder` class keeps an incomplete tail across `send`s, and its `Feed` loop is proved against the pure specification.
- `LineEditor` (`line_editor.dfy`): a line with a cursor (`Line`, `Apply`, `Run`) and the `Editor` class whose per-key methods update the buffer and cursor in place. A line is finished on Enter, and an empty line yields `EmptyInput`.
- `Interview` (`interview.dfy`): the interview as a phase machine. Each event passes through `Observe`, which shows every agent line and answers each `Question N:` marker with the next operator answer while any remain, until the session ends. A question asked after the answers have run out is shown and counted, and nothing is sent; once the session has ended, every line is only shown. The session succeeds at the first line containing `PRD JSON saved to`. It fails once the agent exits without such a line; the failure prints `<Agent> PRD session ended before PRD save confirmation.` and `Troubleshooting:`, and no PRD file is kept. `RunInterview` is the pure fold; `Orchestrate` is the step-by-step loop, proved equal to it.
- `PrdCommand` (`prd_command.dfy`): `RunPrd` refuses an empty request with `No description provided.` and a non-zero status. Otherwise it writes the request and a newline to a prompt file and calls the runner once. The runner is either the capturing stand-in for `loop.sh` or the agent interview, whose prompt holds `User request:` and the request. The four scenarios of the drivers are proved at the end: the edited Cyrillic request, the empty request, the successful interview and the interview without a save confirmation.

## Model

| member | source | states |
|---|---|---|
| Quoting.ReplaceAll | tests/prd-interview-regression.mjs:33 | a global one-character replacement grows the text by `|rep| - 1` per occurrence, and a text without the character comes back unchanged |
| Quoting.ReplaceAllAppend | tests/prd-interview-regression.mjs:33 | replacement distributes over concatenation |
| Quoting.ReplaceAllKeepsCount | tests/prd-input-editing.mjs:23 | the first pass of `tclQuote` (backslashes) leaves the number of double quotes unchanged |
| Quoting.TwoPassesEscapeOnce | tests/prd-input-editing.mjs:22-24 | doubling backslashes and then escaping double quotes equals escaping each character once: the backslash added before `"` is never doubled |
| Quoting.QuoteBeforeBackslashDoubleEscapes | tests/prd-input-editing.mjs:23 | the opposite pass order would turn `"` into three characters instead of two, so the order the source uses matters |
| Quoting.TclQuote | tests/prd-input-editing.mjs:22-24 | the result starts and ends with `"` and is longer than the value by 2 plus one per backslash and per double quote |
| Quoting.TclBodyOfEscaped | tests/prd-interview-regression.mjs:37 | reading an escaped body up to its closing quote gives back the value |
| Quoting.TclQuoteRoundTrip | tests/prd-interview-regression.mjs:36-38 | removing the quotes and undoing `\\` and `\"` recovers the original value exactly |
| Quoting.ShellQuote | tests/prd-interview-regression.mjs:32-34 | the result starts and ends with `'` and is longer than the value by 2 plus 3 per single quote |
| Quoting.EscapedQuoteReads | tests/prd-interview-regression.mjs:33 | inside single quotes, `'\''` reads as one literal `'` and stays in quoted mode |
| Quoting.ShellQuotedOfEscaped | tests/prd-interview-regression.mjs:33 | a shell reading the escaped body inside single quotes gets the value back |
| Quoting.ShellQuoteRoundTrip | tests/prd-interview-regression.mjs:32-34 | a POSIX shell reading `shellQuote(v)` as one word gets `v` back, whatever quotes, backslashes or newlines `v` holds |
| Utf8.Encode | tests/prd-input-editing.mjs:85 | a character takes one to four bytes, and exactly one byte iff it is ASCII |
| Utf8.Value | tests/prd-input-editing.mjs:85 | a well-formed multi-byte sequence decodes to a Unicode scalar value of at least 0x80 |
| Utf8.TwoBytesDecode | tests/prd-input-editing.mjs:85 | the two-byte form of any value in 0x80..0x7FF is well formed and decodes to that value |
| Utf8.ThreeBytesDecode | tests/prd-input-editing.mjs:85 | the three-byte form of any scalar value in 0x800..0xFFFF is well formed and decodes to that value |
| Utf8.FourBytesDecode | tests/prd-input-editing.mjs:85 | the four-byte form of any value in 0x10000..0x10FFFF is well formed and decodes to that value |
| Utf8.EncodeDecodes | tests/prd-input-editing.mjs:85 | encoding is inverted by decoding: an ASCII character is its own byte, and any other character's encoding is well formed and decodes to the character |
| EditEvents.InsertsAt | tests/prd-input-editing.mjs:85 | typing a text yields exactly one `Insert` per character, in order |
| KeyDecoder.CsiEnd | tests/prd-input-editing.mjs:86-87 | the end of a control sequence's parameter bytes is within the bytes, and the byte there, if any, lies outside 0x20..0x3F |
| KeyDecoder.CsiEndRun | tests/prd-input-editing.mjs:86-87 | every byte before that end is a parameter or intermediate byte (0x20..0x3F), so the end is the first byte outside that range |
| KeyDecoder.CsiEndOver | tests/prd-input-editing.mjs:86-87 | conversely, a run of parameter bytes followed by a byte outside 0x20..0x3F ends exactly at that byte |
| KeyDecoder.FittingRun | tests/prd-input-editing.mjs:85 | the continuation bytes that fit a UTF-8 lead byte are counted exactly, stopping at the first misfit |
| KeyDecoder.NextLexeme | tests/prd-input-editing.mjs:84-88 | a complete key consumes between one byte and the whole buffer |
| KeyDecoder.Decode | tests/prd-input-editing.mjs:84-88 | the events of the complete keys in the bytes, in order: never more events than bytes |
| KeyDecoder.Pending | tests/prd-input-editing.mjs:84-88 | the bytes held back for the next `send` are never more than were received |
| KeyDecoder.PendingIsCutOffTail | tests/prd-input-editing.mjs:84-88 | what is held back is a tail of the bytes received, and it is empty or the cut-off start of a key: a complete key is never held back |
| KeyDecoder.NextLexemeStable | tests/prd-input-editing.mjs:84-88 | once a key is complete, bytes arriving later do not change how it decodes |
| KeyDecoder.DecodeAppend | tests/prd-input-editing.mjs:84-88 | decoding bytes sent in two pieces equals decoding the first piece and then its incomplete tail with the second piece, for both events and leftover |
| KeyDecoder.DecodeChar | tests/prd-input-editing.mjs:85 | a typeable character's bytes decode to one `Insert` of that character |
| KeyDecoder.DecodeText | tests/prd-input-editing.mjs:85 | the UTF-8 bytes of a typeable text decode to one `Insert` per character, with nothing left pending |
| KeyDecoder.CursorKeys | tests/prd-input-editing.mjs:86-87 | `ESC [ D` decodes to `MoveLeft` and `ESC [ 3 ~` to `DeleteForward`, whatever follows |
| KeyDecoder.SingleByteKeys | tests/prd-input-editing.mjs:85-88 | CR and LF decode to `Submit`, and DEL and BS decode to `Backspace` |
| KeyDecoder.LoneKeys | tests/prd-input-editing.mjs:112 | a lone CR is exactly one `Submit` and a lone DEL exactly one `Backspace` |
| KeyDecoder.UnknownControlSequenceDropped | tests/prd-input-editing.mjs:86-87 | a well-formed control sequence other than the two known keys is consumed whole: it emits nothing and leaves nothing pending |
| KeyDecoder.ApplicationKeyDropped | tests/prd-input-editing.mjs:86 | an application-mode key `ESC O params final`, the left arrow `ESC O D` among them, is dropped whole: no event, no text, nothing pending |
| KeyDecoder.ModifiedF1Dropped | tests/prd-input-editing.mjs:86 | modified F1, `ESC O 5 P`, types neither `5` nor `P` and leaves nothing pending |
| KeyDecoder.AltKeyDropped | tests/prd-input-editing.mjs:86-87 | `ESC` followed by a printable character other than `[` or `O` is dropped whole, so the character is not typed |
| KeyDecoder.EscapeInsertsNothing | tests/prd-input-editing.mjs:86-87 | no key that starts with `ESC` inserts text, and `ESC` is dropped on its own only before a byte that is not printable ASCII |
| KeyDecoder.DecodeUnits | tests/prd-input-editing.mjs:84-88 | the decoding loop returns exactly `Decode(buf)` and leaves exactly `Pending(buf)` |
| KeyDecoder.Decoder.constructor | tests/prd-input-editing.mjs:84 | a fresh decoder has received, emitted and kept nothing |
| KeyDecoder.Decoder.Feed | tests/prd-input-editing.mjs:84-88 | a `send` appends the chunk to what was received, returns the events of the old tail plus the chunk, and keeps only the new incomplete tail |
| LineEditor.Apply | tests/prd-input-editing.mjs:84-101 | the effect of each key on the text left and right of the cursor: insert, delete before, move left, delete under. Keys at the edges change nothing, and the line stays well formed |
| LineEditor.ApplyAll | tests/prd-input-editing.mjs:84-88 | any sequence of keys keeps the cursor within the line |
| LineEditor.ApplyAllAppend | tests/prd-input-editing.mjs:84-88 | keys may be split across `send`s without changing the line |
| LineEditor.TypingInsertsText | tests/prd-input-editing.mjs:85 | typing a text inserts it at the cursor and moves the cursor past it |
| LineEditor.MoveLeftRepeatedly | tests/prd-input-editing.mjs:86 | k left arrows move the cursor k places left and leave the text unchanged |
| LineEditor.BackspaceAtEndDropsLast | tests/prd-input-editing.mjs:85 | a backspace at the end of the line drops the last character |
| LineEditor.DeleteThenTypeReplaces | tests/prd-input-editing.mjs:87-88 | deleting under the cursor and typing replaces exactly that one character |
| LineEditor.Finish | tests/prd-input-editing.mjs:107-118 | a finished line is `EmptyInput` iff its buffer is empty, and otherwise exactly its text |
| LineEditor.Run | tests/prd-input-editing.mjs:84-88 | reading a line finishes iff an Enter is among the keys, and a line still being edited is well formed |
| LineEditor.RunWithoutSubmit | tests/prd-input-editing.mjs:84-87 | without Enter, the line is still being edited and equals the keys applied in order |
| LineEditor.RunUntilSubmit | tests/prd-input-editing.mjs:88 | the first Enter finishes the line with the text built so far, and later keys are ignored |
| LineEditor.EnterOnEmptyLine | tests/prd-input-editing.mjs:112-116 | Enter on an empty prompt yields `EmptyInput` |
| LineEditor.Editor.constructor | tests/prd-input-editing.mjs:84 | the prompt starts with an empty buffer and the cursor at 0 |
| LineEditor.Editor.Insert | tests/prd-input-editing.mjs:85 | the buffer gets the character at the cursor and the cursor advances |
| LineEditor.Editor.Backspace | tests/prd-input-editing.mjs:85 | the character before the cursor is removed, or nothing changes at position 0 |
| LineEditor.Editor.MoveLeft | tests/prd-input-editing.mjs:86 | the cursor moves one place left, stopping at 0, and the buffer is unchanged |
| LineEditor.Editor.DeleteForward | tests/prd-input-editing.mjs:87 | the character under the cursor is removed, or nothing changes at the end of the line |
| LineEditor.Editor.Submit | tests/prd-input-editing.mjs:88-99 | the result is `EmptyInput` iff the buffer is empty, and otherwise the buffer's text |
| LineEditor.Editor.Handle | tests/prd-input-editing.mjs:84-87 | each method's effect agrees with `Apply` |
| LineEditor.Editor.HandleAll | tests/prd-input-editing.mjs:84-88 | handling a run of events agrees with `Run`: still editing with its line, or finished with its result |
| Interview.QuestionMarker | tests/prd-interview-regression.mjs:78 | `Question`, a digit and a colon form a question marker, whatever follows |
| Interview.DisplayName | tests/prd-interview-regression.mjs:195 | the agent's display name upper-cases an ASCII lower-case first letter (`q` to `Q`) and keeps every other character; a name starting with any other character is unchanged |
| Interview.Observe | tests/prd-interview-regression.mjs:78-83 | one agent event never moves the phase backwards. A terminal phase stays put, nothing steps into failure, and the exchange, the answers delivered and the questions asked only grow |
| Interview.Replay | tests/prd-interview-regression.mjs:78-83 | a whole agent run never moves the phase backwards, never steps into failure, keeps a terminal phase, keeps a written PRD recorded, and only grows the exchange, the answers delivered and the questions asked |
| Interview.Conclude | tests/prd-interview-regression.mjs:191-207 | when the agent exits, the status is 0 iff the session succeeded. The output starts with every shown line and the delivered answers are kept. On success the PRD file is as the agent left it; otherwise the session fails with the agent's diagnostic and `Troubleshooting:`, and no PRD file is kept |
| Interview.RunInterview | tests/prd-interview-regression.mjs:153-207 | the interview exits 0 iff it succeeded, and a PRD file remains only after success |
| Interview.ReplayPhase | tests/prd-interview-regression.mjs:156 | a replay from a non-failed session succeeds iff it already had or the agent printed a save confirmation, and never fails during the run |
| Interview.SucceedsIffConfirmed | tests/prd-interview-regression.mjs:191-198 | an interview succeeds, and exits 0, iff the agent printed a save confirmation. Otherwise it exits non-zero, prints the agent's diagnostic and `Troubleshooting:`, and keeps no PRD file |
| Interview.ForwardsAppend | tests/prd-interview-regression.mjs:78-83 | the answers forwarded in a concatenated exchange are those of each part in order |
| Interview.ShownLinesAppend | tests/prd-interview-regression.mjs:154-155 | the lines shown in a concatenated exchange are those of each part in order |
| Interview.ShowKeepsOrder | tests/prd-interview-regression.mjs:132 | showing a non-question line keeps the answer-order invariant |
| Interview.AnswerKeepsOrder | tests/prd-interview-regression.mjs:78-83 | answering a question with the next answer keeps the answer-order invariant |
| Interview.UnansweredKeepsOrder | tests/prd-interview-regression.mjs:78-83 | a question asked after the answers ran out keeps the answer-order invariant |
| Interview.ObserveKeepsOrder | tests/prd-interview-regression.mjs:78-83 | every agent event keeps the answer-order invariant |
| Interview.ReplayKeepsOrder | tests/prd-interview-regression.mjs:78-83 | a whole agent run keeps the answer-order invariant |
| Interview.ReplayCountsQuestions | tests/prd-interview-regression.mjs:78-83 | until a terminal phase, every question marker the agent prints is counted once |
| Interview.AnswersForwardedInOrder | tests/prd-interview-regression.mjs:162-169 | the agent receives exactly the first min(questions, answers) answers, in order, each right after the question it answers |
| Interview.ObserveShowsLine | tests/prd-interview-regression.mjs:154-155 | each line the agent prints is shown once, and nothing else is shown |
| Interview.ReplayShowsEverything | tests/prd-interview-regression.mjs:154-156 | the output holds every agent line in order |
| Interview.OutputShowsAgentLines | tests/prd-interview-regression.mjs:154-156 | the command's output begins with every line the agent printed, in order |
| Interview.ReplayRecordsArtifact | tests/prd-interview-regression.mjs:170-171 | the session records a written PRD iff the agent wrote one |
| Interview.ArtifactIffWrittenAndConfirmed | tests/prd-interview-regression.mjs:207 | the PRD file exists afterwards iff the agent wrote it and confirmed the save |
| Interview.Orchestrate | tests/prd-interview-regression.mjs:75-87 | the step-by-step orchestration loop computes exactly the outcome of the pure `RunInterview` fold |
| PrdCommand.RunPrd | tests/prd-input-editing.mjs:92-118 | the runner is called once for a request and never for an empty one, a prompt file is written iff there is a request, status 0 needs a request, and a PRD file needs a request and the agent interview |
| PrdCommand.EmptyRequestRunsNothing | tests/prd-input-editing.mjs:115-118 | an empty request exits non-zero with `No description provided.`, with no runner call, agent or PRD file |
| PrdCommand.RequestRunsOnce | tests/prd-input-editing.mjs:95-99 | a request calls the runner once, with a prompt file holding the text and one newline |
| PrdCommand.ContainsAt | tests/prd-interview-regression.mjs:159 | a text that holds `p` at some position contains `p` |
| PrdCommand.PromptCarriesRequest | tests/prd-interview-regression.mjs:157-161 | the agent's prompt contains `User request:`, a newline and the request verbatim |
| PrdCommand.Send | tests/prd-input-editing.mjs:84-88 | one `send` runs the bytes through the decoder and the editor: still editing with the line `Run` gives, or finished with its result |
| PrdCommand.TextThenDelDecodes | tests/prd-input-editing.mjs:85 | a typeable text followed by DEL decodes to its inserts and one backspace |
| PrdCommand.TypingThenBackspace | tests/prd-input-editing.mjs:85 | typing a text and pressing backspace leaves the text minus its last character, with the cursor at the end |
| PrdCommand.TypingThenEnter | tests/prd-input-editing.mjs:88 | one typeable character followed by CR decodes to its insert and a submit |
| PrdCommand.TypedLineSubmitted | tests/prd-interview-regression.mjs:76-77 | typing a non-empty request and pressing Enter submits exactly that request |
| PrdCommand.TextThenEnterDecodes | tests/prd-interview-regression.mjs:76-77 | the bytes of a typeable request followed by CR decode to its inserts and a submit |
| PrdCommand.RequestKeystrokesSubmit | tests/prd-interview-regression.mjs:76-77 | a typeable request sent as its bytes and a carriage return is read as exactly that request, with nothing left pending |
| PrdCommand.InsertThenSubmit | tests/prd-input-editing.mjs:88 | typing a character and Enter submits the line with that character at the cursor |
| PrdCommand.PressLeft | tests/prd-input-editing.mjs:86 | k left-arrow `send`s move the cursor k places left and change no text |
| PrdCommand.PressDelete | tests/prd-input-editing.mjs:87 | a delete-key `send` acts as `DeleteForward` |
| PrdCommand.TypeThenErase | tests/prd-input-editing.mjs:85 | sending a text and DEL leaves all but its last character, with the cursor at the end |
| PrdCommand.TypeThenEnter | tests/prd-input-editing.mjs:88 | sending a character and CR submits the line with the character inserted at the cursor |
| PrdCommand.Correction | tests/prd-input-editing.mjs:85-88 | after dropping the last character, moving 7 left, deleting and inserting, the 8th character from the end of the typed text is replaced |
| PrdCommand.EditRequest | tests/prd-input-editing.mjs:84-101 | for any typeable text of at least 8 characters, the edit sequence exits 0, calls the runner once, and captures the corrected text plus a newline |
| PrdCommand.EditedRequestScenario | tests/prd-input-editing.mjs:84-101 | typing `вот мои текст!` with those edits exits 0, calls the runner once, and captures `вот мой текст` and a newline |
| PrdCommand.EmptyRequestScenario | tests/prd-input-editing.mjs:107-122 | Enter alone exits non-zero with `No description provided.` and never calls the runner |
| PrdCommand.AbsentFirstCharacter | tests/prd-interview-regression.mjs:132 | a text lacking a phrase's first character does not contain the phrase |
| PrdCommand.NoConfirmationWithoutP | tests/prd-interview-regression.mjs:132 | a line without `P` is not a save confirmation |
| PrdCommand.PlainQuestion | tests/prd-interview-regression.mjs:103-106 | `Question`, a digit, a colon and text without `P` make a question that is not a confirmation |
| PrdCommand.FirstQuestionIsMarker | tests/prd-interview-regression.mjs:103 | the first mock question is a question marker, not a confirmation |
| PrdCommand.SecondQuestionIsMarker | tests/prd-interview-regression.mjs:106 | the second mock question is a question marker, not a confirmation |
| PrdCommand.UnexpectedEndIsPlain | tests/prd-interview-regression.mjs:132 | the failure mock's last line is neither a question nor a confirmation |
| PrdCommand.TwoQuestionsBothAnswered | tests/prd-interview-regression.mjs:162-169 | two questions with two answers and no later question: both answers are delivered in order and both questions are shown |
| PrdCommand.QwenDiagnostic | tests/prd-interview-regression.mjs:194-197 | for the agent `qwen`, the diagnostic reads `Qwen PRD session ended before PRD save confirmation.` |
| PrdCommand.RequestTyped | tests/prd-interview-regression.mjs:75-77 | the interview driver's keystrokes for its request produce `Submitted(Request)`, the line both interview scenarios start from |
| PrdCommand.SavedLineConfirms | tests/prd-interview-regression.mjs:118 | the success mock's last line is a save confirmation whatever the output path |
| PrdCommand.TwoQuestionsThenSave | tests/prd-interview-regression.mjs:98-119 | two questions, a written PRD and a confirmation give exit 0, both answers delivered, every line shown, and the PRD kept |
| PrdCommand.InterviewSucceeds | tests/prd-interview-regression.mjs:140-176 | the success scenario exits 0 and shows both questions and the save line. The prompt carries `User request:` and the request, both answers reach the agent, and the PRD file exists |
| PrdCommand.TwoQuestionsThenExit | tests/prd-interview-regression.mjs:121-133 | two questions and a plain last line give a non-zero exit with the diagnostic and `Troubleshooting:`, both answers delivered and no PRD |
| PrdCommand.ThreeLinesUnconfirmed | tests/prd-interview-regression.mjs:126-132 | three lines that are not confirmations do not confirm the save |
| PrdCommand.InterviewFailsWithoutConfirmation | tests/prd-interview-regression.mjs:178-211 | the failure scenario exits non-zero, shows both questions and prints the Qwen diagnostic and `Troubleshooting:`. Both answers still reach the agent, and no PRD file exists |
| PrdCommand.FailureScenario | tests/prd-interview-regression.mjs:132 | with the failure mock's own last line, `Interview ended unexpectedly without saving.`, every assertion of the failure block holds: non-zero status, both questions shown, the Qwen diagnostic and `Troubleshooting:` printed, both answers delivered, no PRD file |

## Left out

- The pseudo-terminal, `expect`, `spawnSync`, child processes, environment variables such as `RALPH_SKIP_UPDATE_CHECK`, timeouts and the temporary project directories. These are test plumbing. The model works on the bytes sent and the lines printed.
- The file system: the loop counter file, the captured request, `mock-prompt.txt` and the answer files. Each becomes a field of `PrdRun` or `Outcome`: `runnerCalls`, `promptFile`, `agentPrompt`, `delivered` and `artifactExists`.
- The mock `loop.sh` and the mock agents are not modelled as executables. The runner is the `Runner` datatype, and an agent is the sequence of events it produces (`AgentEvent`).
- The JSON content of the PRD the success mock writes: only whether the file exists is tracked.
- `loop.sh`'s own prompt preamble is a parameter (`preamble`). Only the `User request:` label and the request that follow it are modelled.
- String coercion (`String(value)`) in the quoting helpers: the model quotes strings only.
- Tcl `$` and `[` substitution inside double quotes. `TclBody` undoes only `\\` and `\"`, so the round trip is about escaping. It does not cover Tcl evaluation of request text holding `$` or `[`.
- Quoting.ShellUnquoted: the shell reader covers only words made of single-quoted parts and backslash escapes. Bare unquoted characters are rejected rather than subjected to word splitting and expansion, which `shellQuote` output never needs.
- The right arrow, Home/End and other editing keys are not modelled: their escape sequences are dropped whole, with no event. Screen redrawing of the prompt is left out as well.
- KeyDecoder.NextLexeme: an `ESC` followed by a control byte or a non-ASCII byte is dropped on its own, and that byte is decoded afresh. Only `ESC [` control sequences, `ESC O` keys and `ESC` with a printable character are consumed as one unit. An `ESC [` or `ESC O` sequence broken off by a byte that is neither a parameter nor a final byte is dropped up to that byte, which is then decoded afresh.
- Ctrl-C (the interrupt, a `Cancel` event) is not modelled: byte 0x03 is dropped like any other unknown control byte, so cancelling a prompt or an interview is left out.
- LineEditor.Editor.Submit: only an empty buffer yields `EmptyInput`. A line of blanks is submitted as it is, because the model does no whitespace trimming.
- Trimming: the drivers compare answers after `.trim()` and the loop count after trimming. The model delivers answers exactly, which implies the trimmed comparison.
- The agent's `read -r` line handling is not modelled: an answer is delivered as one string.
- Interview.Conclude: the failure exit status is fixed at 1, whereas the drivers require only a non-zero status.
- PrdCommand.RunPrd: the empty-request exit status is fixed at 1, whereas the drivers require only a non-zero status.
- Interview.DisplayName: only an ASCII first letter `a`..`z` is upper-cased; a name starting with a non-ASCII letter such as `é` is kept as it is, since Unicode case mapping is not modelled.
- The agent's own exit status is ignored: success depends only on whether a save confirmation was printed.
- Troubleshooting hints after the `Troubleshooting:` heading are not modelled. Only the heading and the diagnostic line are.
- `tclQuote` appears identically in both drivers, so it is modelled once.
