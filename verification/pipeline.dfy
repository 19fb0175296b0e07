/** One run of the interactive commit generator as a state machine. The
    environment fixes everything the run reads from outside (the two typed
    answers, what git and the completion service return, the keys pressed);
    the run emits the trace of its outward effects and ends in one of a few
    terminal states. Any thrown error ends the run in `Failed`. */
module Pipeline {
  import opened Wrappers
  import opened Text
  import Proposal
  import Prompt
  import Confirm

  datatype Mode = Automatic | Manual

  /** A response body as the HTTP client reads it. */
  datatype Body =
    | NotJson                             // not parseable as JSON, the empty body included
    | JsonNull                            // the JSON literal `null`
    | Json(choices: Option<seq<string>>)  // any other JSON value; the `text` of each `choices` entry, when it has that list

  /** What the completion endpoint gave back: no response at all (a network
      error), or a response with its HTTP status and body. */
  datatype Reply = RequestFailed | Response(status: int, body: Body)

  /** The statuses axios resolves on; it rejects every other one. */
  predicate SuccessStatus(status: int) {
    200 <= status < 300
  }

  datatype Env = Env(
    modeAnswer: string,       // the line typed at the mode prompt
    pathAnswer: string,       // the line typed at the path prompt (automatic mode only)
    stagingSucceeds: bool,    // whether `git add …` exits successfully
    stagedDiff: string,       // what `git diff --staged` prints after staging
    diffFile: Option<string>, // the saved diff snapshot before the run, if the file exists
    reply: Reply,
    keys: seq<string>,        // the chunks raw-mode stdin delivers at the confirmation prompt
    commitSucceeds: bool      // whether the final `git commit` exits successfully
  )

  datatype Effect =
    | GitAdd(command: string)
    | GitDiff
    | WriteDiff(content: string)
    | ApiCall(template: Prompt.Template, diff: string)  // a completion request whose prompt is `Prompt.PromptText(template, diff)`
    | WriteOutput(content: string)
    | AskYesNo
    | ExecCommit(command: string)
    | PrintCommand(command: string)

  datatype End =
    | Committed        // the user said yes and `git commit` succeeded
    | Declined         // the user said no; the command is printed for later
    | Saved            // manual mode: the command is saved and printed
    | NothingToCommit  // the diff was blank
    | NoChoices        // the reply held no completion
    | Interrupted      // Ctrl+C at the confirmation prompt
    | AwaitingKey      // the key stream ended with the prompt still waiting
    | Failed           // an error was thrown and caught

  datatype Phase =
    | SelectMode
    | AskPath
    | ReadDiff(mode: Mode)
    | Request(mode: Mode, diff: string)
    | SaveCommand(mode: Mode, command: string)
    | AwaitConfirmation(command: string)
    | Finished(end: End)

  datatype Outcome = Outcome(end: End, trace: seq<Effect>)

  /** The answer is trimmed; only exactly "1" selects the automatic mode. */
  function ChooseMode(answer: string): (m: Mode)
    ensures m == Automatic <==> Trim(answer) == "1"
  {
    if Trim(answer) == "1" then Automatic else Manual
  }

  /** The staging command for the (trimmed) path answer: `all` in any case
      stages everything, anything else is pasted after `git add ` unchanged. */
  function StageCommand(input: string): (cmd: string)
    ensures |cmd| >= 8 && cmd[..8] == "git add "
    ensures Lower(input) != "all" ==> cmd[8..] == input
  {
    if Lower(input) == "all" then "git add ." else "git add " + input
  }

  /** Exactly the case variants of `all`, and a literal `.`, stage everything. */
  lemma {:induction false} StageAllIff(input: string)
    ensures StageCommand(input) == "git add ." <==>
      input == "." || (|input| == 3 && input[0] in "aA" && input[1] in "lL" && input[2] in "lL")
  {
    var cmd := StageCommand(input);
    if Lower(input) == "all" {
      assert |input| == 3;
      assert LowerChar(input[0]) == 'a' && LowerChar(input[1]) == 'l' && LowerChar(input[2]) == 'l';
    } else {
      assert cmd[8..] == input;
    }
  }

  /** Distance to the end of the run: every step strictly lowers it. */
  function Rank(ph: Phase): nat {
    match ph
    case SelectMode => 6
    case AskPath => 5
    case ReadDiff(_) => 4
    case Request(_, _) => 3
    case SaveCommand(_, _) => 2
    case AwaitConfirmation(_) => 1
    case Finished(_) => 0
  }

  /** The command line the run derives from a completion text. */
  function CommandFor(output: string): string {
    Proposal.CommitCommand(Proposal.Parse(output))
  }

  /** The first completion text, when the body has a non-empty `choices` list. */
  function FirstChoice(body: Body): Option<string> {
    if body.Json? && body.choices.Some? && |body.choices.value| > 0 then Some(body.choices.value[0]) else None
  }

  /** axios resolves with a body whose `choices` can be read: a 2xx status
      and anything but `null` (a body that is not JSON stays a string, and
      a string has no `choices`). */
  predicate Delivered(reply: Reply) {
    reply.Response? && SuccessStatus(reply.status) && !reply.body.JsonNull?
  }

  /** The reply reaches the script with at least one completion. */
  predicate HasChoices(reply: Reply) {
    Delivered(reply) && FirstChoice(reply.body).Some?
  }

  /** What a reply comes to: an error was thrown on the way (the request
      was rejected, or `choices` was read off `null`), the body held no
      completion, or the command proposed from the first completion. */
  datatype Answer = Threw | NoCompletion | Proposed(command: string)

  /** The reply as the interactive generator's axios call and its
      `choices` guard read it. */
  function AnswerOf(reply: Reply): Answer {
    if !Delivered(reply) then Threw
    else match FirstChoice(reply.body)
      case None => NoCompletion
      case Some(text) => Proposed(CommandFor(text))
  }

  /** The confirmation prompt for `command`, once the key stream has come
      to `verdict`: a yes runs the command, a no prints it, Ctrl+C ends the
      process, and a stream that never decides leaves the prompt waiting. */
  function Confirmation(verdict: Confirm.Verdict, commitSucceeds: bool, command: string): Outcome {
    match verdict
    case Answered(yes) =>
      if yes then Outcome(if commitSucceeds then Committed else Failed, [AskYesNo, ExecCommit(command)])
      else Outcome(Declined, [AskYesNo, PrintCommand(command)])
    case Interrupted => Outcome(Interrupted, [AskYesNo])
    case Waiting => Outcome(AwaitingKey, [AskYesNo])
  }

  /** One transition: the next phase and the effects performed on the way. */
  function Step(env: Env, ph: Phase): (Phase, seq<Effect>) {
    match ph
    case SelectMode =>
      if ChooseMode(env.modeAnswer) == Automatic then (AskPath, []) else (ReadDiff(Manual), [])
    case AskPath =>
      var stage := GitAdd(StageCommand(Trim(env.pathAnswer)));
      if env.stagingSucceeds then (ReadDiff(Automatic), [stage, GitDiff, WriteDiff(env.stagedDiff)])
      else (Finished(Failed), [stage])
    case ReadDiff(mode) =>
      // Automatic mode has just written the staged diff to the snapshot file.
      var file := if mode == Automatic then Some(env.stagedDiff) else env.diffFile;
      if file.None? then (Finished(Failed), [])
      else if Trim(file.value) == "" then (Finished(NothingToCommit), [])
      else (Request(mode, file.value), [])
    case Request(mode, diff) =>
      var call := [ApiCall(Prompt.Interactive, diff)];
      (match AnswerOf(env.reply)
       case Threw => (Finished(Failed), call)
       case NoCompletion => (Finished(NoChoices), call)
       case Proposed(command) => (SaveCommand(mode, command), call))
    case SaveCommand(mode, command) =>
      if mode == Automatic then (AwaitConfirmation(command), [WriteOutput(command)])
      else (Finished(Saved), [WriteOutput(command), PrintCommand(command)])
    case AwaitConfirmation(command) =>
      var c := Confirmation(Confirm.AwaitYesNo(env.keys), env.commitSucceeds, command);
      (Finished(c.end), c.trace)
    case Finished(_) => (ph, [])
  }

  /** Every step moves strictly closer to the end; a finished run stays put. */
  lemma StepLowersRank(env: Env, ph: Phase)
    ensures !ph.Finished? ==> Rank(Step(env, ph).0) < Rank(ph)
    ensures ph.Finished? ==> Step(env, ph) == (ph, [])
  {
    match ph
    case Request(mode, diff) =>
      if AnswerOf(env.reply).Proposed? {
        assert Step(env, ph).0 == SaveCommand(mode, AnswerOf(env.reply).command);
      }
    case _ =>
  }

  /** Steps from `ph` to a terminal phase, collecting the effects. */
  function Run(env: Env, ph: Phase): Outcome
    decreases Rank(ph)
  {
    if ph.Finished? then Outcome(ph.end, [])
    else
      var next := Step(env, ph);
      StepLowersRank(env, ph);
      var rest := Run(env, next.0);
      Outcome(rest.end, next.1 + rest.trace)
  }

  /** A whole run. */
  function Execute(env: Env): Outcome {
    Run(env, SelectMode)
  }

  // ----- The same run read straight off the script's nested conditionals -----

  /** The diff the run works on, if it gets that far: the staged diff in
      automatic mode once staging succeeded, the saved snapshot otherwise. */
  function AcquiredDiff(env: Env): Option<string> {
    if ChooseMode(env.modeAnswer) == Automatic then
      if env.stagingSucceeds then Some(env.stagedDiff) else None
    else env.diffFile
  }

  /** The diff was acquired and is not blank, so the request is sent. */
  predicate Proceeds(env: Env) {
    AcquiredDiff(env).Some? && !Blank(AcquiredDiff(env).value)
  }

  /** The command the run writes once it has a completion. */
  function ProposedCommand(env: Env): string
    requires HasChoices(env.reply)
  {
    CommandFor(FirstChoice(env.reply.body).value)
  }

  /** Everything the run branches on, read off the environment once. */
  datatype Decisions = Decisions(
    mode: Mode,
    stage: string,           // the staging command
    stagingSucceeds: bool,
    stagedDiff: string,
    diff: Option<string>,    // the diff read back, if reading it succeeds
    answer: Answer,
    verdict: Confirm.Verdict,
    commitSucceeds: bool
  )

  function Decide(env: Env): Decisions {
    Decisions(
      ChooseMode(env.modeAnswer), StageCommand(Trim(env.pathAnswer)), env.stagingSucceeds,
      env.stagedDiff, AcquiredDiff(env), AnswerOf(env.reply), Confirm.AwaitYesNo(env.keys),
      env.commitSucceeds)
  }

  /** Decisions a real environment can produce: in automatic mode the diff
      read back is the staged one, and there is none when staging failed. */
  predicate Coherent(d: Decisions) {
    d.mode == Automatic ==> d.diff == if d.stagingSucceeds then Some(d.stagedDiff) else None
  }

  /** The effects before the diff is read: staging and capturing the diff
      in automatic mode, nothing in manual mode. */
  function Staging(d: Decisions): seq<Effect> {
    if d.mode == Manual then []
    else if d.stagingSucceeds then [GitAdd(d.stage), GitDiff, WriteDiff(d.stagedDiff)]
    else [GitAdd(d.stage)]
  }

  /** A usable diff was read, so the request goes out. */
  predicate Sends(d: Decisions) {
    d.diff.Some? && !Blank(d.diff.value)
  }

  /** What follows the request: give up without a completion, otherwise
      write the command, then print it (manual) or confirm it (automatic). */
  function Respond(d: Decisions): Outcome {
    match d.answer
    case Threw => Outcome(Failed, [])
    case NoCompletion => Outcome(NoChoices, [])
    case Proposed(command) =>
      if d.mode == Manual then Outcome(Saved, [WriteOutput(command), PrintCommand(command)])
      else
        var c := Confirmation(d.verdict, d.commitSucceeds, command);
        Outcome(c.end, [WriteOutput(command)] + c.trace)
  }

  /** Everything after staging: read and check the diff, request, respond. */
  function AfterStaging(d: Decisions): Outcome {
    if d.diff.None? then Outcome(Failed, [])
    else if Blank(d.diff.value) then Outcome(NothingToCommit, [])
    else
      var r := Respond(d);
      Outcome(r.end, [ApiCall(Prompt.Interactive, d.diff.value)] + r.trace)
  }

  /** The run as the script's straight-line code: stage and capture, then
      the rest. */
  function Plan(d: Decisions): Outcome {
    var rest := AfterStaging(d);
    Outcome(rest.end, Staging(d) + rest.trace)
  }

  lemma RunFromSaveManual(env: Env, command: string)
    ensures Run(env, SaveCommand(Manual, command)) == Outcome(Saved, [WriteOutput(command), PrintCommand(command)])
  {
    var next := Step(env, SaveCommand(Manual, command));
    assert next.1 + [] == next.1;
  }

  lemma RunFromConfirmation(env: Env, command: string)
    ensures Run(env, AwaitConfirmation(command)) == Confirmation(Confirm.AwaitYesNo(env.keys), env.commitSucceeds, command)
  {
    var next := Step(env, AwaitConfirmation(command));
    assert next.1 + [] == next.1;
  }

  lemma RunFromSaveAutomatic(env: Env, command: string)
    ensures Run(env, SaveCommand(Automatic, command)) ==
      var c := Confirmation(Confirm.AwaitYesNo(env.keys), env.commitSucceeds, command);
      Outcome(c.end, [WriteOutput(command)] + c.trace)
  {
    RunFromConfirmation(env, command);
  }

  lemma RunFromRequest(env: Env, diff: string)
    ensures var call := [ApiCall(Prompt.Interactive, diff)]; var d := Decide(env); var r := Respond(d);
      Run(env, Request(d.mode, diff)) == Outcome(r.end, call + r.trace)
  {
    var d := Decide(env);
    var call := [ApiCall(Prompt.Interactive, diff)];
    match d.answer
    case Proposed(command) =>
      if d.mode == Automatic {
        RunFromSaveAutomatic(env, command);
      } else {
        RunFromSaveManual(env, command);
      }
    case _ =>
      assert call + [] == call;
  }

  lemma RunFromReadDiff(env: Env, mode: Mode)
    ensures var file := if mode == Automatic then Some(env.stagedDiff) else env.diffFile;
      Run(env, ReadDiff(mode)) ==
        if file.None? then Outcome(Failed, [])
        else if Trim(file.value) == "" then Outcome(NothingToCommit, [])
        else Run(env, Request(mode, file.value))
  {
    var next := Step(env, ReadDiff(mode));
    assert [] + Run(env, next.0).trace == Run(env, next.0).trace;
  }

  /** Reading the diff onward, the state machine does what the straight-line
      code does. */
  lemma ReadDiffMatchesPlan(env: Env)
    requires ChooseMode(env.modeAnswer) == Automatic ==> env.stagingSucceeds
    ensures Run(env, ReadDiff(ChooseMode(env.modeAnswer))) == AfterStaging(Decide(env))
  {
    var d := Decide(env);
    RunFromReadDiff(env, d.mode);
    if d.diff.Some? {
      TrimEmptyIffBlank(d.diff.value);
      if !Blank(d.diff.value) {
        RunFromRequest(env, d.diff.value);
      }
    }
  }

  lemma RunFromAskPath(env: Env)
    ensures var stage := GitAdd(StageCommand(Trim(env.pathAnswer)));
      Run(env, AskPath) ==
        if !env.stagingSucceeds then Outcome(Failed, [stage])
        else var rd := Run(env, ReadDiff(Automatic)); Outcome(rd.end, [stage, GitDiff, WriteDiff(env.stagedDiff)] + rd.trace)
  {
  }

  /** The state machine performs exactly the script's effects and ends where
      the script ends. */
  lemma ExecuteMatchesPlan(env: Env)
    ensures Execute(env) == Plan(Decide(env))
    ensures Coherent(Decide(env))
  {
    var d := Decide(env);
    if d.mode == Automatic {
      assert Run(env, SelectMode) == Run(env, AskPath);
      RunFromAskPath(env);
      if env.stagingSucceeds {
        ReadDiffMatchesPlan(env);
      }
    } else {
      assert Run(env, SelectMode) == Run(env, ReadDiff(Manual));
      ReadDiffMatchesPlan(env);
      assert Staging(d) + AfterStaging(d).trace == AfterStaging(d).trace;
    }
  }

  // ----- Properties of the straight-line run, for any decisions -----

  /** Membership in a trace with one effect in the middle. */
  lemma InJoin(a: seq<Effect>, x: Effect, b: seq<Effect>)
    ensures forall e :: e in a + ([x] + b) <==> e in a || e == x || e in b
  {
  }

  /** The trace is the staging effects, then, if the request goes out, the
      request and the response. */
  lemma PlanShape(d: Decisions)
    ensures !Sends(d) ==> Plan(d).trace == Staging(d)
    ensures Sends(d) ==> Plan(d).trace == Staging(d) + ([ApiCall(Prompt.Interactive, d.diff.value)] + Respond(d).trace)
    ensures Sends(d) ==> Plan(d).end == Respond(d).end
  {
  }

  /** Staging only stages and captures, and happens in automatic mode only. */
  lemma StagingEffects(d: Decisions)
    ensures forall e :: e in Staging(d) ==> e.GitAdd? || e.GitDiff? || e.WriteDiff?
    ensures d.mode == Manual ==> Staging(d) == []
  {
  }

  /** Effects that can follow the reply once `command` was proposed. */
  predicate ReplyEffect(e: Effect, command: string) {
    e == WriteOutput(command) || e == AskYesNo || e == ExecCommit(command) || e == PrintCommand(command)
  }

  /** The confirmation only asks, then commits or prints `command`; it
      commits exactly on a yes. */
  lemma ConfirmationEffects(verdict: Confirm.Verdict, ok: bool, command: string)
    ensures forall e :: e in Confirmation(verdict, ok, command).trace ==>
      e == AskYesNo || e == ExecCommit(command) || e == PrintCommand(command)
    ensures (exists e :: e in Confirmation(verdict, ok, command).trace && e.ExecCommit?) <==> verdict == Confirm.Answered(true)
  {
    var t := Confirmation(verdict, ok, command).trace;
    if verdict == Confirm.Answered(true) {
      assert t[1] == ExecCommit(command);
    }
  }

  /** After the reply the run only writes, asks, commits or prints, always
      the proposed command; manual mode only writes and prints. */
  lemma RespondEffects(d: Decisions)
    ensures forall e :: e in Respond(d).trace ==> d.answer.Proposed? && ReplyEffect(e, d.answer.command)
    ensures d.mode == Manual ==> forall e :: e in Respond(d).trace ==> e.WriteOutput? || e.PrintCommand?
  {
    if d.answer.Proposed? && d.mode == Automatic {
      ConfirmationEffects(d.verdict, d.commitSucceeds, d.answer.command);
    }
  }

  /** With a completion, writing the proposal comes first; the commit runs
      only on a yes in automatic mode. */
  lemma RespondWritesFirst(d: Decisions)
    ensures d.answer.Proposed? ==> |Respond(d).trace| >= 1 && Respond(d).trace[0] == WriteOutput(d.answer.command)
    ensures (exists e :: e in Respond(d).trace && e.ExecCommit?) <==>
      d.answer.Proposed? && d.mode == Automatic && d.verdict == Confirm.Answered(true)
  {
    if d.answer.Proposed? && d.mode == Automatic {
      var c := Confirmation(d.verdict, d.commitSucceeds, d.answer.command);
      ConfirmationEffects(d.verdict, d.commitSucceeds, d.answer.command);
      assert Respond(d).trace == [WriteOutput(d.answer.command)] + c.trace;
      assert forall e :: e in Respond(d).trace && e.ExecCommit? <==> e in c.trace && e.ExecCommit?;
    }
  }

  /** Manual decisions never stage, capture, ask or commit. */
  lemma PlanManual(d: Decisions)
    requires d.mode == Manual
    ensures forall e :: e in Plan(d).trace ==> !e.GitAdd? && !e.GitDiff? && !e.WriteDiff? && !e.AskYesNo? && !e.ExecCommit?
    ensures Plan(d).end in {Failed, NothingToCommit, NoChoices, Saved}
  {
    PlanShape(d);
    StagingEffects(d);
    RespondEffects(d);
    if Sends(d) {
      InJoin(Staging(d), ApiCall(Prompt.Interactive, d.diff.value), Respond(d).trace);
    }
  }

  /** The request goes out only when the diff read is usable, and then
      carries that diff. */
  lemma PlanCalls(d: Decisions)
    ensures (exists e :: e in Plan(d).trace && e.ApiCall?) <==> Sends(d)
    ensures forall e :: e in Plan(d).trace && e.ApiCall? ==> Sends(d) && e == ApiCall(Prompt.Interactive, d.diff.value)
  {
    PlanShape(d);
    StagingEffects(d);
    RespondEffects(d);
    if Sends(d) {
      var call := ApiCall(Prompt.Interactive, d.diff.value);
      InJoin(Staging(d), call, Respond(d).trace);
      assert call in Plan(d).trace;
    }
  }

  /** When it goes out, the request goes out exactly once. */
  lemma PlanCallsOnce(d: Decisions)
    requires Sends(d)
    ensures multiset(Plan(d).trace)[ApiCall(Prompt.Interactive, d.diff.value)] == 1
  {
    PlanShape(d);
    StagingEffects(d);
    RespondEffects(d);
    var call := ApiCall(Prompt.Interactive, d.diff.value);
    var before, after := Staging(d), Respond(d).trace;
    assert call !in before && call !in after;
    assert multiset(before)[call] == 0 && multiset(after)[call] == 0;
    calc {
      multiset(Plan(d).trace)[call];
      multiset(before + ([call] + after))[call];
      multiset(before)[call] + multiset([call])[call] + multiset(after)[call];
    }
  }

  /** The command is written exactly when a sent request got a completion,
      and what is written is the proposed command. */
  lemma PlanOutput(d: Decisions)
    ensures (exists e :: e in Plan(d).trace && e.WriteOutput?) <==> Sends(d) && d.answer.Proposed?
    ensures forall e :: e in Plan(d).trace && e.WriteOutput? ==> d.answer.Proposed? && e.content == d.answer.command
  {
    PlanShape(d);
    StagingEffects(d);
    RespondEffects(d);
    RespondWritesFirst(d);
    if Sends(d) {
      var call := ApiCall(Prompt.Interactive, d.diff.value);
      var after := Respond(d).trace;
      InJoin(Staging(d), call, after);
      if d.answer.Proposed? {
        assert after[0] in Plan(d).trace;
      }
    }
  }

  /** The command runs exactly when a sent request got a completion that
      the user confirmed in automatic mode. */
  lemma PlanCommits(d: Decisions)
    ensures (exists e :: e in Plan(d).trace && e.ExecCommit?) <==>
      d.mode == Automatic && Sends(d) && d.answer.Proposed? && d.verdict == Confirm.Answered(true)
  {
    PlanShape(d);
    StagingEffects(d);
    RespondWritesFirst(d);
    if Sends(d) {
      var after := Respond(d).trace;
      InJoin(Staging(d), ApiCall(Prompt.Interactive, d.diff.value), after);
      if d.mode == Automatic && d.answer.Proposed? && d.verdict == Confirm.Answered(true) {
        var e :| e in after && e.ExecCommit?;
        assert e in Plan(d).trace;
      }
    }
  }

  /** How the straight-line run ends. */
  lemma PlanEnds(d: Decisions)
    ensures Plan(d).end == NothingToCommit <==> d.diff.Some? && Blank(d.diff.value)
    ensures Plan(d).end == NoChoices <==> Sends(d) && d.answer.NoCompletion?
    ensures Plan(d).end == Saved <==> d.mode == Manual && Sends(d) && d.answer.Proposed?
    ensures Plan(d).end == Committed <==>
      d.mode == Automatic && Sends(d) && d.answer.Proposed? && d.verdict == Confirm.Answered(true) && d.commitSucceeds
    ensures Plan(d).end == Declined <==>
      d.mode == Automatic && Sends(d) && d.answer.Proposed? && d.verdict == Confirm.Answered(false)
    ensures Plan(d).end == Interrupted <==>
      d.mode == Automatic && Sends(d) && d.answer.Proposed? && d.verdict == Confirm.Interrupted
    ensures Plan(d).end == AwaitingKey <==>
      d.mode == Automatic && Sends(d) && d.answer.Proposed? && d.verdict == Confirm.Waiting
  {
  }

  /** An accepted run, effect by effect. */
  lemma PlanAccepted(d: Decisions)
    requires Coherent(d) && d.mode == Automatic && Sends(d) && d.answer.Proposed? && d.verdict == Confirm.Answered(true)
    ensures var c := d.answer.command;
      Plan(d) == Outcome(if d.commitSucceeds then Committed else Failed,
        [GitAdd(d.stage), GitDiff, WriteDiff(d.stagedDiff), ApiCall(Prompt.Interactive, d.stagedDiff),
         WriteOutput(c), AskYesNo, ExecCommit(c)])
  {
    var c := d.answer.command;
    assert Respond(d).trace == [WriteOutput(c), AskYesNo, ExecCommit(c)];
  }

  // ----- What a run does, stated over the environment -----

  /** The answer to the mode prompt decides the mode, as the script's
      `mode === "1"` test on the trimmed answer does. */
  lemma DecideReadsEnv(env: Env)
    ensures Decide(env).mode == ChooseMode(env.modeAnswer)
    ensures Decide(env).diff == AcquiredDiff(env)
    ensures Sends(Decide(env)) <==> Proceeds(env)
    ensures Decide(env).answer.Threw? <==> !Delivered(env.reply)
    ensures Decide(env).answer.Proposed? <==> HasChoices(env.reply)
    ensures HasChoices(env.reply) ==> Decide(env).answer.command == ProposedCommand(env)
    ensures Decide(env).verdict == Confirm.AwaitYesNo(env.keys)
  {
  }

  /** The user confirmed a proposal in automatic mode. */
  predicate Accepted(env: Env) {
    && ChooseMode(env.modeAnswer) == Automatic
    && Proceeds(env)
    && HasChoices(env.reply)
    && Confirm.AwaitYesNo(env.keys) == Confirm.Answered(true)
  }

  /** Manual mode never stages, diffs, snapshots, prompts for a key or
      commits, and cannot end in a state only the confirmation reaches. */
  lemma ManualLeavesRepositoryAlone(env: Env)
    requires ChooseMode(env.modeAnswer) == Manual
    ensures forall e :: e in Execute(env).trace ==>
      !e.GitAdd? && !e.GitDiff? && !e.WriteDiff? && !e.AskYesNo? && !e.ExecCommit?
    ensures Execute(env).end in {Failed, NothingToCommit, NoChoices, Saved}
  {
    ExecuteMatchesPlan(env);
    PlanManual(Decide(env));
  }

  /** Automatic mode first stages the chosen path; if staging throws, the run
      stops there, and otherwise the staged diff is captured and saved next. */
  lemma AutomaticStagesFirst(env: Env)
    requires ChooseMode(env.modeAnswer) == Automatic
    ensures |Execute(env).trace| >= 1
    ensures Execute(env).trace[0] == GitAdd(StageCommand(Trim(env.pathAnswer)))
    ensures !env.stagingSucceeds ==> Execute(env) == Outcome(Failed, [GitAdd(StageCommand(Trim(env.pathAnswer)))])
    ensures env.stagingSucceeds ==>
      |Execute(env).trace| >= 3 && Execute(env).trace[1] == GitDiff && Execute(env).trace[2] == WriteDiff(env.stagedDiff)
  {
    ExecuteMatchesPlan(env);
    var d := Decide(env);
    PlanShape(d);
    var t := Plan(d).trace;
    assert t[..|Staging(d)|] == Staging(d);
  }

  /** The completion service is called exactly when a non-blank diff was
      acquired, once, and with that diff. */
  lemma CallIffProceeds(env: Env)
    ensures (exists e :: e in Execute(env).trace && e.ApiCall?) <==> Proceeds(env)
    ensures forall e :: e in Execute(env).trace && e.ApiCall? ==>
      Proceeds(env) && e == ApiCall(Prompt.Interactive, AcquiredDiff(env).value)
    ensures Proceeds(env) ==> multiset(Execute(env).trace)[ApiCall(Prompt.Interactive, AcquiredDiff(env).value)] == 1
  {
    ExecuteMatchesPlan(env);
    DecideReadsEnv(env);
    PlanCalls(Decide(env));
    if Proceeds(env) {
      PlanCallsOnce(Decide(env));
    }
  }

  /** The proposal is written exactly when the run gets a completion, and
      what is written is the command proposed from the first completion. */
  lemma OutputIffChoices(env: Env)
    ensures (exists e :: e in Execute(env).trace && e.WriteOutput?) <==> Proceeds(env) && HasChoices(env.reply)
    ensures forall e :: e in Execute(env).trace && e.WriteOutput? ==> HasChoices(env.reply) && e.content == ProposedCommand(env)
  {
    ExecuteMatchesPlan(env);
    DecideReadsEnv(env);
    PlanOutput(Decide(env));
  }

  /** `git commit` runs exactly when the user confirmed a proposal in
      automatic mode. */
  lemma CommitIffAccepted(env: Env)
    ensures (exists e :: e in Execute(env).trace && e.ExecCommit?) <==> Accepted(env)
  {
    ExecuteMatchesPlan(env);
    DecideReadsEnv(env);
    PlanCommits(Decide(env));
  }

  /** An accepted run, effect by effect: stage, capture, save, ask, write the
      command, prompt, and commit the very command that was written. */
  lemma AcceptedTrace(env: Env)
    requires Accepted(env)
    ensures var c := ProposedCommand(env);
      Execute(env) == Outcome(if env.commitSucceeds then Committed else Failed,
        [ GitAdd(StageCommand(Trim(env.pathAnswer))), GitDiff, WriteDiff(env.stagedDiff),
          ApiCall(Prompt.Interactive, env.stagedDiff), WriteOutput(c), AskYesNo, ExecCommit(c) ])
  {
    ExecuteMatchesPlan(env);
    DecideReadsEnv(env);
    PlanAccepted(Decide(env));
  }

  /** The confirmation prompt was reached and answered `answer`. */
  predicate Confirmed(env: Env, answer: Confirm.Verdict) {
    && ChooseMode(env.modeAnswer) == Automatic
    && Proceeds(env)
    && HasChoices(env.reply)
    && Confirm.AwaitYesNo(env.keys) == answer
  }

  /** Every terminal state but `Failed` is reached exactly under its own
      condition on the environment; `Failed` covers the rest (a staging or
      commit error, a missing snapshot, a failed request). */
  lemma EndOf(env: Env)
    ensures Execute(env).end == NothingToCommit <==> AcquiredDiff(env).Some? && Blank(AcquiredDiff(env).value)
    ensures Execute(env).end == NoChoices <==> Proceeds(env) && Delivered(env.reply) && !HasChoices(env.reply)
    ensures Execute(env).end == Saved <==>
      ChooseMode(env.modeAnswer) == Manual && Proceeds(env) && HasChoices(env.reply)
    ensures Execute(env).end == Committed <==> Accepted(env) && env.commitSucceeds
    ensures Execute(env).end == Declined <==> Confirmed(env, Confirm.Answered(false))
    ensures Execute(env).end == Interrupted <==> Confirmed(env, Confirm.Interrupted)
    ensures Execute(env).end == AwaitingKey <==> Confirmed(env, Confirm.Waiting)
  {
    ExecuteMatchesPlan(env);
    DecideReadsEnv(env);
    PlanEnds(Decide(env));
  }

  /** The automatic mode is chosen exactly by a "1" with nothing but white
      space around it. */
  lemma ModeIffPaddedOne(answer: string)
    ensures ChooseMode(answer) == Automatic <==>
      exists a, b :: Blank(a) && Blank(b) && answer == a + "1" + b
  {
    if ChooseMode(answer) == Automatic {
      var a, b := TrimSplit(answer);
      assert answer == a + "1" + b;
    }
    if exists a, b :: Blank(a) && Blank(b) && answer == a + "1" + b {
      var a, b :| Blank(a) && Blank(b) && answer == a + "1" + b;
      TrimPadded(a, "1", b);
    }
  }

  /** Any other answer, such as "2", "01" or nothing at all, is manual. */
  lemma ModeAnswers()
    ensures ChooseMode(" 1\n") == Automatic
    ensures ChooseMode("2") == Manual
    ensures ChooseMode("") == Manual
    ensures ChooseMode("01") == Manual
  {
    TrimPadded(" ", "1", "\n");
    assert " " + "1" + "\n" == " 1\n";
    TrimFixedIffTrimmed("2");
    TrimFixedIffTrimmed("01");
  }

  /** In manual mode an empty snapshot ends the run before anything happens. */
  lemma EmptySnapshotStops(env: Env)
    requires ChooseMode(env.modeAnswer) == Manual && env.diffFile == Some("")
    ensures Execute(env) == Outcome(NothingToCommit, [])
  {
    ExecuteMatchesPlan(env);
  }

  /** A 2xx reply with an empty `choices` list, or with a body that is not
      JSON, ends the run right after the request: nothing is written, asked
      or committed. */
  lemma EmptyChoicesStop(env: Env)
    requires Proceeds(env) && env.reply.Response? && SuccessStatus(env.reply.status)
    requires env.reply.body == Json(Some([])) || env.reply.body == NotJson
    ensures Execute(env).end == NoChoices
    ensures Execute(env).trace == Staging(Decide(env)) + [ApiCall(Prompt.Interactive, AcquiredDiff(env).value)]
  {
    ExecuteMatchesPlan(env);
    var d := Decide(env);
    assert Respond(d) == Outcome(NoChoices, []);
    PlanShape(d);
  }

  /** axios rejects a non-2xx status whatever the body holds, so the run
      fails right after the request. */
  lemma ErrorStatusFails(env: Env)
    requires Proceeds(env) && env.reply.Response? && !SuccessStatus(env.reply.status)
    ensures Execute(env).end == Failed
    ensures Execute(env).trace == Staging(Decide(env)) + [ApiCall(Prompt.Interactive, AcquiredDiff(env).value)]
  {
    ExecuteMatchesPlan(env);
    var d := Decide(env);
    assert Respond(d) == Outcome(Failed, []);
    PlanShape(d);
  }
}
