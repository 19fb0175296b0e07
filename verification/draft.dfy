/** The earlier, file-only generator: it reads the saved diff snapshot, asks
    for a completion with its own prompt, and saves and prints the command.
    It has no mode choice, no staging, no blank-diff guard and no
    confirmation. */
module Draft {
  import opened Wrappers
  import Prompt
  import Text
  import Pipeline

  /** The reply as `fetch`, `response.json()` and the `choices` guard read
      it. node-fetch resolves on every HTTP status, so only a network error,
      a body that is not JSON, or reading `choices` off `null` throws; an
      error status with a JSON body reaches the guard like any other. */
  function DraftAnswerOf(reply: Pipeline.Reply): (a: Pipeline.Answer)
    ensures a.Threw? <==> reply.RequestFailed? || !reply.body.Json?
  {
    if reply.RequestFailed? || !reply.body.Json? then Pipeline.Threw
    else match Pipeline.FirstChoice(reply.body)
      case None => Pipeline.NoCompletion
      case Some(text) => Pipeline.Proposed(Pipeline.CommandFor(text))
  }

  /** The two clients read a reply the same way exactly when it brought no
      response, a `null` body, or a 2xx status with a JSON body or an error
      status without one. They part on an error status with a JSON body
      (axios throws, node-fetch reads it) and on a 2xx body that is not
      JSON (node-fetch throws, axios keeps the string). */
  lemma AnswersAgreeIff(reply: Pipeline.Reply)
    ensures DraftAnswerOf(reply) == Pipeline.AnswerOf(reply) <==>
      reply.RequestFailed? || reply.body.JsonNull? || (Pipeline.SuccessStatus(reply.status) <==> reply.body.Json?)
  {
  }

  /** The run on a snapshot (`None` when the file is missing) and a reply.
      Reading a missing file, a failed request or a body that is not JSON
      throws, and the error is caught and logged. */
  function RunDraft(diffFile: Option<string>, reply: Pipeline.Reply): (o: Pipeline.Outcome)
    ensures o.trace == [] <==> diffFile.None?
    ensures diffFile.Some? ==> o.trace[0] == Pipeline.ApiCall(Prompt.FileOnly, diffFile.value)
    ensures o.end == Pipeline.Saved <==> diffFile.Some? && reply.Response? && Pipeline.FirstChoice(reply.body).Some?
    ensures o.end == Pipeline.NoChoices <==>
      diffFile.Some? && reply.Response? && reply.body.Json? && Pipeline.FirstChoice(reply.body).None?
    ensures o.end in {Pipeline.Saved, Pipeline.NoChoices, Pipeline.Failed}
  {
    Draft(diffFile, DraftAnswerOf(reply))
  }

  /** The run once the reply has been read into an answer. */
  function Draft(diffFile: Option<string>, answer: Pipeline.Answer): Pipeline.Outcome {
    if diffFile.None? then Pipeline.Outcome(Pipeline.Failed, [])
    else
      var call := [Pipeline.ApiCall(Prompt.FileOnly, diffFile.value)];
      match answer
      case Threw => Pipeline.Outcome(Pipeline.Failed, call)
      case NoCompletion => Pipeline.Outcome(Pipeline.NoChoices, call)
      case Proposed(command) =>
        Pipeline.Outcome(Pipeline.Saved, call + [Pipeline.WriteOutput(command), Pipeline.PrintCommand(command)])
  }

  /** What is saved to the output file is exactly what is printed, and both
      are the command proposed from the first completion. */
  lemma SavedIsPrinted(diffFile: Option<string>, reply: Pipeline.Reply, saved: string, printed: string)
    requires Pipeline.WriteOutput(saved) in RunDraft(diffFile, reply).trace
    requires Pipeline.PrintCommand(printed) in RunDraft(diffFile, reply).trace
    ensures saved == printed
    ensures reply.Response? && Pipeline.FirstChoice(reply.body).Some?
    ensures saved == Pipeline.CommandFor(Pipeline.FirstChoice(reply.body).value)
  {
    DraftEffects(diffFile, DraftAnswerOf(reply));
  }

  /** Besides the request, the run only saves and prints the proposed command. */
  lemma DraftEffects(diffFile: Option<string>, a: Pipeline.Answer)
    ensures forall e :: e in Draft(diffFile, a).trace ==>
      e.ApiCall? || (a.Proposed? && (e == Pipeline.WriteOutput(a.command) || e == Pipeline.PrintCommand(a.command)))
  {
    if diffFile.Some? && a.Proposed? {
      var t := Draft(diffFile, a).trace;
      assert t == [Pipeline.ApiCall(Prompt.FileOnly, diffFile.value), Pipeline.WriteOutput(a.command), Pipeline.PrintCommand(a.command)];
    }
  }

  /** Unlike the interactive generator, a blank snapshot still goes to the
      completion service. */
  lemma BlankDiffStillRequested(env: Pipeline.Env)
    requires Pipeline.ChooseMode(env.modeAnswer) == Pipeline.Manual
    requires env.diffFile.Some? && Text.Blank(env.diffFile.value)
    ensures RunDraft(env.diffFile, env.reply).trace[0] == Pipeline.ApiCall(Prompt.FileOnly, env.diffFile.value)
    ensures Pipeline.Execute(env) == Pipeline.Outcome(Pipeline.NothingToCommit, [])
  {
    Pipeline.ExecuteMatchesPlan(env);
  }

  /** On a non-blank snapshot the interactive generator in manual mode does
      what this one does once the reply has been read, effect for effect,
      except for the prompt's wording; on a reply both clients read alike
      the two runs therefore agree. */
  lemma ManualModeMatchesDraft(env: Pipeline.Env)
    requires Pipeline.ChooseMode(env.modeAnswer) == Pipeline.Manual && Pipeline.Proceeds(env)
    ensures var d := Draft(env.diffFile, Pipeline.AnswerOf(env.reply)); var m := Pipeline.Execute(env);
      && d.end == m.end
      && |d.trace| == |m.trace| >= 1
      && m.trace[0] == Pipeline.ApiCall(Prompt.Interactive, env.diffFile.value)
      && d.trace[0] == Pipeline.ApiCall(Prompt.FileOnly, env.diffFile.value)
      && d.trace[1..] == m.trace[1..]
    ensures DraftAnswerOf(env.reply) == Pipeline.AnswerOf(env.reply) ==>
      RunDraft(env.diffFile, env.reply) == Draft(env.diffFile, Pipeline.AnswerOf(env.reply))
  {
    Pipeline.ExecuteMatchesPlan(env);
    var p := Pipeline.Decide(env);
    Pipeline.PlanShape(p);
    var r := Pipeline.Respond(p);
    var m := Pipeline.Execute(env);
    assert m.trace == [Pipeline.ApiCall(Prompt.Interactive, env.diffFile.value)] + r.trace;
    assert m.trace[1..] == r.trace;
    var d := Draft(env.diffFile, Pipeline.AnswerOf(env.reply));
    assert d.trace[1..] == r.trace;
  }

  /** Where the two generators part on the same reply: a 500 carrying a JSON
      error object fails the interactive run but only ends this one without
      choices, and a 2xx plain-text body ends the interactive run without
      choices but fails this one. */
  lemma ClientsDiffer(diff: string)
    ensures Pipeline.AnswerOf(Pipeline.Response(500, Pipeline.Json(None))) == Pipeline.Threw
    ensures RunDraft(Some(diff), Pipeline.Response(500, Pipeline.Json(None))).end == Pipeline.NoChoices
    ensures Pipeline.AnswerOf(Pipeline.Response(200, Pipeline.NotJson)) == Pipeline.NoCompletion
    ensures RunDraft(Some(diff), Pipeline.Response(200, Pipeline.NotJson)).end == Pipeline.Failed
  {
  }
}
