/** The background task `process_request_background` (main.py:650-701):
    generate the page and the README, dispatch on the round, pause for the
    deployment, and notify the evaluator. Every exception ends the task. */
module Pipeline {
  import opened Wrappers
  import opened Errors
  import opened Strings
  import opened Sanitization
  import opened Naming
  import opened Lookup
  import opened Prompt
  import opened Completion
  import opened Fences
  import opened Notifier
  import opened Pages
  import opened Publisher
  import opened Backoff

  /** The fields of the request body the task reads (main.py:656-663). */
  datatype Request = Request(
    email: string, task: string, round: int, nonce: string, brief: string,
    checks: seq<string>, evaluationUrl: string, attachments: seq<Attachment>)

  /** What each round does with the repository. */
  datatype RoundPlan = CreateNew | UpdateExisting

  /** The round dispatch (main.py:676-687): round 1 creates, round 2
      updates, any other round is rejected. */
  function Dispatch(round: int): (r: Result<RoundPlan, Error>)
    ensures r.Success? <==> round == 1 || round == 2
    ensures r.Failure? ==> r.error == UnsupportedRound(round)
    ensures r == Success(UpdateExisting) <==> round == 2
  {
    if round == 1 then Success(CreateNew)
    else if round == 2 then Success(UpdateExisting)
    else Failure(UnsupportedRound(round))
  }

  /** The pause before notifying: longer after creating a repository. */
  function WaitTime(plan: RoundPlan): (t: nat)
    ensures t > 0
  {
    match plan
    case CreateNew => 30
    case UpdateExisting => 15
  }

  /** One of the attempts yields a text. */
  predicate Answers(replies: seq<Reply>)
    requires |replies| >= DefaultRetries
  {
    exists k :: 0 <= k < DefaultRetries && AttemptText(replies[k], true).Some?
  }

  /** The key is set and one of the attempts yields a text. */
  predicate CompletionAvailable(apiKey: Option<string>, replies: seq<Reply>)
    requires |replies| >= DefaultRetries
  {
    !KeyMissing(apiKey) && Answers(replies)
  }

  /** The page a run commits: the first answer with its fences stripped. */
  function GeneratedPage(replies: seq<Reply>): string
    requires |replies| >= DefaultRetries && Answers(replies)
  {
    StripFences(AttemptText(replies[FirstAnswer(replies, true, DefaultRetries)], true).value)
  }

  /** The README a run commits: the first answer, trimmed. */
  function GeneratedReadme(replies: seq<Reply>): string
    requires |replies| >= DefaultRetries && Answers(replies)
  {
    Strip(AttemptText(replies[FirstAnswer(replies, true, DefaultRetries)], true).value, PyWhitespace)
  }

  /** `generate_app_code` (main.py:110-163): builds the prompt sections,
      asks for a completion in the responses format, and strips the fences
      from the answer. */
  method GenerateAppCode(brief: string, attachments: seq<Attachment>, checks: seq<string>,
                         apiKey: Option<string>, replies: seq<Reply>)
    returns (r: Result<string, Error>, prompt: AppPrompt, sleeps: seq<nat>)
    requires |replies| >= DefaultRetries
    ensures prompt.brief == brief
    ensures prompt.attachmentInfo == Section(AttachmentsHeader, AttachmentItems(attachments))
    ensures prompt.checksInfo == Section(ChecksHeader, checks)
    ensures KeyMissing(apiKey) ==> r == Failure(MissingApiKey) && sleeps == []
    ensures r.Success? <==> CompletionAvailable(apiKey, replies)
    ensures r.Success? ==>
      !Contains(r.value, Fence) &&
      exists k :: 0 <= k < DefaultRetries && FirstAnswerAt(replies, true, k) &&
        r.value == StripFences(AttemptText(replies[k], true).value) && sleeps == Delays(k)
    ensures r.Success? ==> r.value == GeneratedPage(replies)
    ensures r.Failure? && !KeyMissing(apiKey) ==>
      r.error == CompletionUnavailable(DefaultRetries) && sleeps == Delays(DefaultRetries - 1)
  {
    var attachmentInfo := AttachmentsSection(attachments);
    var checksInfo := ChecksSection(checks);
    prompt := AppPrompt(brief, attachmentInfo, checksInfo);
    var answer, attempts;
    answer, attempts, sleeps := CallCompletion(apiKey, true, DefaultRetries, replies);
    if answer.Failure? {
      return Failure(answer.error), prompt, sleeps;
    }
    StripFencesLeavesNoFence(answer.value);
    FirstAnswerUnique(replies, true, attempts - 1, FirstAnswer(replies, true, DefaultRetries));
    r := Success(StripFences(answer.value));
  }

  /** `generate_readme` (main.py:166-204): asks for a README in the
      responses format and trims the answer. */
  method GenerateReadme(brief: string, repoName: string, isUpdate: bool,
                        apiKey: Option<string>, replies: seq<Reply>)
    returns (r: Result<string, Error>, prompt: ReadmePrompt, sleeps: seq<nat>)
    requires |replies| >= DefaultRetries
    ensures prompt == ReadmePrompt(repoName, brief, isUpdate)
    ensures KeyMissing(apiKey) ==> r == Failure(MissingApiKey) && sleeps == []
    ensures r.Success? <==> CompletionAvailable(apiKey, replies)
    ensures r.Success? ==>
      exists k :: 0 <= k < DefaultRetries && FirstAnswerAt(replies, true, k) &&
        r.value == Strip(AttemptText(replies[k], true).value, PyWhitespace) && sleeps == Delays(k)
    ensures r.Success? ==> r.value == GeneratedReadme(replies)
    ensures r.Failure? && !KeyMissing(apiKey) ==>
      r.error == CompletionUnavailable(DefaultRetries) && sleeps == Delays(DefaultRetries - 1)
  {
    prompt := ReadmePrompt(repoName, brief, isUpdate);
    var answer, attempts;
    answer, attempts, sleeps := CallCompletion(apiKey, true, DefaultRetries, replies);
    if answer.Failure? {
      return Failure(answer.error), prompt, sleeps;
    }
    FirstAnswerUnique(replies, true, attempts - 1, FirstAnswer(replies, true, DefaultRetries));
    r := Success(Strip(answer.value, PyWhitespace));
  }

  /** Everything the outside world answers during one run. */
  datatype Environment = Environment(
    apiKey: Option<string>,
    codeReplies: seq<Reply>,
    readmeReplies: seq<Reply>,
    create: CreateEnv,
    update: UpdateEnv,
    notifyReplies: seq<PostReply>)

  /** How a run ends: the repository details, the payload sent and whether
      the evaluator acknowledged it; or the exception that ended it. */
  datatype RunOutcome =
    | Completed(info: RepoInfo, payload: Payload, notified: bool)
    | Aborted(error: Error)

  /** Runs one request: both generation steps first, then the round's
      repository step, the pause, and the notification. */
  method ProcessRequest(req: Request, env: Environment)
    returns (outcome: RunOutcome, wait: Option<nat>, sleeps: seq<nat>,
             appPrompt: AppPrompt, readmePrompt: Option<ReadmePrompt>, files: seq<FileWrite>)
    requires |env.codeReplies| >= DefaultRetries && |env.readmeReplies| >= DefaultRetries
    requires 1000 <= env.create.randomSuffix <= 9999
    requires |env.create.probes| >= MaxProbes && |env.update.probes| >= MaxProbes
    requires |env.notifyReplies| >= NotifyAttempts
    ensures KeyMissing(env.apiKey) ==> outcome == Aborted(MissingApiKey)
    ensures appPrompt == AppPrompt(req.brief, Section(AttachmentsHeader, AttachmentItems(req.attachments)),
                                   Section(ChecksHeader, req.checks))
    ensures CompletionAvailable(env.apiKey, env.codeReplies) ==>
      readmePrompt == Some(ReadmePrompt(req.task, req.brief, req.round == 2))
    ensures !CompletionAvailable(env.apiKey, env.codeReplies) ==> readmePrompt.None?
    ensures !(CompletionAvailable(env.apiKey, env.codeReplies) && CompletionAvailable(env.apiKey, env.readmeReplies) &&
              (req.round == 1 || req.round == 2)) ==>
      files == []
    ensures (CompletionAvailable(env.apiKey, env.codeReplies) && CompletionAvailable(env.apiKey, env.readmeReplies) &&
             req.round == 1) ==>
      var n := StepsBefore(CreateSteps, env.create.failing);
      files == NewRepoFiles(GeneratedReadme(env.readmeReplies), GeneratedPage(env.codeReplies))[..if n == 0 then 0 else n - 1]
    ensures (CompletionAvailable(env.apiKey, env.codeReplies) && CompletionAvailable(env.apiKey, env.readmeReplies) &&
             req.round == 2) ==>
      var n := StepsBefore(UpdateSteps, env.update.failing);
      if exists k :: 0 <= k < |env.update.repos| && IsPrefix(Round1Prefix(req.task), env.update.repos[k].name) then
        files == UpdatedFiles(GeneratedReadme(env.readmeReplies), GeneratedPage(env.codeReplies), req.brief)[..n]
      else
        files == []
    ensures (!KeyMissing(env.apiKey) &&
             !(CompletionAvailable(env.apiKey, env.codeReplies) && CompletionAvailable(env.apiKey, env.readmeReplies))) ==>
      outcome == Aborted(CompletionUnavailable(DefaultRetries))
    ensures outcome.Completed? ==>
      (req.round == 1 || req.round == 2) &&
      CompletionAvailable(env.apiKey, env.codeReplies) &&
      CompletionAvailable(env.apiKey, env.readmeReplies)
    ensures (req.round != 1 && req.round != 2 &&
             CompletionAvailable(env.apiKey, env.codeReplies) &&
             CompletionAvailable(env.apiKey, env.readmeReplies)) ==>
      outcome == Aborted(UnsupportedRound(req.round))
    ensures outcome.Completed? ==>
      outcome.payload == Payload(req.email, req.task, req.round, req.nonce,
        outcome.info.repoUrl, outcome.info.commitSha, outcome.info.pagesUrl) &&
      (outcome.notified <==>
        exists k :: 0 <= k < NotifyAttempts && env.notifyReplies[k] == PostStatus(200))
    ensures (CompletionAvailable(env.apiKey, env.codeReplies) && CompletionAvailable(env.apiKey, env.readmeReplies) &&
             req.round == 1) ==>
      (CreateError(env.create).Some? ==> outcome == Aborted(CreateError(env.create).value)) &&
      (CreateError(env.create).None? ==> outcome.Completed? && CreatedInfo(req.task, env.create, outcome.info))
    ensures (CompletionAvailable(env.apiKey, env.codeReplies) && CompletionAvailable(env.apiKey, env.readmeReplies) &&
             req.round == 2) ==>
      (UpdateError(req.task, env.update).Some? ==> outcome == Aborted(UpdateError(req.task, env.update).value)) &&
      (UpdateError(req.task, env.update).None? ==> outcome.Completed? && UpdatedInfo(req.task, env.update, outcome.info))
    ensures outcome.Completed? && (req.round == 2 || IsSanitized(req.task)) ==>
      IsPrefix(Round1Prefix(req.task), outcome.info.repoName)
    ensures outcome.Completed? <==> wait.Some?
    ensures outcome.Completed? ==> wait == Some(if req.round == 1 then 30 else 15)
  {
    wait, readmePrompt, files := None, None, [];
    var code, codeSleeps;
    code, appPrompt, codeSleeps := GenerateAppCode(req.brief, req.attachments, req.checks,
                                                   env.apiKey, env.codeReplies);
    sleeps := codeSleeps;
    if code.Failure? {
      return Aborted(code.error), wait, sleeps, appPrompt, readmePrompt, files;
    }
    var isUpdate := req.round == 2;
    var readme, prompt, readmeSleeps := GenerateReadme(req.brief, req.task, isUpdate,
                                                       env.apiKey, env.readmeReplies);
    readmePrompt := Some(prompt);
    sleeps := sleeps + readmeSleeps;
    if readme.Failure? {
      return Aborted(readme.error), wait, sleeps, appPrompt, readmePrompt, files;
    }
    var plan := Dispatch(req.round);
    if plan.Failure? {
      return Aborted(plan.error), wait, sleeps, appPrompt, readmePrompt, files;
    }
    var info: Result<RepoInfo, Error>;
    var repoSleeps: seq<nat>;
    if plan.value == CreateNew {
      var name, setup;
      info, name, files, setup, repoSleeps := CreateGithubRepo(req.task, code.value, readme.value, env.create);
    } else {
      var pagesCall;
      info, files, pagesCall, repoSleeps := UpdateGithubRepo(req.task, code.value, readme.value, req.brief, env.update);
    }
    sleeps := sleeps + repoSleeps;
    if info.Failure? {
      return Aborted(info.error), wait, sleeps, appPrompt, readmePrompt, files;
    }
    var pause := WaitTime(plan.value);
    wait := Some(pause);
    sleeps := sleeps + [pause];
    var payload := Payload(req.email, req.task, req.round, req.nonce,
                           info.value.repoUrl, info.value.commitSha, info.value.pagesUrl);
    var notified, attempts, notifySleeps := NotifyEvaluation(payload, env.notifyReplies);
    sleeps := sleeps + notifySleeps;
    outcome := Completed(info.value, payload, notified);
  }
}
