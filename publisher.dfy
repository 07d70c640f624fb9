/** The repository steps of the two rounds: `create_github_repo`
    (main.py:316-467) and `update_github_repo` (main.py:519-607). Every
    hosting call is an input; the call that raises, if any, is named by
    `failing`, and the exception propagates as the code re-raises it. */
module Publisher {
  import opened Wrappers
  import opened Errors
  import opened Strings
  import opened Sanitization
  import opened Naming
  import opened Lookup
  import opened Pages

  const LicensePath := "LICENSE"
  const ReadmePath := "README.md"
  const IndexPath := "index.html"

  /** The first line of the MIT licence text committed as LICENSE. */
  const LicenseText := "MIT License"

  /** One `create_file` or `update_file`: path, commit message, content. */
  datatype FileWrite = FileWrite(path: string, message: string, content: string)

  /** The dictionary both steps return (main.py:457-463, 597-603). */
  datatype RepoInfo = RepoInfo(
    repoUrl: string, commitSha: string, pagesUrl: string, repoName: string, pagesReady: bool)

  /** `f"https://{GITHUB_USERNAME}.github.io/{repo_name}/"`. */
  function PagesUrl(account: string, repoName: string): string {
    "https://" + account + ".github.io/" + repoName + "/"
  }

  /** The three files of a new repository, in the order they are created. */
  function NewRepoFiles(readme: string, appCode: string): seq<FileWrite> {
    [FileWrite(LicensePath, "Add MIT License", LicenseText),
     FileWrite(ReadmePath, "Add README", readme),
     FileWrite(IndexPath, "Add main application", appCode)]
  }

  /** How many of `steps` run before the one that raises. */
  function StepsBefore(steps: seq<HostingStep>, failing: Option<HostingStep>): (n: nat)
    ensures n <= |steps|
    ensures failing.Some? && n < |steps| ==> steps[n] == failing.value
    ensures forall k :: 0 <= k < n ==> Some(steps[k]) != failing
  {
    if steps == [] || Some(steps[0]) == failing then 0 else 1 + StepsBefore(steps[1..], failing)
  }

  /** The hosting calls of round 1 that may raise, in order. */
  const CreateSteps := [CreateRepo, CreateFile(LicensePath), CreateFile(ReadmePath), CreateFile(IndexPath)]

  /** Where each failing call stops round 1. */
  lemma CreateStepsBefore(failing: Option<HostingStep>)
    ensures StepsBefore(CreateSteps, failing) ==
      if failing == Some(CreateRepo) then 0
      else if failing == Some(CreateFile(LicensePath)) then 1
      else if failing == Some(CreateFile(ReadmePath)) then 2
      else if failing == Some(CreateFile(IndexPath)) then 3
      else 4
  {
    var s := CreateSteps;
    assert |LicensePath| == 7 && |ReadmePath| == 9 && |IndexPath| == 10;
    assert s[1..] == [CreateFile(LicensePath), CreateFile(ReadmePath), CreateFile(IndexPath)];
    assert s[1..][1..] == [CreateFile(ReadmePath), CreateFile(IndexPath)];
    assert s[1..][1..][1..] == [CreateFile(IndexPath)];
    assert s[1..][1..][1..][1..] == [];
    assert StepsBefore(s[1..][1..][1..][1..], failing) == 0;
    var s3 := s[1..][1..][1..];
    assert StepsBefore(s3, failing) == if failing == Some(CreateFile(IndexPath)) then 0 else 1;
    var s2 := s[1..][1..];
    assert StepsBefore(s2, failing) == if failing == Some(CreateFile(ReadmePath)) then 0 else 1 + StepsBefore(s3, failing);
    var s1 := s[1..];
    assert StepsBefore(s1, failing) == if failing == Some(CreateFile(LicensePath)) then 0 else 1 + StepsBefore(s2, failing);
    assert StepsBefore(s, failing) == if failing == Some(CreateRepo) then 0 else 1 + StepsBefore(s1, failing);
  }

  /** What the hosting service answers during round 1. */
  datatype CreateEnv = CreateEnv(
    account: string,
    taken: set<string>, timestamp: string, randomSuffix: nat,
    failing: Option<HostingStep>,
    htmlUrl: string,
    pages: PagesEnv,
    commits: seq<string>,
    probes: seq<Probe>)

  /** The name round 1 settles on: the first free candidate built from the
      task id as given, or the fallback (main.py:321). */
  predicate IsRound1Name(taskId: string, env: CreateEnv, name: string) {
    IsChosenName(Candidates(taskId, RoundOneSuffix, env.timestamp, DefaultMaxAttempts), env.taken,
                 FallbackName(taskId, RoundOneSuffix, env.timestamp, env.randomSuffix), name)
  }

  /** The exception round 1 ends with, if any: the first hosting call that
      raises, or reading `commits[0]` of an empty commit list. */
  function CreateError(env: CreateEnv): Option<Error> {
    var n := StepsBefore(CreateSteps, env.failing);
    if n < |CreateSteps| then Some(HostingFailed(CreateSteps[n]))
    else if env.commits == [] then Some(HostingFailed(ReadCommits))
    else None
  }

  /** What a successful round 1 returns (main.py:457-463): the new
      repository's name and URL, the newest commit, the site URL, and
      whether a probe got 200. */
  predicate CreatedInfo(taskId: string, env: CreateEnv, info: RepoInfo)
    requires |env.probes| >= MaxProbes
  {
    env.commits != [] &&
    IsRound1Name(taskId, env, info.repoName) &&
    info.repoUrl == env.htmlUrl && info.commitSha == env.commits[0] &&
    info.pagesUrl == PagesUrl(env.account, info.repoName) &&
    (info.pagesReady <==> exists k :: 0 <= k < MaxProbes && env.probes[k] == ProbeStatus(200))
  }

  /** Round 1: picks a free name for the task id, creates the repository
      and its three files, configures the site, reads the newest commit, and
      waits for the site to answer. Site-configuration errors are
      swallowed; any other failing call, or an empty commit list, aborts the
      step. */
  method CreateGithubRepo(taskId: string, appCode: string, readme: string, env: CreateEnv)
    returns (r: Result<RepoInfo, Error>, name: string, files: seq<FileWrite>, setup: Option<Setup>, sleeps: seq<nat>)
    requires 1000 <= env.randomSuffix <= 9999
    requires |env.probes| >= MaxProbes
    ensures IsRound1Name(taskId, env, name)
    ensures IsSanitized(taskId) ==> IsPrefix(Round1Prefix(taskId), name)
    ensures r.Failure? <==> CreateError(env).Some?
    ensures CreateError(env).Some? ==> r == Failure(CreateError(env).value)
    ensures r.Success? ==> CreatedInfo(taskId, env, r.value) && r.value.repoName == name
    ensures var n := StepsBefore(CreateSteps, env.failing);
      files == NewRepoFiles(readme, appCode)[..if n == 0 then 0 else n - 1]
    ensures var n := StepsBefore(CreateSteps, env.failing);
      (n < |CreateSteps| ==> setup.None? && sleeps == []) &&
      (n == |CreateSteps| ==>
        setup == Some(ConfigurePages(env.pages)) &&
        sleeps == ConfigurePages(env.pages).sleeps + (if env.commits == [] then [] else ProbeWaits(env.probes)))
  {
    var probed;
    name, probed := GenerateUniqueRepoName(taskId, RoundOneSuffix, DefaultMaxAttempts, env.taken,
                                           env.timestamp, env.randomSuffix);
    if IsSanitized(taskId) {
      SanitizedIdChoiceFound(taskId, env.timestamp, DefaultMaxAttempts, env.taken, env.randomSuffix, name);
    }
    files, setup, sleeps := [], None, [];
    ghost var all := NewRepoFiles(readme, appCode);
    CreateStepsBefore(env.failing);
    if env.failing == Some(CreateRepo) {
      return Failure(HostingFailed(CreateRepo)), name, files, setup, sleeps;
    }
    if env.failing == Some(CreateFile(LicensePath)) {
      return Failure(HostingFailed(CreateFile(LicensePath))), name, files, setup, sleeps;
    }
    files := files + [FileWrite(LicensePath, "Add MIT License", LicenseText)];
    if env.failing == Some(CreateFile(ReadmePath)) {
      return Failure(HostingFailed(CreateFile(ReadmePath))), name, files, setup, sleeps;
    }
    files := files + [FileWrite(ReadmePath, "Add README", readme)];
    if env.failing == Some(CreateFile(IndexPath)) {
      return Failure(HostingFailed(CreateFile(IndexPath))), name, files, setup, sleeps;
    }
    files := files + [FileWrite(IndexPath, "Add main application", appCode)];
    assert files == all;
    var configured := ConfigurePages(env.pages);
    setup := Some(configured);
    sleeps := configured.sleeps;
    if env.commits == [] {
      return Failure(HostingFailed(ReadCommits)), name, files, setup, sleeps;
    }
    var sha := env.commits[0];
    var pagesUrl := PagesUrl(env.account, name);
    var ready, count, waits := WaitForPages(env.probes);
    sleeps := sleeps + waits;
    r := Success(RepoInfo(env.htmlUrl, sha, pagesUrl, name, ready));
  }

  /** The hosting calls of round 2 that may raise, in order. */
  const UpdateSteps := [UpdateFile(IndexPath), UpdateFile(ReadmePath)]

  /** The two files of round 2, in the order they are updated. */
  function UpdatedFiles(readme: string, appCode: string, brief: string): seq<FileWrite> {
    [FileWrite(IndexPath, "Round 2 update: " + brief, appCode),
     FileWrite(ReadmePath, "Round 2 update: Updated README", readme)]
  }

  /** What the hosting service answers during round 2. */
  datatype UpdateEnv = UpdateEnv(
    account: string,
    repos: seq<Repo>,
    failing: Option<HostingStep>,
    get: GetReply, put: PutReply,
    commits: seq<string>,
    probes: seq<Probe>)

  /** The exception round 2 ends with, if any: no round-1 repository, the
      first update that raises, or an empty commit list. */
  function UpdateError(taskId: string, env: UpdateEnv): Option<Error> {
    var n := StepsBefore(UpdateSteps, env.failing);
    if forall k :: 0 <= k < |env.repos| ==> !IsPrefix(Round1Prefix(taskId), env.repos[k].name) then
      Some(NoRound1Repo(Round1Prefix(taskId)))
    else if n < |UpdateSteps| then Some(HostingFailed(UpdateSteps[n]))
    else if env.commits == [] then Some(HostingFailed(ReadCommits))
    else None
  }

  /** What a successful round 2 returns (main.py:597-603): the name and URL
      of the first-listed newest round-1 repository, the newest commit, the
      site URL, and whether a probe got 200. */
  predicate UpdatedInfo(taskId: string, env: UpdateEnv, info: RepoInfo)
    requires |env.probes| >= MaxProbes
  {
    var matches := Matching(Round1Prefix(taskId), env.repos);
    env.commits != [] &&
    (exists i: nat :: i < |matches| && IsFirstNewest(matches, i) &&
      info.repoName == matches[i].name && info.repoUrl == matches[i].htmlUrl) &&
    info.commitSha == env.commits[0] &&
    info.pagesUrl == PagesUrl(env.account, info.repoName) &&
    (info.pagesReady <==> exists k :: 0 <= k < MaxProbes && env.probes[k] == ProbeStatus(200))
  }

  /** Round 2: finds the newest round-1 repository, updates index.html and
      then README.md, re-asserts the site branch (its result is ignored),
      pauses, reads the newest commit, and waits for the site to answer. */
  method UpdateGithubRepo(taskId: string, appCode: string, readme: string, brief: string, env: UpdateEnv)
    returns (r: Result<RepoInfo, Error>, files: seq<FileWrite>, pagesCall: Option<Ensured>, sleeps: seq<nat>)
    requires |env.probes| >= MaxProbes
    ensures r.Failure? <==> UpdateError(taskId, env).Some?
    ensures UpdateError(taskId, env).Some? ==> r == Failure(UpdateError(taskId, env).value)
    ensures r.Success? ==> UpdatedInfo(taskId, env, r.value) && IsPrefix(Round1Prefix(taskId), r.value.repoName)
    ensures (forall k :: 0 <= k < |env.repos| ==> !IsPrefix(Round1Prefix(taskId), env.repos[k].name)) ==>
      files == [] && pagesCall.None? && sleeps == []
    ensures (exists k :: 0 <= k < |env.repos| && IsPrefix(Round1Prefix(taskId), env.repos[k].name)) ==>
      var n := StepsBefore(UpdateSteps, env.failing);
      files == UpdatedFiles(readme, appCode, brief)[..n] &&
      (n < |UpdateSteps| ==> pagesCall.None? && sleeps == []) &&
      (n == |UpdateSteps| ==>
        pagesCall == Some(EnsurePagesOnMainBranch(env.get, env.put)) &&
        sleeps == [SetupPause] + (if env.commits == [] then [] else ProbeWaits(env.probes)))
  {
    files, pagesCall, sleeps := [], None, [];
    var found := FindRound1Repo(taskId, env.repos);
    if found.Failure? {
      return Failure(found.error), files, pagesCall, sleeps;
    }
    var repo := found.value;
    if env.failing == Some(UpdateFile(IndexPath)) {
      return Failure(HostingFailed(UpdateFile(IndexPath))), files, pagesCall, sleeps;
    }
    files := files + [FileWrite(IndexPath, "Round 2 update: " + brief, appCode)];
    if env.failing == Some(UpdateFile(ReadmePath)) {
      return Failure(HostingFailed(UpdateFile(ReadmePath))), files, pagesCall, sleeps;
    }
    files := files + [FileWrite(ReadmePath, "Round 2 update: Updated README", readme)];
    assert files == UpdatedFiles(readme, appCode, brief);
    pagesCall := Some(EnsurePagesOnMainBranch(env.get, env.put));
    sleeps := [SetupPause];
    if env.commits == [] {
      return Failure(HostingFailed(ReadCommits)), files, pagesCall, sleeps;
    }
    var sha := env.commits[0];
    var pagesUrl := PagesUrl(env.account, repo.name);
    var ready, count, waits := WaitForPages(env.probes);
    sleeps := sleeps + waits;
    r := Success(RepoInfo(repo.htmlUrl, sha, pagesUrl, repo.name, ready));
  }
}
