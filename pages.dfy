/** Hosting-site configuration and deployment polling:
    `ensure_pages_on_main_branch` (main.py:207-256), its use when a
    repository is created (main.py:381-421), and the wait for the site to
    answer 200 (main.py:433-451, repeated at main.py:573-591). Every HTTP
    call is an input reply; sleeps are returned as a log. */
module Pages {
  import opened Wrappers

  /** The three results of `ensure_pages_on_main_branch`: `True`, `False`,
      and the `None` it falls through to after a rejected PUT. */
  datatype PagesCheck = Confirmed | NotConfigured | Unresolved

  /** A decoded GET body: `branch` is `source.branch`, `None` when either
      key is absent; `Unparseable` when `response.json()` raises. */
  datatype PagesBody = Unparseable | Parsed(branch: Option<string>)

  datatype GetReply = GetRaised | GetAnswer(status: int, body: PagesBody)
  datatype PutReply = PutRaised | PutAnswer(status: int)

  /** The result of one call, and whether it sent the PUT. */
  datatype Ensured = Ensured(check: PagesCheck, putIssued: bool)

  /** Reads the site configuration and moves it to `main` when it is on
      another branch (main.py:207-256). `put` is the reply the PUT would
      get; it is used only when the PUT is sent. Every exception is caught
      and gives `NotConfigured`. */
  function EnsurePagesOnMainBranch(get: GetReply, put: PutReply): Ensured {
    match get
    case GetRaised => Ensured(NotConfigured, false)
    case GetAnswer(status, body) =>
      if status != 200 then Ensured(NotConfigured, false)
      else
        match body
        case Unparseable => Ensured(NotConfigured, false)
        case Parsed(branch) =>
          if branch.GetOr("") == "main" then Ensured(Confirmed, false)
          else
            match put
            case PutRaised => Ensured(NotConfigured, true)
            case PutAnswer(s) =>
              if s == 200 || s == 204 then Ensured(Confirmed, true) else Ensured(Unresolved, true)
  }

  /** The site is confirmed exactly when the GET reported `main`, or reported
      another branch and the PUT was acknowledged with 200 or 204. */
  lemma ConfirmedOnlyOnMain(get: GetReply, put: PutReply)
    ensures EnsurePagesOnMainBranch(get, put).check == Confirmed <==>
      get.GetAnswer? && get.status == 200 && get.body.Parsed? &&
      (get.body.branch == Some("main") ||
       (put.PutAnswer? && (put.status == 200 || put.status == 204)))
  {
  }

  /** The PUT is sent exactly when the GET succeeded and reported a branch
      other than `main` (a missing branch counts as ""), and `None` is
      returned only after a PUT answered with another status. */
  lemma PutOnlyOffMain(get: GetReply, put: PutReply)
    ensures var e := EnsurePagesOnMainBranch(get, put);
      e.putIssued <==>
        get.GetAnswer? && get.status == 200 && get.body.Parsed? && get.body.branch != Some("main")
    ensures var e := EnsurePagesOnMainBranch(get, put);
      e.check == Unresolved <==>
        e.putIssued && put.PutAnswer? && put.status != 200 && put.status != 204
  {
  }

  /** A reference hosting service: no site, or a site built from a branch
      (`None` when the configuration names none). */
  datatype Site = NoSite | Site(branch: Option<string>)

  /** How a well-behaved service answers the GET: 404 without a site, else
      200 with its branch. */
  function HonestGet(site: Site): GetReply {
    match site
    case NoSite => GetAnswer(404, Unparseable)
    case Site(b) => GetAnswer(200, Parsed(b))
  }

  /** How a well-behaved service answers the PUT: 204 on an existing site,
      404 without one. */
  function HonestPut(site: Site): PutReply {
    if site.Site? then PutAnswer(204) else PutAnswer(404)
  }

  /** The site after the call: an acknowledged PUT moves it to `main`. */
  function SiteAfter(site: Site, e: Ensured): Site {
    if e.putIssued && site.Site? then Site(Some("main")) else site
  }

  /** Against a well-behaved service the call confirms exactly the existing
      sites, never falls through to `None`, and leaves every existing site
      building from `main`. */
  lemma HonestServiceEndsOnMain(site: Site)
    ensures var e := EnsurePagesOnMainBranch(HonestGet(site), HonestPut(site));
      (e.check == Confirmed <==> site.Site?) &&
      e.check != Unresolved &&
      (site.Site? ==> HonestGet(SiteAfter(site, e)).body.branch == Some("main"))
  {
  }

  /** What the POST that creates the site gives. */
  datatype CreateReply = CreateRaised | CreateStatus(code: int)

  /** The replies seen while configuring the site of a new repository: the
      first check, the POST, and the second check. */
  datatype PagesEnv = PagesEnv(
    firstGet: GetReply, firstPut: PutReply,
    post: CreateReply,
    secondGet: GetReply, secondPut: PutReply)

  /** What the configuration step did: the first check, whether it POSTed,
      the re-check if one was made, and its sleeps. */
  datatype Setup = Setup(first: Ensured, posted: bool, second: Option<Ensured>, sleeps: seq<nat>)

  const SetupPause := 2

  /** main.py:381-421: pause, check; unless the check returned `True`
      (`None` is falsy too), POST the site; on 201 pause and re-check, on
      409 re-check, otherwise carry on. Errors of the POST are caught. */
  function ConfigurePages(env: PagesEnv): Setup {
    var first := EnsurePagesOnMainBranch(env.firstGet, env.firstPut);
    if first.check == Confirmed then
      Setup(first, false, None, [SetupPause])
    else
      match env.post
      case CreateStatus(201) =>
        Setup(first, true, Some(EnsurePagesOnMainBranch(env.secondGet, env.secondPut)), [SetupPause, SetupPause])
      case CreateStatus(409) =>
        Setup(first, true, Some(EnsurePagesOnMainBranch(env.secondGet, env.secondPut)), [SetupPause])
      case _ =>
        Setup(first, true, None, [SetupPause])
  }

  /** The site is POSTed exactly when the first check did not confirm it,
      including after a rejected PUT, and it is re-checked exactly after a
      201 or a 409. */
  lemma PostUnlessConfirmed(env: PagesEnv)
    ensures var s := ConfigurePages(env);
      (s.posted <==> s.first.check != Confirmed) &&
      (s.first.check == Unresolved ==> s.posted) &&
      (s.second.Some? <==> s.posted && (env.post == CreateStatus(201) || env.post == CreateStatus(409))) &&
      |s.sleeps| == (if s.posted && env.post == CreateStatus(201) then 2 else 1)
  {
  }

  /** The replies a well-behaved service gives during configuration: the
      POST creates a site on `main` (201) or conflicts with an existing
      one (409). */
  function HonestEnv(site: Site): PagesEnv {
    var e := EnsurePagesOnMainBranch(HonestGet(site), HonestPut(site));
    var mid := SiteAfter(site, e);
    var post := if mid.NoSite? then CreateStatus(201) else CreateStatus(409);
    var created := if mid.NoSite? then Site(Some("main")) else mid;
    PagesEnv(HonestGet(site), HonestPut(site), post, HonestGet(created), HonestPut(created))
  }

  /** The last check made: the re-check when there is one. */
  function FinalCheck(s: Setup): PagesCheck {
    if s.second.Some? then s.second.value.check else s.first.check
  }

  /** Against a well-behaved service, configuration always ends with the
      site confirmed on `main`, whether or not it existed before. */
  lemma HonestSetupConfirms(site: Site)
    ensures FinalCheck(ConfigurePages(HonestEnv(site))) == Confirmed
  {
    HonestServiceEndsOnMain(site);
  }

  const MaxProbes := 30
  const ProbeInterval := 10

  /** One GET of the published site: a request error, or a status code. */
  datatype Probe = ProbeError | ProbeStatus(code: int)

  /** How many probes the wait makes from probe `i` on: through the first
      200 among the first 30, or up to the 30th. */
  function ProbesFrom(probes: seq<Probe>, i: nat): (n: nat)
    requires i < MaxProbes <= |probes|
    ensures i + 1 <= n <= MaxProbes
    ensures forall k :: i <= k < n - 1 ==> probes[k] != ProbeStatus(200)
    ensures n < MaxProbes ==> probes[n - 1] == ProbeStatus(200)
    decreases MaxProbes - i
  {
    if probes[i] == ProbeStatus(200) || i == MaxProbes - 1 then i + 1 else ProbesFrom(probes, i + 1)
  }

  /** How many probes the wait makes. */
  function ProbeCount(probes: seq<Probe>): (n: nat)
    requires |probes| >= MaxProbes
    ensures 1 <= n <= MaxProbes
    ensures forall k :: 0 <= k < n - 1 ==> probes[k] != ProbeStatus(200)
    ensures n < MaxProbes ==> probes[n - 1] == ProbeStatus(200)
  {
    ProbesFrom(probes, 0)
  }

  /** The sleeps of the wait: 10 units before each probe it makes. */
  function ProbeWaits(probes: seq<Probe>): seq<nat>
    requires |probes| >= MaxProbes
  {
    seq(ProbeCount(probes), k => ProbeInterval)
  }

  /** Polls the published site at most 30 times, sleeping 10 units before
      each probe and stopping at the first 200; neither another status nor
      a request error ends the wait early. */
  method WaitForPages(probes: seq<Probe>) returns (ready: bool, count: nat, sleeps: seq<nat>)
    requires |probes| >= MaxProbes
    ensures ready <==> exists k :: 0 <= k < MaxProbes && probes[k] == ProbeStatus(200)
    ensures 1 <= count <= MaxProbes
    ensures ready ==>
      probes[count - 1] == ProbeStatus(200) &&
      forall k :: 0 <= k < count - 1 ==> probes[k] != ProbeStatus(200)
    ensures !ready ==> count == MaxProbes
    ensures |sleeps| == count && forall k :: 0 <= k < count ==> sleeps[k] == ProbeInterval
    ensures count == ProbeCount(probes) && sleeps == ProbeWaits(probes)
  {
    ready := false;
    sleeps := [];
    count := 0;
    while count < MaxProbes
      invariant 0 <= count <= MaxProbes
      invariant forall k :: 0 <= k < count ==> probes[k] != ProbeStatus(200)
      invariant |sleeps| == count && forall k :: 0 <= k < count ==> sleeps[k] == ProbeInterval
    {
      sleeps := sleeps + [ProbeInterval];
      if probes[count] == ProbeStatus(200) {
        ready := true;
        count := count + 1;
        break;
      }
      count := count + 1;
    }
  }
}
