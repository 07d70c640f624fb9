# LLM app deployer: a verified model of its deterministic core

`main.py` takes a task request, asks a completion service for a single-page
web app and a README, and publishes both to a GitHub repository with GitHub
Pages. In round 1 it creates a new repository; in round 2 it updates the
newest round-1 repository of the same task. After polling the site (at
most 30 probes, whether or not one succeeds) and a fixed pause, it
notifies an evaluation endpoint. This project models the deterministic core
of that flow in Dafny and proves properties of it:

- **sanitisation** of the task id;
- **unique repository naming**;
- **round-1 repository lookup**;
- **fence stripping** of the generated page and the optional prompt sections;
- the **retry loops** of the completion client and the notifier;
- the **Pages configuration** decision and the **deployment polling**;
- the **background task** that dispatches on the round.

Every remote call is replaced by an input:

- the set of names `get_repo` finds;
- the repository listing;
- a sequence of replies per retried call;
- the replies of the Pages GET, PUT and POST;
- the probe results;
- the commit list;
- the hosting call that raises, if any.

The timestamp and the random suffix are inputs too. Sleeps are not performed; each method returns the durations it would sleep, in order.

Modules, one per component, leaf first:

- `Wrappers`: `Option` and `Result`.
- `Errors`: the exceptions a run can end with.
- `Strings`: the Python string operations the code uses (`startswith`, `in`, `split`, `strip`, `str(int)`).
- `Sanitization`
- `Naming`
- `Lookup`
- `Fences`
- `Prompt`
- `Backoff`
- `Completion`
- `Notifier`
- `Pages`
- `Publisher`
- `Pipeline`

Three behaviours of the code that are easy to misread, and that the model keeps as written:

- **Failed name lookups.** Every lookup in `generate_unique_repo_name` sits under a bare `except` (main.py:281, 294, 304). So *any* failure, not only "not found", makes the name count as free. The model takes `taken` to be the names whose lookup succeeds.
- **Ties in the lookup.** `find_round1_repo` promises the most recently created match (main.py:474). `list.sort(key=…, reverse=True)` is stable (main.py:501-505), so among matches created at the same time it picks the first-listed one. `Lookup.FindRound1Repo` states exactly that.
- **Fences.** With a "```html" present, the code cuts the text after it at the next "```html" and then at the first "```" (main.py:158-159). This gives the text up to the first "```" except when that "```" overlaps the next "```html", as in "````html". `Fences.StripFencesHtml` states the inner-text result outside that case. `Fences.StripFencesHtmlOverlap` states what the code returns in it.

## Model

| member | source | states |
|---|---|---|
| Strings.IndexOf | main.py:158-161 | `pat in s` holds exactly when an index is returned; that index is an occurrence and no earlier one exists |
| Strings.Split | main.py:159-161 | `s.split(sep)` has at least one piece, two or more exactly when `sep` occurs, and no piece contains `sep` |
| Strings.JoinSplit | main.py:159-161 | joining the pieces of `s.split(sep)` with `sep` gives back `s` |
| Strings.StripShape | main.py:163 | `strip(chars)` returns a contiguous slice; everything removed is in `chars`; the result neither starts nor ends with a character of `chars` |
| Strings.StripIdempotent | main.py:163 | stripping twice equals stripping once |
| Strings.NatToString | main.py:300 | `str(i)` is non-empty, all decimal digits, without a leading zero |
| Strings.ParseNatToString | main.py:300 | reading the digits of `str(n)` back gives `n` |
| Strings.NatToStringInjective | main.py:300 | different numbers have different decimal strings |
| Strings.NatToStringFourDigits | main.py:310-311 | a suffix drawn from 1000..9999 is written with exactly four digits |
| Sanitization.CollapseShape | main.py:269 | collapsing runs of `-` keeps the first and last character, adds no character, and leaves no `--` |
| Sanitization.CollapseFixed | main.py:269 | a string without `--` is unchanged by the collapse |
| Sanitization.SanitizeWellFormed | main.py:267-271 | `Sanitize`, the model of the three `re.sub`/`strip`/`lower` steps (also main.py:480-482), gives only `[a-z0-9-]`, no `-` at either end, no `--` |
| Sanitization.SanitizeFixesSanitized | main.py:267-271 | an id that already has that shape is returned unchanged |
| Sanitization.SanitizeIdempotent | main.py:267-271 | sanitising twice equals sanitising once |
| Sanitization.SanitizeKeepsAlnums | main.py:267-271 | the non-`-` characters of the result are exactly the ASCII letters and digits of the id, lower-cased, in order |
| Naming.Candidates | main.py:273-306 | there are exactly `2 + max_attempts` probed candidates |
| Naming.GenerateUniqueRepoName | main.py:259-313 | the names looked up are a prefix of base, timestamped, `-v1`…`-vN` in that order; every name looked up but the last was found; the result is the first candidate not found, and only when all `2 + N` are taken is it the unprobed timestamp-plus-random fallback |
| Naming.CounterNamesDistinct | main.py:299-300 | `-v{i}` and `-v{j}` differ when `i != j` |
| Naming.FallbackEndsInFourDigits | main.py:309-311 | the fallback ends in `-` and four digits |
| Lookup.MatchingMembers | main.py:490-496 | a repository is collected exactly when it is listed and its name starts with the prefix |
| Lookup.FindRound1Repo | main.py:470-516 | fails with the prefix exactly when no listed name starts with `sanitised + "-round1"`; otherwise returns a listed match whose `created_at` is at least that of every match, namely the first-listed newest one |
| Lookup.FirstNewestUnique | main.py:501-505 | the first-listed newest match is unique, so ties are resolved deterministically |
| Lookup.CounterNameMissedByLookup | main.py:300 | for the id "Demo", the name `Demo-round1-v1` and every fallback name miss the lookup prefix `demo-round1` |
| Lookup.CounterNameChosenAndMissed | main.py:274-311 | for "Demo" with `demo-round1` and its timestamped name taken and `Demo-round1-v1` free, the naming as written settles on `Demo-round1-v1`, which misses the lookup prefix |
| Lookup.SanitizedIdNamesFound | main.py:480-494 | every candidate and fallback built from the sanitised id starts with the lookup prefix |
| Lookup.SanitizedChoiceFound | main.py:480-494 | whatever the naming step settles on among names built from the sanitised id starts with the lookup prefix |
| Lookup.CorrectedRound1Name | main.py:321 | naming run on the sanitised id settles on the first free such candidate or its fallback, and round 2's lookup prefix matches the result |
| Lookup.SanitizedIdChoiceFound | main.py:300-311 | for a task id that is already sanitised, the name settled on from the raw id starts with the lookup prefix |
| Fences.StripFencesHtml | main.py:158-159 | with "```html" present, the result is the trimmed text between the first "```html" and the next "```", unless that "```" overlaps a later "```html" |
| Fences.StripFencesHtmlOverlap | main.py:158-159 | when that "```" overlaps a later "```html", the result is the trimmed text up to that "```html", which runs past the "```" |
| Fences.StripFencesPlain | main.py:160-163 | with "```" but no "```html", the result is the trimmed text between the first and the second "```" (or to the end) |
| Fences.StripFencesUnfenced | main.py:158-163 | without any fence, the result is the trimmed input |
| Fences.StripFencesLeavesNoFence | main.py:158-163 | the result of `StripFences`, the model of the clean-up written as the code does it, never contains "```" |
| Fences.FencedPageUnwrapped | main.py:158-163 | a trimmed page wrapped in "```html\n" … "```", with or without a newline before the closing fence, comes out exactly as the page |
| Prompt.AttachmentItems | main.py:119-120 | one `name: url` item per attachment, in order |
| Prompt.BulletsSplit | main.py:119-127 | cut at any point, the lines of an item list are the lines of the first part followed by those of the second |
| Prompt.ItemOnItsOwnLine | main.py:119-127 | item `k` appears as its own `\n- item` line between the lines of the items before and after it |
| Prompt.OneLinePerItem | main.py:119-127 | items without newlines give exactly one line per item |
| Prompt.AttachmentsSection | main.py:116-120 | the section is empty exactly when there are no attachments, else the header followed by their lines |
| Prompt.ChecksSection | main.py:123-127 | the section is empty exactly when there are no checks, else the header followed by their lines |
| Backoff.DelaysTotal | main.py:105-106 | after `n` back-off sleeps the total wait is `2^n - 1` |
| Completion.ResponsesFormatNeverFailsOn200 | main.py:84-97 | `ExtractText`, the model of the parsing of a 200 body, always yields a text in the responses format for a body that decodes to a JSON object; in the chat format it fails exactly when `message.content` is missing |
| Completion.CallCompletion | main.py:48-108 | a missing or empty key fails before any attempt; otherwise at most `max_retries` attempts; success exactly when some attempt yields a text, returning the first one; sleeps 1, 2, 4, … with none after the last attempt; when every attempt fails, the completion-unavailable error after exactly `max_retries` attempts; an attempt yields a text as `AttemptText` says: no exception, status 200, a decodable body, and `ExtractText` succeeding |
| Completion.FirstAnswer | main.py:67-97 | the index of the attempt the retry loop returns from: it yields a text and no earlier attempt does |
| Notifier.NotifyEvaluation | main.py:609-648 | at most 5 attempts; true exactly when one of them got 200, stopping there; false after 5; sleeps 1, 2, 4, 8 with none after the last |
| Notifier.FailedNotificationWaits | main.py:623-646 | a failed notification waits 15 units in all |
| Pages.ConfirmedOnlyOnMain | main.py:207-256 | `EnsurePagesOnMainBranch`, the model of `ensure_pages_on_main_branch`, returns `True` exactly when the GET reported `main`, or reported another branch and the PUT got 200 or 204 |
| Pages.PutOnlyOffMain | main.py:218-245 | the PUT is sent exactly when the GET got 200 with a branch other than `main`; `None` comes back exactly after a PUT with another status |
| Pages.HonestServiceEndsOnMain | main.py:207-256 | against a well-behaved service the call confirms exactly the existing sites, never returns `None`, and leaves every existing site on `main` |
| Pages.PostUnlessConfirmed | main.py:381-421 | in `ConfigurePages`, the model of the site set-up of round 1, a site is POSTed exactly when the first check is not `True` (including `None`); re-checked exactly after 201 or 409; one pause, or two after a 201 |
| Pages.HonestSetupConfirms | main.py:381-421 | against a well-behaved service, configuration ends with the site confirmed on `main` whether or not it existed |
| Pages.ProbeCount | main.py:433-451 | the number of probes made: through the first 200 among the first 30, or all 30 |
| Pages.WaitForPages | main.py:433-451 | at most 30 probes, each after a 10-unit sleep; ready exactly when one of the 30 got 200, stopping at the first; a non-200 or a request error never ends the wait early; it makes `ProbeCount` probes |
| Publisher.CreateGithubRepo | main.py:316-467 | the name is the first free candidate built from the task id as given, or the fallback, and starts with the round-2 lookup prefix when the id is already sanitised; the step fails exactly with the first failing call among create, LICENSE, README.md, index.html, or on an empty commit list; files are written in that order up to the failing call; the site is configured only after all three; on success the result has the newest commit, `https://{account}.github.io/{name}/`, and `pages_ready` exactly when a probe got 200; sleeps are the configuration pauses then the probe waits |
| Publisher.UpdateGithubRepo | main.py:519-607 | fails exactly with the lookup error when no round-1 repository is listed, else with the first failing update, else on an empty commit list; index.html then README.md are updated in order up to the failing call; the site branch is re-asserted only after both; on success the result names the first-listed newest round-1 repository and its URL, the newest commit, its Pages URL, and `pages_ready` exactly when a probe got 200; sleeps are the 2-unit pause then the probe waits |
| Pipeline.Dispatch | main.py:676-687 | round 1 creates, round 2 updates, any other round fails with the unsupported-round error |
| Pipeline.GenerateAppCode | main.py:110-163 | the prompt holds both optional sections; a missing key fails at once; success exactly when the completion yields a text; the page is `GeneratedPage`, the first answering attempt's text with its fences stripped, holding no "```"; the back-off sleeps come before that attempt; otherwise the completion-unavailable error |
| Pipeline.GenerateReadme | main.py:166-204 | the prompt records the update flag; a missing key fails at once; success exactly when the completion yields a text; the README is `GeneratedReadme`, the first answering attempt's text trimmed; the back-off sleeps come before that attempt; otherwise the completion-unavailable error |
| Pipeline.ProcessRequest | main.py:650-701 | a missing key or an unavailable completion aborts with that error; the page prompt holds the request's brief, attachments and checks; the README prompt, made only once the page is generated, names the task as the repository and is an update exactly in round 2; an unsupported round aborts only once both generation steps succeed; after both, round 1 completes exactly when the create step succeeds, with its result, and otherwise aborts with its error; round 2 likewise with the update step; the files committed are the generated page and README (round 2: with the brief in the page's commit message), up to the first failing call; a completed run paused `WaitTime`, 30 units after creating and 15 after updating, sent the payload built from the request and the repository details, and reports notified exactly when the evaluator answered 200; its repository name starts with the round-2 lookup prefix in round 2, and in round 1 when the task id is already sanitised |

## Left out

- The FastAPI endpoints, the shared-secret check and the startup code (main.py:1-45, 703-728): HTTP plumbing outside the core.
- `Thread` and the concurrency between runs (main.py:716-717): the model is one sequential run.
- Real network and GitHub calls (`requests`, PyGithub): each is an input reply, a name set, a listing, a commit list, or the one hosting call that raises.
- `datetime.now()` and `random.randint` (main.py:287, 310): the timestamp and the random suffix are parameters; the suffix is required to lie in 1000..9999.
- `time.sleep`: durations are returned as a log, not slept.
- The prompt prose and the model names (main.py:130-152, 170-200): a prompt is recorded only by its request-dependent parts. The completion's answer is an input and does not depend on the prompt.
- The MIT licence literal (main.py:335-355): LICENSE is written as its first line, "MIT License".
- The repository description, `private`/`auto_init` flags and the URLs and headers of the HTTP calls: they do not affect the control flow.
- All `print` logging.
- Missing request fields (`data["…"]` raising `KeyError`) and attachments without `name` or `url`: a `Request` always has every field.
- A failure of `user.get_repos()` in the lookup: the listing is an input.
- The wording of re-raised exceptions (main.py:516): the error is the underlying one.
- Non-string JSON values (a non-string `text`, `branch` or `content`): every decoded field is a string or absent.
- `Completion.CallCompletion`: the body `str(result)` is an input string, not a rendering of the JSON.
- `Pages.EnsurePagesOnMainBranch`: the PUT reply is an input even when no PUT is sent; it is then ignored.
- A 200 body that `response.json()` decodes to something other than an object (`null`, a list, a string): it is modelled like an undecodable body, because both make the attempt fail (main.py:96 calls `keys()` on it).
- Pipeline.ProcessRequest: its sleep log is returned but not specified as a whole. Each step's own sleeps are specified by `Pipeline.GenerateAppCode`, `Pipeline.GenerateReadme`, the two `Publisher` steps and `Notifier.NotifyEvaluation`.

## Findings

| source | as written | input that shows it | evidently intended | confidence | as-written member | corrected member |
|---|---|---|---|---|---|---|
| main.py:300, main.py:311 | the `-v{i}` and fallback names are built from the raw `task_id`, while the round-2 lookup (main.py:480-494) searches for names starting with the sanitised id plus `-round1` | task id "Demo" with `demo-round1` and its timestamped name taken: round 1 creates `Demo-round1-v1`, and round 2 looks for `demo-round1`, which that name does not start with (Python's `startswith` is case-sensitive) | build every candidate from the sanitised id, so that round 2 finds whatever round 1 created, as the lookup's own docstring says | not executed | Lookup.CounterNameChosenAndMissed | Lookup.CorrectedRound1Name |

`Publisher.CreateGithubRepo` and `Pipeline.ProcessRequest` model the naming as written. They pass the raw task id to `Naming.GenerateUniqueRepoName`, as main.py:321 does. So they promise that round 2 finds the round-1 name only when the task id is already sanitised. For the input in the row, `Lookup.CounterNameChosenAndMissed` shows the naming as written settling on `Demo-round1-v1`, which the lookup misses. `Lookup.CorrectedRound1Name` is the evidently intended naming: it runs the naming step on the sanitised id. Sanitising is idempotent, so the base and timestamped names do not change; the counter and fallback names become the sanitised ones. For it, `Lookup.SanitizedChoiceFound` proves that every name it can return starts with the round-2 lookup prefix.
