/** Round-1 repository lookup, `find_round1_repo` (main.py:470-516). */
module Lookup {
  import opened Wrappers
  import opened Errors
  import opened Strings
  import opened Sanitization
  import opened Naming

  /** What `user.get_repos()` yields for one repository: its name, its
      `created_at` (in seconds) and its `html_url`. */
  datatype Repo = Repo(name: string, createdAt: int, htmlUrl: string)

  /** `f"{sanitized_task_id}-round1"` (main.py:494). */
  function Round1Prefix(taskId: string): string {
    Sanitize(taskId) + RoundOneSuffix
  }

  /** The repositories whose name starts with `prefix`, in listing order:
      what the loop at main.py:492-496 appends to `matching_repos`. */
  function Matching(prefix: string, repos: seq<Repo>): seq<Repo> {
    if repos == [] then []
    else
      var last := repos[|repos| - 1];
      Matching(prefix, repos[..|repos| - 1]) + (if IsPrefix(prefix, last.name) then [last] else [])
  }

  /** `matches[i]` is what a stable newest-first sort puts first: no match
      is newer, and every match listed before it is strictly older. */
  predicate IsFirstNewest(matches: seq<Repo>, i: nat) {
    i < |matches| &&
    (forall j :: 0 <= j < |matches| ==> matches[j].createdAt <= matches[i].createdAt) &&
    (forall j :: 0 <= j < i ==> matches[j].createdAt < matches[i].createdAt)
  }

  /** A repository is among the matches exactly when it is listed and its
      name starts with the prefix. */
  lemma {:induction false} MatchingMembers(prefix: string, repos: seq<Repo>)
    ensures forall r :: r in Matching(prefix, repos) <==> r in repos && IsPrefix(prefix, r.name)
    decreases |repos|
  {
    if repos != [] {
      var init := repos[..|repos| - 1];
      MatchingMembers(prefix, init);
      assert repos == init + [repos[|repos| - 1]];
    }
  }

  /** Collects the repositories whose name starts with the round-1 prefix,
      fails when there is none, and otherwise returns the one that
      `matching_repos.sort(key=created_at, reverse=True)` puts first. */
  method FindRound1Repo(taskId: string, repos: seq<Repo>) returns (r: Result<Repo, Error>)
    ensures var prefix := Round1Prefix(taskId);
      r.Failure? <==> forall k :: 0 <= k < |repos| ==> !IsPrefix(prefix, repos[k].name)
    ensures r.Failure? ==> r.error == NoRound1Repo(Round1Prefix(taskId))
    ensures var prefix := Round1Prefix(taskId);
      r.Success? ==>
        r.value in repos && IsPrefix(prefix, r.value.name) &&
        forall k :: 0 <= k < |repos| && IsPrefix(prefix, repos[k].name) ==>
          repos[k].createdAt <= r.value.createdAt
    ensures var matches := Matching(Round1Prefix(taskId), repos);
      r.Success? ==> exists i: nat :: IsFirstNewest(matches, i) && r.value == matches[i]
  {
    var prefix := Sanitize(taskId) + RoundOneSuffix;
    var matching: seq<Repo> := [];
    var i := 0;
    while i < |repos|
      invariant 0 <= i <= |repos|
      invariant matching == Matching(prefix, repos[..i])
    {
      assert repos[..i + 1][..i] == repos[..i];
      if IsPrefix(prefix, repos[i].name) {
        matching := matching + [repos[i]];
      }
      i := i + 1;
    }
    assert repos[..|repos|] == repos;
    MatchingMembers(prefix, repos);
    if matching == [] {
      assert forall k :: 0 <= k < |repos| ==> !IsPrefix(prefix, repos[k].name) by {
        forall k | 0 <= k < |repos| ensures !IsPrefix(prefix, repos[k].name) {
          assert repos[k] in repos;
        }
      }
      return Failure(NoRound1Repo(prefix));
    }
    var best := 0;
    var k := 1;
    while k < |matching|
      invariant 0 <= best < k <= |matching|
      invariant forall j :: 0 <= j < k ==> matching[j].createdAt <= matching[best].createdAt
      invariant forall j :: 0 <= j < best ==> matching[j].createdAt < matching[best].createdAt
    {
      if matching[k].createdAt > matching[best].createdAt {
        best := k;
      }
      k := k + 1;
    }
    assert IsFirstNewest(matching, best);
    forall k | 0 <= k < |repos| && IsPrefix(prefix, repos[k].name)
      ensures repos[k].createdAt <= matching[best].createdAt
    {
      assert repos[k] in matching;
    }
    r := Success(matching[best]);
  }

  /** At most one position is the first newest one: the selection is
      deterministic even when creation times tie. */
  lemma FirstNewestUnique(matches: seq<Repo>, i: nat, j: nat)
    requires IsFirstNewest(matches, i) && IsFirstNewest(matches, j)
    ensures i == j
  {
    assert matches[i].createdAt == matches[j].createdAt;
  }

  /** Run on the sanitised id, the naming step can only return names the
      round-2 lookup finds: every candidate, and the fallback, starts with
      the round-1 prefix. */
  lemma SanitizedIdNamesFound(taskId: string, timestamp: string, maxAttempts: nat, randomSuffix: nat)
    ensures var c := Candidates(Sanitize(taskId), RoundOneSuffix, timestamp, maxAttempts);
      forall k :: 0 <= k < |c| ==> IsPrefix(Round1Prefix(taskId), c[k])
    ensures IsPrefix(Round1Prefix(taskId), FallbackName(Sanitize(taskId), RoundOneSuffix, timestamp, randomSuffix))
  {
    var id := Sanitize(taskId);
    SanitizeIdempotent(taskId);
    var p := Round1Prefix(taskId);
    assert id + RoundOneSuffix == p;
    var c := Candidates(id, RoundOneSuffix, timestamp, maxAttempts);
    forall k | 0 <= k < |c| ensures IsPrefix(p, c[k]) {
      if k == 1 {
        assert c[1] == p + ("-" + timestamp);
      } else if k >= 2 {
        assert c[k] == p + ("-v" + NatToString(k - 1));
      }
    }
    assert FallbackName(id, RoundOneSuffix, timestamp, randomSuffix) ==
      p + ("-" + timestamp + "-" + NatToString(randomSuffix));
  }

  /** Whatever the naming step settles on among the candidates built from
      the sanitised id, the round-2 lookup finds it. */
  lemma SanitizedChoiceFound(taskId: string, timestamp: string, maxAttempts: nat, taken: set<string>,
                             randomSuffix: nat, name: string)
    requires IsChosenName(Candidates(Sanitize(taskId), RoundOneSuffix, timestamp, maxAttempts), taken,
                          FallbackName(Sanitize(taskId), RoundOneSuffix, timestamp, randomSuffix), name)
    ensures IsPrefix(Round1Prefix(taskId), name)
  {
    SanitizedIdNamesFound(taskId, timestamp, maxAttempts, randomSuffix);
  }

  /** The naming step as it was evidently meant to be used by round 1:
      every candidate, the fallback included, is built from the sanitised
      id, so the name it returns is one the round-2 lookup finds. */
  method CorrectedRound1Name(taskId: string, maxAttempts: nat, taken: set<string>,
                             timestamp: string, randomSuffix: nat)
    returns (name: string, probed: seq<string>)
    requires 1000 <= randomSuffix <= 9999
    ensures IsChosenName(Candidates(Sanitize(taskId), RoundOneSuffix, timestamp, maxAttempts), taken,
                         FallbackName(Sanitize(taskId), RoundOneSuffix, timestamp, randomSuffix), name)
    ensures IsPrefix(Round1Prefix(taskId), name)
  {
    name, probed := GenerateUniqueRepoName(Sanitize(taskId), RoundOneSuffix, maxAttempts, taken,
                                           timestamp, randomSuffix);
    SanitizedChoiceFound(taskId, timestamp, maxAttempts, taken, randomSuffix, name);
  }

  /** For an id that is already sanitised, the names built from the raw id
      are the corrected ones, so the round-2 lookup finds the name. */
  lemma SanitizedIdChoiceFound(taskId: string, timestamp: string, maxAttempts: nat, taken: set<string>,
                               randomSuffix: nat, name: string)
    requires IsSanitized(taskId)
    requires IsChosenName(Candidates(taskId, RoundOneSuffix, timestamp, maxAttempts), taken,
                          FallbackName(taskId, RoundOneSuffix, timestamp, randomSuffix), name)
    ensures IsPrefix(Round1Prefix(taskId), name)
  {
    SanitizeFixesSanitized(taskId);
    SanitizedChoiceFound(taskId, timestamp, maxAttempts, taken, randomSuffix, name);
  }

  /** The `-v{i}` and fallback names are built from the raw task id
      (main.py:300, 311), so for a task id that is not already sanitised,
      such as "Demo", the round-2 lookup's prefix "demo-round1" matches
      neither "Demo-round1-v1", which the naming step returns once the base
      and the timestamped names are taken, nor any fallback name. */
  lemma CounterNameMissedByLookup()
    ensures CounterName("Demo", RoundOneSuffix, 1) == "Demo-round1-v1"
    ensures Round1Prefix("Demo") == "demo-round1"
    ensures !IsPrefix(Round1Prefix("Demo"), CounterName("Demo", RoundOneSuffix, 1))
    ensures forall timestamp: string, randomSuffix: nat ::
      !IsPrefix(Round1Prefix("Demo"), FallbackName("Demo", RoundOneSuffix, timestamp, randomSuffix))
  {
    assert ReplaceInvalid("Demo") == "Demo";
    CollapseFixed("Demo");
    StripStripped("Demo", {'-'});
    assert AsciiLower("Demo") == "demo";
    assert NatToString(1) == "1";
    assert CounterName("Demo", RoundOneSuffix, 1)[0] == 'D';
    forall timestamp: string, randomSuffix: nat
      ensures !IsPrefix(Round1Prefix("Demo"), FallbackName("Demo", RoundOneSuffix, timestamp, randomSuffix))
    {
      assert FallbackName("Demo", RoundOneSuffix, timestamp, randomSuffix)[0] == 'D';
    }
  }

  /** The naming step as written, run on "Demo" when `demo-round1` and its
      timestamped name are taken but `Demo-round1-v1` is free, settles on
      `Demo-round1-v1`, a name the round-2 lookup then misses. */
  lemma CounterNameChosenAndMissed(timestamp: string, taken: set<string>, randomSuffix: nat, name: string)
    requires "demo-round1" in taken && "demo-round1-" + timestamp in taken
    requires "Demo-round1-v1" !in taken
    requires IsChosenName(Candidates("Demo", RoundOneSuffix, timestamp, DefaultMaxAttempts), taken,
                          FallbackName("Demo", RoundOneSuffix, timestamp, randomSuffix), name)
    ensures name == "Demo-round1-v1" && !IsPrefix(Round1Prefix("Demo"), name)
  {
    CounterNameMissedByLookup();
    var c := Candidates("Demo", RoundOneSuffix, timestamp, DefaultMaxAttempts);
    assert c[0] == Round1Prefix("Demo") == "demo-round1";
    assert c[1] == "demo-round1" + "-" + timestamp;
    assert "demo-round1" + "-" + timestamp == "demo-round1-" + timestamp;
    assert c[2] == CounterName("Demo", RoundOneSuffix, 1) == "Demo-round1-v1";
    assert c[2] !in taken;
    var i :| 0 <= i < |c| && c[i] == name && c[i] !in taken && forall j :: 0 <= j < i ==> c[j] in taken;
    assert i == 2;
  }
}
