/** Unique repository naming, `generate_unique_repo_name` (main.py:259-313).

    A lookup `user.get_repo(name)` is modelled by membership in `taken`, the
    set of names for which the lookup returns a repository. The source wraps
    every lookup in a bare `except`, so a lookup that fails for ANY reason
    (not found, but also a network or rate-limit error) makes the name count
    as free: such a name is simply absent from `taken`. The timestamp is
    computed once (main.py:287) and the random suffix drawn once
    (main.py:310); both are inputs. */
module Naming {
  import opened Strings
  import opened Sanitization

  const RoundOneSuffix := "-round1"
  const DefaultMaxAttempts := 10

  /** `f"{sanitized_task_id}{base_suffix}"` (main.py:274). */
  function BaseName(taskId: string, suffix: string): string {
    Sanitize(taskId) + suffix
  }

  /** `f"{sanitized_task_id}{base_suffix}-{timestamp}"` (main.py:288). */
  function TimestampedName(taskId: string, suffix: string, timestamp: string): string {
    Sanitize(taskId) + suffix + "-" + timestamp
  }

  /** `f"{task_id}{base_suffix}-v{i}"` (main.py:300): built from the raw,
      unsanitised task id. */
  function CounterName(taskId: string, suffix: string, i: nat): string {
    taskId + suffix + "-v" + NatToString(i)
  }

  /** `f"{task_id}{base_suffix}-{timestamp}-{random_suffix}"` (main.py:311). */
  function FallbackName(taskId: string, suffix: string, timestamp: string, randomSuffix: nat): string {
    taskId + suffix + "-" + timestamp + "-" + NatToString(randomSuffix)
  }

  /** The names probed, in order: base, timestamped, then `-v1` … `-vN`. */
  function Candidates(taskId: string, suffix: string, timestamp: string, maxAttempts: nat): (c: seq<string>)
    ensures |c| == 2 + maxAttempts
  {
    [BaseName(taskId, suffix), TimestampedName(taskId, suffix, timestamp)] +
    seq(maxAttempts, k requires 0 <= k < maxAttempts => CounterName(taskId, suffix, k + 1))
  }

  /** `probed` is the first `|probed|` candidates, in order. */
  predicate IsPrefixOf(probed: seq<string>, c: seq<string>) {
    |probed| <= |c| && forall k :: 0 <= k < |probed| ==> probed[k] == c[k]
  }

  /** `name` is what the naming step settles on: the first candidate that
      is not taken, or the fallback when every candidate is taken. */
  predicate IsChosenName(c: seq<string>, taken: set<string>, fallback: string, name: string) {
    (exists i :: 0 <= i < |c| && c[i] == name && c[i] !in taken && forall j :: 0 <= j < i ==> c[j] in taken) ||
    ((forall k :: 0 <= k < |c| ==> c[k] in taken) && name == fallback)
  }

  /** Probes the candidates in order and returns the first one the lookup
      does not find; when every candidate is found, returns the
      timestamp-plus-random fallback without probing it. `probed` lists the
      names looked up, in the order they were looked up. */
  method GenerateUniqueRepoName(taskId: string, suffix: string, maxAttempts: nat, taken: set<string>,
                                timestamp: string, randomSuffix: nat)
    returns (name: string, probed: seq<string>)
    requires 1000 <= randomSuffix <= 9999
    ensures |probed| >= 1 && IsPrefixOf(probed, Candidates(taskId, suffix, timestamp, maxAttempts))
    ensures forall k :: 0 <= k < |probed| - 1 ==> probed[k] in taken
    ensures var c := Candidates(taskId, suffix, timestamp, maxAttempts);
      (exists k :: 0 <= k < |c| && c[k] !in taken) ==>
        name == probed[|probed| - 1] && name !in taken
    ensures var c := Candidates(taskId, suffix, timestamp, maxAttempts);
      (forall k :: 0 <= k < |c| ==> c[k] in taken) ==>
        |probed| == |c| && name == FallbackName(taskId, suffix, timestamp, randomSuffix)
    ensures IsChosenName(Candidates(taskId, suffix, timestamp, maxAttempts), taken,
                         FallbackName(taskId, suffix, timestamp, randomSuffix), name)
  {
    ghost var c := Candidates(taskId, suffix, timestamp, maxAttempts);
    var sanitized := Sanitize(taskId);
    var baseName := sanitized + suffix;
    assert c[0] == baseName;
    probed := [baseName];
    if baseName !in taken {
      return baseName, probed;
    }
    var timestampedName := sanitized + suffix + "-" + timestamp;
    assert c[1] == timestampedName;
    probed := probed + [timestampedName];
    if timestampedName !in taken {
      return timestampedName, probed;
    }
    var i := 1;
    while i <= maxAttempts
      invariant 1 <= i <= maxAttempts + 1
      invariant |probed| == i + 1 && IsPrefixOf(probed, c)
      invariant forall k :: 0 <= k < |probed| ==> probed[k] in taken
    {
      var counterName := taskId + suffix + "-v" + NatToString(i);
      assert c[i + 1] == counterName;
      probed := probed + [counterName];
      if counterName !in taken {
        return counterName, probed;
      }
      i := i + 1;
    }
    name := taskId + suffix + "-" + timestamp + "-" + NatToString(randomSuffix);
  }

  /** The counter candidates are pairwise distinct, so `-v1` … `-vN` are N
      different names tried in increasing order of `i`. */
  lemma CounterNamesDistinct(taskId: string, suffix: string, i: nat, j: nat)
    requires i != j
    ensures CounterName(taskId, suffix, i) != CounterName(taskId, suffix, j)
  {
    var p := taskId + suffix + "-v";
    if CounterName(taskId, suffix, i) == CounterName(taskId, suffix, j) {
      assert NatToString(i) == CounterName(taskId, suffix, i)[|p|..];
      assert NatToString(j) == CounterName(taskId, suffix, j)[|p|..];
      NatToStringInjective(i, j);
    }
  }

  /** The fallback name ends in `-` and the four digits of the random suffix. */
  lemma FallbackEndsInFourDigits(taskId: string, suffix: string, timestamp: string, randomSuffix: nat)
    requires 1000 <= randomSuffix <= 9999
    ensures var f := FallbackName(taskId, suffix, timestamp, randomSuffix);
      |f| >= 5 && f[|f| - 5] == '-' &&
      forall k :: |f| - 4 <= k < |f| ==> IsDigit(f[k])
  {
    NatToStringFourDigits(randomSuffix);
    var f := FallbackName(taskId, suffix, timestamp, randomSuffix);
    var d := NatToString(randomSuffix);
    assert f == (taskId + suffix + "-" + timestamp) + "-" + d;
    forall k | |f| - 4 <= k < |f| ensures IsDigit(f[k]) {
      assert f[k] == d[k - (|f| - 4)];
    }
  }
}
