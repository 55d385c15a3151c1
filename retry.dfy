/** The bounded poll loop `retry` of the ketch CLI integration tests.

    The loop runs one external command up to `times` times, stops at the first attempt
    whose combined output contains `match`, and sleeps `wait` seconds between attempts.
    The external command is an oracle: the output text of each attempt, by its 0-based
    index (the exit status is discarded by `retry`, so the oracle returns text only).
    Running the command and sleeping are recorded, in order, as events of a log. */
module Retry {
  import opened GoStrings
  import opened GoTime

  datatype Option<T> = None | Some(value: T)

  /** The process `exec.Command` sets up: executable, arguments, and the stdin payload if any. */
  datatype Invocation = Invocation(name: string, args: seq<string>, stdin: Option<string>)

  /** What the loop does to the world outside it. */
  datatype Event = Ran(cmd: Invocation) | Slept(duration: Duration)

  /** The `error` that `retry` returns: nil, or an error carrying its text. */
  datatype Outcome = Ok | Failed(message: string)

  /** Combined output of the external command at each 0-based attempt. */
  type Oracle = nat -> string

  /** The command of one attempt: stdin is attached only when `input` is non-empty. */
  function CommandFor(name: string, args: seq<string>, input: string): (c: Invocation)
    ensures c.name == name && c.args == args
    ensures c.stdin.Some? <==> input != ""
    ensures c.stdin.Some? ==> c.stdin.value == input
  {
    Invocation(name, args, if input != "" then Some(input) else None)
  }

  /** The number of attempts a bound of `times` allows. */
  function Bound(times: int64): nat
  {
    if times <= 0 then 0 else times as nat
  }

  // ---------------------------------------------------------------------------
  // Specification

  /** The first attempt in `[i, n)` whose output contains `expected`, if there is one. */
  function FirstMatchFrom(oracle: Oracle, expected: string, i: nat, n: int): (r: Option<nat>)
    ensures r.Some? ==> i <= r.value < n && Contains(oracle(r.value), expected)
    ensures r.Some? ==> forall j :: i <= j < r.value ==> !Contains(oracle(j), expected)
    ensures r.None? ==> forall j :: i <= j < n ==> !Contains(oracle(j), expected)
    decreases n - i
  {
    if n <= i then None
    else if Contains(oracle(i), expected) then Some(i)
    else FirstMatchFrom(oracle, expected, i + 1, n)
  }

  function FirstMatch(oracle: Oracle, expected: string, n: int): Option<nat>
  {
    FirstMatchFrom(oracle, expected, 0, n)
  }

  /** The text the builder holds after `k` attempts: every output followed by a newline,
      in attempt order. */
  function Aggregate(oracle: Oracle, k: nat): (r: string)
    ensures |r| >= k
    ensures k > 0 ==> r[|r| - 1] == '\n'
  {
    if k == 0 then "" else Aggregate(oracle, k - 1) + oracle(k - 1) + "\n"
  }

  /** The events of `k` attempts that all ran: a run, then a pause and a run for each further one. */
  function Trace(cmd: Invocation, pause: Duration, k: nat): (t: seq<Event>)
    ensures |t| == if k == 0 then 0 else 2 * k - 1
    ensures k > 0 ==> t[0] == Ran(cmd) && t[|t| - 1] == Ran(cmd)
  {
    if k == 0 then []
    else if k == 1 then [Ran(cmd)]
    else Trace(cmd, pause, k - 1) + [Slept(pause), Ran(cmd)]
  }

  /** The text of the error returned once every attempt has failed. */
  function FailureMessage(name: string, output: string): (m: string)
    ensures |m| == 34 + |name| + |output|
    ensures m[..24] == "retry failed on command "
    ensures m[|m| - |output|..] == output
  {
    "retry failed on command " + name + ". Output: " + output
  }

  /** What `retry` returns and does, in terms of the first attempt that matches. */
  function Spec(oracle: Oracle, name: string, args: seq<string>, input: string,
                expected: string, times: int64, wait: int64): (Outcome, seq<Event>)
  {
    var cmd := CommandFor(name, args, input);
    match FirstMatch(oracle, expected, times as int)
    case Some(j) => (Ok, Trace(cmd, Seconds(wait), j + 1))
    case None => (Failed(FailureMessage(name, Aggregate(oracle, Bound(times)))),
                  Trace(cmd, Seconds(wait), Bound(times)))
  }

  // ---------------------------------------------------------------------------
  // Counting events

  function CountRuns(log: seq<Event>): nat
  {
    if log == [] then 0
    else CountRuns(log[..|log| - 1]) + (if log[|log| - 1].Ran? then 1 else 0)
  }

  function CountSleeps(log: seq<Event>): nat
  {
    if log == [] then 0
    else CountSleeps(log[..|log| - 1]) + (if log[|log| - 1].Slept? then 1 else 0)
  }

  /** Sum of the requested pause durations, in nanoseconds. */
  function TotalSleep(log: seq<Event>): int
  {
    if log == [] then 0
    else TotalSleep(log[..|log| - 1]) + (if log[|log| - 1].Slept? then log[|log| - 1].duration as int else 0)
  }

  // ---------------------------------------------------------------------------
  // The loop

  /** `retry(name, args, input, match, times, wait)`, with `match` renamed `expected`. */
  method Retry(oracle: Oracle, name: string, args: seq<string>, input: string,
               expected: string, times: int64, wait: int64)
    returns (result: Outcome, log: seq<Event>)
    ensures (result, log) == Spec(oracle, name, args, input, expected, times, wait)
  {
    ghost var cmd0 := CommandFor(name, args, input);
    ghost var pause := Seconds(wait);
    var sb := "";
    log := [];
    var i: int64 := 0;
    while i < times
      invariant 0 <= i as int <= Bound(times)
      invariant sb == Aggregate(oracle, i as nat)
      invariant forall j :: 0 <= j < i as int ==> !Contains(oracle(j), expected)
      invariant log == Trace(cmd0, pause, i as nat) + (if 0 < i < times then [Slept(pause)] else [])
    {
      var cmd := CommandFor(name, args, input);
      var b := oracle(i as nat);
      log := log + [Ran(cmd)];
      assert log == Trace(cmd0, pause, i as nat + 1);
      sb := sb + b;
      sb := sb + "\n";
      if Contains(b, expected) {
        FirstMatchIs(oracle, expected, times as int, i as nat);
        result := Ok;
        assert (result, log) == Spec(oracle, name, args, input, expected, times, wait);
        return;
      }
      if i < times - 1 {
        log := log + [Slept(Seconds(wait))];
      }
      i := i + 1;
    }
    assert FirstMatch(oracle, expected, times as int) == None;
    result := Failed(FailureMessage(name, sb));
    assert log == Trace(cmd0, pause, Bound(times));
    assert result == Failed(FailureMessage(name, Aggregate(oracle, Bound(times))));
  }

  // ---------------------------------------------------------------------------
  // Properties

  /** Attempt `k` is the first match in `[0, n)` exactly when `FirstMatch` says so. */
  lemma FirstMatchIs(oracle: Oracle, expected: string, n: int, k: nat)
    requires k < n && Contains(oracle(k), expected)
    requires forall j :: 0 <= j < k ==> !Contains(oracle(j), expected)
    ensures FirstMatch(oracle, expected, n) == Some(k)
  {
  }

  /** The log of `k` attempts alternates runs and pauses, starting and ending with a run,
      and every run is the same command, every pause the same duration. */
  lemma {:induction false} TraceShape(cmd: Invocation, pause: Duration, k: nat)
    ensures |Trace(cmd, pause, k)| == if k == 0 then 0 else 2 * k - 1
    ensures forall j :: 0 <= j < |Trace(cmd, pause, k)| ==>
              Trace(cmd, pause, k)[j] == if j % 2 == 0 then Ran(cmd) else Slept(pause)
  {
    if k > 1 {
      TraceShape(cmd, pause, k - 1);
    }
  }

  /** `k` attempts make `k` runs and `k - 1` pauses of `pause` nanoseconds each. */
  lemma {:induction false} TraceCounts(cmd: Invocation, pause: Duration, k: nat)
    ensures CountRuns(Trace(cmd, pause, k)) == k
    ensures CountSleeps(Trace(cmd, pause, k)) == if k == 0 then 0 else k - 1
    ensures TotalSleep(Trace(cmd, pause, k)) == if k == 0 then 0 else (k - 1) * pause as int
  {
    if k > 1 {
      TraceCounts(cmd, pause, k - 1);
      var t := Trace(cmd, pause, k);
      var u := Trace(cmd, pause, k - 1) + [Slept(pause)];
      assert t[..|t| - 1] == u;
      assert u[..|u| - 1] == Trace(cmd, pause, k - 1);
    } else if k == 1 {
      assert Trace(cmd, pause, k)[..0] == [];
    }
  }

  /** No pause ever follows the last attempt: a non-empty log ends with a run. */
  lemma NeverSleepsLast(cmd: Invocation, pause: Duration, k: nat)
    requires k > 0
    ensures Trace(cmd, pause, k)[|Trace(cmd, pause, k)| - 1] == Ran(cmd)
  {
    TraceShape(cmd, pause, k);
  }

  /** The builder holds the earlier outputs first: the text after `j` attempts is a prefix of
      the text after `k`, and output `j` with its newline follows right after it. */
  lemma {:induction false} AggregateInOrder(oracle: Oracle, j: nat, k: nat)
    requires j < k
    ensures Aggregate(oracle, j) <= Aggregate(oracle, k)
    ensures |Aggregate(oracle, j)| + |oracle(j)| + 1 <= |Aggregate(oracle, k)|
    ensures Aggregate(oracle, k)[|Aggregate(oracle, j)|..|Aggregate(oracle, j)| + |oracle(j)| + 1]
            == oracle(j) + "\n"
  {
    if j < k - 1 {
      AggregateInOrder(oracle, j, k - 1);
      var a := Aggregate(oracle, k - 1);
      assert Aggregate(oracle, k) == a + (oracle(k - 1) + "\n");
    } else {
      assert Aggregate(oracle, k) == Aggregate(oracle, j) + (oracle(j) + "\n");
    }
  }

  /** If attempt `k` (1-based) is the first whose output contains the expected text, `retry`
      succeeds after exactly `k` runs and `k - 1` pauses, and runs nothing after it. */
  lemma StopsOnFirstSuccess(oracle: Oracle, name: string, args: seq<string>, input: string,
                            expected: string, times: int64, wait: int64, k: nat)
    requires 1 <= k <= times as int
    requires Contains(oracle(k - 1), expected)
    requires forall j :: 0 <= j < k - 1 ==> !Contains(oracle(j), expected)
    ensures Spec(oracle, name, args, input, expected, times, wait).0 == Ok
    ensures Spec(oracle, name, args, input, expected, times, wait).1
            == Trace(CommandFor(name, args, input), Seconds(wait), k)
    ensures CountRuns(Spec(oracle, name, args, input, expected, times, wait).1) == k
    ensures CountSleeps(Spec(oracle, name, args, input, expected, times, wait).1) == k - 1
  {
    FirstMatchIs(oracle, expected, times as int, k - 1);
    TraceCounts(CommandFor(name, args, input), Seconds(wait), k);
  }

  /** If no attempt matches and `times` is positive, `retry` runs exactly `times` times, pauses
      `times - 1` times for `wait` seconds each, and fails with every output in its message. */
  lemma ExhaustsAllAttempts(oracle: Oracle, name: string, args: seq<string>, input: string,
                            expected: string, times: int64, wait: int64)
    requires times >= 1
    requires forall j :: 0 <= j < times as int ==> !Contains(oracle(j), expected)
    ensures Spec(oracle, name, args, input, expected, times, wait).0
            == Failed("retry failed on command " + name + ". Output: " + Aggregate(oracle, times as nat))
    ensures CountRuns(Spec(oracle, name, args, input, expected, times, wait).1) == times as int
    ensures CountSleeps(Spec(oracle, name, args, input, expected, times, wait).1) == times as int - 1
    ensures TotalSleep(Spec(oracle, name, args, input, expected, times, wait).1)
            == (times as int - 1) * Seconds(wait) as int
    ensures -9_223_372_036 <= wait as int <= 9_223_372_036 ==>
              TotalSleep(Spec(oracle, name, args, input, expected, times, wait).1)
              == (times as int - 1) * wait as int * 1_000_000_000
  {
    var t := Spec(oracle, name, args, input, expected, times, wait).1;
    assert FirstMatch(oracle, expected, times as int) == None;
    TraceCounts(CommandFor(name, args, input), Seconds(wait), times as nat);
    if -9_223_372_036 <= wait as int <= 9_223_372_036 {
      assert Seconds(wait) as int == wait as int * 1_000_000_000;
      assert (times as int - 1) * (wait as int * 1_000_000_000)
          == (times as int - 1) * wait as int * 1_000_000_000;
    }
  }

  /** With `times <= 0` nothing is run, nothing is slept, and the error carries an empty output. */
  lemma NoAttemptsWhenNonPositive(oracle: Oracle, name: string, args: seq<string>, input: string,
                                  expected: string, times: int64, wait: int64)
    requires times <= 0
    ensures Spec(oracle, name, args, input, expected, times, wait)
            == (Failed("retry failed on command " + name + ". Output: "), [])
  {
    var prefix := "retry failed on command " + name + ". Output: ";
    assert prefix + "" == prefix;
  }

  /** An empty expected text is contained in any output, so the first attempt succeeds. */
  lemma EmptyExpectedSucceedsFirst(oracle: Oracle, name: string, args: seq<string>, input: string,
                                   times: int64, wait: int64)
    requires times >= 1
    ensures Spec(oracle, name, args, input, "", times, wait)
            == (Ok, [Ran(CommandFor(name, args, input))])
  {
    ContainsEmpty(oracle(0));
  }

  /** `retry` succeeds exactly when some attempt within the bound has matching output. */
  lemma SucceedsIffSomeAttemptMatches(oracle: Oracle, name: string, args: seq<string>, input: string,
                                      expected: string, times: int64, wait: int64)
    ensures Spec(oracle, name, args, input, expected, times, wait).0 == Ok
            <==> exists j :: 0 <= j < times as int && Contains(oracle(j), expected)
  {
  }

  /** Only containment decides: two commands whose outputs agree, attempt by attempt, on
      whether they contain the expected text give the same success and the same event log. */
  lemma {:induction false} OnlyContainmentDecides(o1: Oracle, o2: Oracle, expected: string, i: nat, n: int)
    requires forall j :: i <= j < n ==> (Contains(o1(j), expected) <==> Contains(o2(j), expected))
    ensures FirstMatchFrom(o1, expected, i, n) == FirstMatchFrom(o2, expected, i, n)
    decreases n - i
  {
    if i < n {
      OnlyContainmentDecides(o1, o2, expected, i + 1, n);
    }
  }

  lemma SameContainmentSameRun(o1: Oracle, o2: Oracle, name: string, args: seq<string>, input: string,
                               expected: string, times: int64, wait: int64)
    requires forall j :: 0 <= j < times as int ==> (Contains(o1(j), expected) <==> Contains(o2(j), expected))
    ensures Spec(o1, name, args, input, expected, times, wait).0.Ok?
            == Spec(o2, name, args, input, expected, times, wait).0.Ok?
    ensures Spec(o1, name, args, input, expected, times, wait).1
            == Spec(o2, name, args, input, expected, times, wait).1
  {
    OnlyContainmentDecides(o1, o2, expected, 0, times as int);
  }

  /** The app-info poll of the deploy scenario (20 attempts, 5 seconds apart, waiting for
      "running"): if the platform reports "pending" for the first `k < 20` attempts and
      "running" afterwards, the poll succeeds after `k + 1` runs and `k` pauses of 5 s. */
  lemma AppInfoConverges(name: string, app: string, k: nat)
    requires k < 20
    ensures var oracle: Oracle := j => if j < k then "pending" else "running";
            var (result, log) := Spec(oracle, name, ["app", "info", app], "", "running", 20, 5);
            result == Ok && CountRuns(log) == k + 1 && TotalSleep(log) == k * 5_000_000_000
  {
    var oracle: Oracle := j => if j < k then "pending" else "running";
    assert "pending"[..7][0] != "running"[0];
    assert !Contains("pending"[1..], "running");
    assert Contains("running", "running");
    FirstMatchIs(oracle, "running", 20, k);
    TraceCounts(CommandFor(name, ["app", "info", app], ""), Seconds(5), k + 1);
  }
}
