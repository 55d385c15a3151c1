# ketch CLI integration tests: the `retry` poll loop

The integration tests of the ketch CLI check a platform that converges over time: an app
moves from "pending" to "running" some seconds after it is deployed, and a framework can be
removed only once nothing depends on it. The tests poll with one helper, `retry(name, args,
input, match, times, wait)`. It runs the external command up to `times` times. Stdin is set
only when `input` is non-empty, and the exit status is ignored. `retry` returns nil at the first
attempt whose combined output contains `match`. Between attempts it sleeps `wait` seconds, and
it never sleeps after the last attempt. Every attempt's output goes into one builder, each
followed by a newline. When no attempt matches, `retry` returns the error
`retry failed on command <name>. Output: <builder>`.

This project models that loop in Dafny:

- `gostrings.dfy` (`GoStrings`): Go's `strings.Contains` as substring containment, proved
  equivalent to "occurs at some position".
- `gotime.dfy` (`GoTime`): Go's 64-bit `int`, `time.Duration`, and `time.Second * time.Duration(n)`,
  with two's-complement wrap-around written out.
- `retry.dfy` (`Retry`): the loop itself, as the method `Retry`. The external command becomes
  an oracle, a function from the 0-based attempt index to the output text. Running the command
  and sleeping become events `Ran(invocation)` and `Slept(duration)` in a log that the method
  returns. The method is proved against `Spec`, which is stated via the first matching attempt
  (`FirstMatchFrom`), the sequence of events (`Trace`) and the builder's contents (`Aggregate`).
  The lemmas below derive from `Spec` what the loop promises.

`retry` writes `"\n"` after every output, including the last (cli_tests/ketch_test.go:66-67),
so `Aggregate` ends with a newline whenever at least one attempt ran.

## Model

| member | source | states |
|---|---|---|
| GoStrings.ContainsIffOccurs | cli_tests/ketch_test.go:69 | `strings.Contains(s, sub)` holds exactly when `sub` occurs at some position of `s`, in both directions |
| GoStrings.Contains | cli_tests/ketch_test.go:69 | reference definition of `strings.Contains`, trying every start position from the left; its contract states that the empty string is always contained and that a contained string is no longer than the text |
| GoStrings.ContainsEmpty | cli_tests/ketch_test.go:69 | every output contains the empty string |
| GoTime.Wrap | cli_tests/ketch_test.go:74 | int64 arithmetic wraps modulo 2^64 and is exact when the value fits in int64 |
| GoTime.Seconds | cli_tests/ketch_test.go:74 | `time.Second * time.Duration(wait)` is `wait`·10^9 ns when that fits in int64, zero for zero and positive for a positive wait of at most 9_223_372_036 s |
| Retry.CommandFor | cli_tests/ketch_test.go:59-64 | each attempt runs `name` with `args`; stdin is attached if and only if `input` is non-empty, and then it carries `input` |
| Retry.Aggregate | cli_tests/ketch_test.go:57-67 | reference definition of the builder after `k` attempts, each output followed by `"\n"` in attempt order; its contract states that it holds at least one character per attempt and ends with a newline once an attempt ran |
| Retry.Trace | cli_tests/ketch_test.go:58-75 | reference definition of the run/sleep schedule of `k` attempts; its contract states `2k-1` events (none for `k = 0`), beginning and ending with a run |
| Retry.FailureMessage | cli_tests/ketch_test.go:77 | the `fmt.Errorf` text: it starts with `retry failed on command `, ends with the aggregated output verbatim, and is 34 characters longer than name and output together |
| Retry.FirstMatchFrom | cli_tests/ketch_test.go:58-71 | the attempt found is within the bound and matches, and no earlier attempt matches; when none is found, no attempt in the range matches |
| Retry.Retry | cli_tests/ketch_test.go:56-78 | the loop returns exactly `Spec`: success with the events of the attempts up to the first match, or, with no match, the error carrying every output and the events of all `max(times, 0)` attempts |
| Retry.FirstMatchIs | cli_tests/ketch_test.go:58-71 | an attempt that matches, with no earlier one matching, is the one at which the loop stops |
| Retry.TraceShape | cli_tests/ketch_test.go:58-75 | `k` attempts give `2k-1` events (none for `k = 0`); runs are at even positions and pauses at odd ones, so each pause sits between two runs; every run is the same invocation and every pause lasts the same duration |
| Retry.TraceCounts | cli_tests/ketch_test.go:72-75 | `k` attempts make exactly `k` runs, `k-1` pauses and `(k-1)`·duration of total sleep |
| Retry.NeverSleepsLast | cli_tests/ketch_test.go:72-75 | the last event of a non-empty log is a run: there is no pause after the final attempt |
| Retry.AggregateInOrder | cli_tests/ketch_test.go:57-67 | the builder keeps outputs in attempt order: the text after `j` attempts is a prefix of the text after `k > j` attempts, and output `j` with its newline follows right after it |
| Retry.StopsOnFirstSuccess | cli_tests/ketch_test.go:58-71 | if attempt `k` (1-based, `k <= times`) is the first to match, the result is nil after exactly `k` runs and `k-1` pauses, with no further run |
| Retry.ExhaustsAllAttempts | cli_tests/ketch_test.go:58-77 | with `times >= 1` and no match, there are exactly `times` runs and `times-1` pauses, total sleep `(times-1)`·`wait` seconds, and the error text is the fixed prefix, the name, `. Output: ` and every output with a newline after it, in order |
| Retry.NoAttemptsWhenNonPositive | cli_tests/ketch_test.go:58-77 | with `times <= 0` nothing runs or sleeps, and the error carries an empty output |
| Retry.EmptyExpectedSucceedsFirst | cli_tests/ketch_test.go:65-70 | an empty `match` succeeds on the first attempt, which is then the only run |
| Retry.SucceedsIffSomeAttemptMatches | cli_tests/ketch_test.go:58-71 | `retry` returns nil if and only if some attempt within the bound has output containing `match` |
| Retry.OnlyContainmentDecides | cli_tests/ketch_test.go:65-69 | two commands whose outputs agree, attempt by attempt, on containing `match` stop at the same attempt |
| Retry.SameContainmentSameRun | cli_tests/ketch_test.go:65-69 | success and the whole log of runs and pauses depend only on whether each output contains `match`, not on the rest of the text or on the exit status |
| Retry.AppInfoConverges | cli_tests/ketch_test.go:155 | the deploy test's poll (20 attempts, 5 s apart, for "running") succeeds after `k+1` runs and `k`·5 s of sleep when the app reports "pending" `k < 20` times |

## Left out

- Running processes (`exec.Command`, `CombinedOutput`): the command is an oracle of outputs by attempt index. The exit status and any launch error are discarded by `retry`, so the oracle returns text only. Output that depends on wall-clock time or on earlier runs is covered by the oracle being an arbitrary function of the attempt index.
- `time.Sleep`: a call is recorded as a `Slept` event with its Duration. The real delay is not modelled, and neither is the fact that a negative or zero Duration returns at once.
- The `fmt.Println` progress line before each sleep: output only.
- Go strings are byte strings; the model uses one `char` per byte and models no encoding.
- The `init` function, which resolves the ingress IP through `kubectl` and picks the CLI path from an environment variable: environment I/O.
- The `Test*` functions: black-box assertions against a live cluster's CLI output, with regular expressions and testify `require`. Only the call at line 155 is modelled, as `AppInfoConverges`.
