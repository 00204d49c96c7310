# healthcheck — a Dafny model

This project models the core of `healthcheck`, a Go library that serves
liveness/readiness endpoints through gin. A handler runs a configured list of
checks, records each check's result under its name in a status registry, and
answers `200` or `503`. The body is the registry's text: `OK`/`Fail`, or
with `?verbose` one line per check plus a summary. A handler also counts
consecutive failed requests and can send failure and recovery notifications
on a channel. Registration puts handlers on a router and rejects an empty
configuration list and duplicate method/endpoint pairs.

Modules, one per concern of the library:

- `Wrappers`, `Errors` hold Go's "value or nil" and the four sentinel errors
  of `error.go`.
- `GoStrings` holds the parts of Go's `sort` and `strings` the library uses:
  - string order and `sort.Strings`. The model sorts by insertion, proved
    sorted and a permutation. Go's own algorithm differs, but a sorted
    permutation is unique (`SortedUnique`), so any sort gives the same
    result;
  - `strings.Split` on one character, with its `Join` round trips;
  - `strings.ToLower`.
- `Checks` covers `checks/check.go` and `checks/ping_check.go`:
  - the checks and their names;
  - the registry as a class `CheckStatuses` whose field `m` is updated in
    place;
  - `String` proved equal to `Render`, a function of the map's contents
    alone.
- `VerboseReport` is a parser for the verbose body, proved to be its inverse.
  That shows the body lists every entry with its result and nothing else,
  and has `Len()+1` lines.
- `HealthConfig` covers `config.go`: the records and the four default
  constructors.
- `Handlers` covers `handler.go`:
  - query resolution;
  - the check loop (`RunChecks`), with lemmas that state what it records and
    when it errs without reference to the loop;
  - the streak/notification state machine (`Transition`, `Replay`), with its
    characterisation over a whole request history;
  - the closure as a class `Handler`, with the captured `failureInARow` and
    the channel as fields.
- `Registration` covers `healthcheck.go`: `RegisterFor`/`registerFor` and
  `Register`.
- `Scenarios` replays the documented examples of `example_test.go` against
  the model.

Modelling decisions:

- The checks are a datatype: `Ping`, `Env(variable)`, `Sql`,
  `CustomPing(url)`, and `Custom(checkName)` for a user-supplied
  implementation. Every check's `Pass` except Ping's does I/O. Its result at
  request time is a `Probe` parameter, a function from check to bool.
- The handler runs the checks one after another in list order. The error of
  a request is the first error in that order. In Go, `errgroup.Wait` returns
  whichever error came first in time.
- Excluded checks are skipped before they run: they are neither run nor
  recorded (`handler.go:51-57`); `checkStatuses.String` takes no exclusion
  list. An excluded check is therefore not run and then hidden from the
  body: it is never run. `ExcludedAreRemoved` proves that excluding a name
  is the same as deleting its checks from the list.
- `failureInARow` and `Threshold` are Go `uint32`s. The increment wraps at
  2^32 explicitly (`Inc`).
- A nil notification channel is `hasChan == false`. A send is an append to
  the handler's `sent` sequence: `Some(err)` for an error, `None` for nil.
- With no channel, the code never resets the streak: `ReplayWithoutChannel`
  proves it counts every failed request modulo 2^32. Nothing reads it then.
- The router is the sequence of configurations whose handlers were
  registered, in order.

## Model

| member | source | states |
|---|---|---|
| Checks.Check.Name | checks/ping_check.go:14-16 | the name of each built-in check: "Ping"; "Env-" followed by the variable (checks/env_check.go:45-47); "Mysql" (checks/sql_check.go:28-30); "Ping-" followed by the URL (checks/custom_ping_check.go:68-70); a user check's own name |
| Checks.BuiltinNamesClash | checks/env_check.go:45-47 | two built-in checks share a name, and so conflict in one handler, iff they are of the same kind and, for Env and CustomPing, have the same variable or URL: the prefixes keep kinds apart and the suffix keeps variables and URLs apart |
| Checks.Pass | checks/ping_check.go:10-12 | the ping check passes unconditionally; every other check passes iff the world, as the probe reports it, lets it |
| Checks.PingCheck | checks/ping_check.go:10-16 | the ping check passes whatever the probe says, and is named "Ping" |
| Checks.CheckStatuses.constructor | checks/check.go:50-54 | a new registry is empty; the capacity hint has no effect on contents |
| Checks.CheckStatuses.Get | checks/check.go:57-62 | `existed` iff the name is stored; the value is the stored one, or false (Go's zero value) when absent |
| Checks.CheckStatuses.Set | checks/check.go:65-69 | afterwards the name maps to the value and every other name keeps its entry; the size grows by one iff the name was new, so a re-Set keeps Len |
| Checks.CheckStatuses.Delete | checks/check.go:72-76 | afterwards the name is absent and every other name keeps its entry; deleting an absent name changes nothing; the size drops by one iff the name was present |
| Checks.CheckStatuses.Len | checks/check.go:79-84 | the number of distinct stored names |
| Checks.CheckStatuses.Each | checks/check.go:88-95 | the returned visits list every stored name exactly once, with its value, in an arbitrary order; folding them rebuilds the map |
| Checks.CheckStatuses.Partition | checks/check.go:101-111 | the callback String passes to Each collects exactly the passed names and exactly the failed names, and allPass holds iff nothing failed |
| Checks.CheckStatuses.WriteEntries | checks/check.go:121-127 | the builder receives `[+] name ok\n` (or `[-] name fail\n`) for each name, in list order |
| Checks.CheckStatuses.WriteReport | checks/check.go:116-135 | the verbose text is the passed lines, then the failed lines, then the summary, with no trailing newline |
| Checks.CheckStatuses.String | checks/check.go:100-142 | the result is `Render` of the map's contents. It is the same whatever order Each visits in, and the registry is unchanged, since String may not modify it |
| Checks.Render | checks/check.go:100-142 | the terse body is "OK" or "Fail"; the verbose body ends with the summary, "health check passed" iff no stored check failed |
| Checks.RenderTerse | checks/check.go:138-141 | the terse body is "OK" iff no stored value is false, otherwise "Fail"; an empty registry gives "OK" |
| GoStrings.SortStrings | checks/check.go:113-114 | the result is in ascending order and is a permutation of the input |
| GoStrings.SortedUnique | checks/check.go:104-114 | two ascending sequences with the same elements are equal, so sorting removes Each's arbitrary order |
| GoStrings.SortedKeys | checks/check.go:113-114 | a set's names in ascending order, each exactly once |
| GoStrings.Least | checks/check.go:113-114 | a non-empty set has a smallest name under Go's string order |
| GoStrings.LessTotal | checks/check.go:113-114 | Go's string order is total: of two different strings one is smaller |
| GoStrings.LessTransitive | checks/check.go:113-114 | Go's string order is transitive |
| GoStrings.JoinSplit | handler.go:33-35 | joining the comma-split pieces of the excludes query rebuilds the query |
| GoStrings.SplitJoin | handler.go:33-35 | splitting a comma-join of comma-free names gives back exactly those names |
| GoStrings.Split | handler.go:33-35 | strings.Split yields at least one piece, and no piece holds the separator |
| GoStrings.ToLowerAscii | healthcheck.go:29 | strings.ToLower keeps the length, maps each character to its lower-case form (A-Z to a-z, everything else unchanged) position by position, and leaves no upper-case ASCII letter |
| VerboseReport.VerboseLines | checks/check.go:116-135 | when no name holds a newline, the verbose body is exactly the report lines and has Len()+1 lines |
| VerboseReport.ParseRender | checks/check.go:116-135 | parsing the verbose body gives back the registry itself, and the summary says "passed" iff every stored check passed |
| VerboseReport.CollectReport | checks/check.go:121-127 | the entry lines of the verbose body describe exactly the registry, names and results |
| HealthConfig.DefaultNotification | config.go:49 | the default notification has threshold 1 and a nil channel |
| HealthConfig.NewDefaultHandlerConfig | config.go:44-51 | Verbose false, no excludes, only the ping check, threshold 1, nil channel |
| HealthConfig.NewDefaultHandlerConfigFor | config.go:66-77 | the given checks in the given order, possibly none; the other fields as in the default |
| HealthConfig.NewDefaultConfig | config.go:33-40 | GET /healthz with the default handler configuration |
| HealthConfig.NewDefaultConfigFor | config.go:55-62 | GET /healthz with NewDefaultHandlerConfigFor of the checks |
| HealthConfig.DefaultsArePingDefaults | config.go:33-77 | the plain defaults are the "For" defaults of the ping check alone |
| Handlers.EffectiveVerbose | handler.go:28-32 | a `verbose` query parameter, whatever its value, turns verbose output on; without it the configured flag applies |
| Handlers.EffectiveExcludes | handler.go:29-35 | without an `excludes` parameter the configured list applies; with one, the list is its comma-separated pieces: at least one, none holding a comma, and joined by commas they give back the parameter |
| Handlers.RunCheck | handler.go:46-71 | an excluded check changes nothing. Otherwise its name is recorded and earlier entries are kept; a new name records the check's Pass. An earlier error stands; else the error becomes a names conflict iff the name was already recorded, and a check failure iff the name is new and the check fails |
| Handlers.RunChecks | handler.go:42-73 | a request's error, if any, is a check failure or a names conflict, never a registration error |
| Handlers.ErrorKind | handler.go:59-71 | a request reports the check-failure error only if some recorded check failed, and the names-conflict error only if two non-excluded checks share a name |
| Handlers.RecordedNames | handler.go:51-65 | after the loop, a name is recorded iff some check has it and it is not excluded |
| Handlers.FirstDecides | handler.go:59-65 | a recorded name's value is the result of the first check with that name; a later check of the same name never runs and never overwrites it |
| Handlers.ErrorIff | handler.go:51-73 | a request errs iff two non-excluded checks share a name, or the first check of some non-excluded name fails |
| Handlers.ExcludedAreRemoved | handler.go:51-57 | running with an exclusion list is running without exclusions on the list minus the excluded checks, so an excluded check is never run or recorded and cannot make the request fail |
| Handlers.DuplicateNamesFail | handler.go:59-61 | two non-excluded checks with one name force 503, even when both pass |
| Handlers.StatusOKIff | handler.go:76-80 | the status is 200 iff no names clash and every recorded check passed, else 503 |
| Handlers.Inc | handler.go:81 | the uint32 increment of failureInARow: one more, except that 2^32-1 wraps to 0 |
| Handlers.Transition | handler.go:77-92 | a failed request adds one (mod 2^32) to the streak and alerts with its error iff the new streak reaches the threshold and a channel exists; a success signals recovery iff the streak was non-zero and a channel exists, and then resets the streak to 0; otherwise the streak is unchanged |
| Handlers.ReplayWithChannel | handler.go:76-93 | with a channel, and under 2^32 requests: the streak is the number of failed requests since the last success. A request sends its error iff that count reaches the threshold, and sends nil iff it is the first success after a failure |
| Handlers.ReplayWithoutChannel | handler.go:84-92 | with a nil channel nothing is ever sent, and the streak counts all failures modulo 2^32 |
| Handlers.ThresholdThree | handler.go:81-92 | with threshold 3, three failures then a success send nothing, nothing, the error, then nil, and end with streak 0 |
| Handlers.NotificationsSnoc | handler.go:84-91 | the channel holds the sends of earlier requests followed by this request's send |
| Handlers.Handler.constructor | handler.go:15-19 | a new handler has streak 0 and has sent nothing |
| Handlers.Handler.Excluded | handler.go:51-57 | the scan of the exclusion list finds the name iff the list holds it |
| Handlers.Handler.RunAll | handler.go:38-73 | the loop leaves a fresh registry holding exactly `RunChecks`'s map, and returns its error |
| Handlers.Handler.Record | handler.go:76-93 | an error adds one (mod 2^32) to the streak, and the error is sent iff the new streak reaches the threshold and a channel exists. A success with a non-zero streak and a channel resets it and sends exactly one nil; otherwise nothing changes |
| Handlers.Handler.HandleRequest | handler.go:21-97 | the status and body are `Respond`: 503 iff an error occurred, and the body is the registry rendered with verbose = query present or configured. Excludes are the query split at commas, else the configured list. The streak and channel move by one `Transition`, keeping the handler consistent with its whole request history |
| Registration.Key | healthcheck.go:29 | the key is the method followed by the endpoint, each character in lower case, with no separator |
| Registration.SameKeyIff | healthcheck.go:29-31 | two configurations clash iff method+endpoint of both have the same length and agree character by character once ASCII case is ignored |
| Registration.RegisterFor | healthcheck.go:21-40 | no configs gives EmptyConfigs and registers nothing. Otherwise it succeeds iff all keys are distinct, registering all configs in order. On a conflict it registers the configs before the first repeated key, in order, and that key repeats one of them |
| Registration.NotDistinct | healthcheck.go:30-32 | a key already seen means the configuration list has a repeated key |
| Registration.Register | healthcheck.go:11-13 | registering the default configuration alone always succeeds and registers exactly it |
| Registration.KeyIgnoresCase | healthcheck.go:29 | GET /healthz and get /HEALTHZ have the same key, `get/healthz` |
| Registration.KeyHasNoSeparator | healthcheck.go:29 | GET /x and GE T/x have the same key, since method and endpoint are joined without a separator |
| Scenarios.DefaultHandler | example_test.go:14-26 | the default handler answers 200 "OK" |
| Scenarios.VerboseDefaultHandler | example_test.go:28-44 | the default configuration with Verbose answers 200 "[+] Ping ok\nhealth check passed" |
| Scenarios.ReadyzVerbose | example_test.go:51-67 | ping plus an unset DB_HOST check, with `?verbose`, answers 503 with the ping line, the failed Env-DB_HOST line and "health check failed" |
| Scenarios.ReadyzExcluded | example_test.go:57-71 | the same with `excludes=Env-DB_HOST` answers 200 with only the ping line and "health check passed" |
| Scenarios.DuplicatePassingChecks | handler.go:59-61 | two passing ping checks answer 503 with body "OK" |

## Left out

- Concurrency is not modelled. This covers the errgroup fan-out, the
  registry's read/write lock and the handler's mutex. The checks run
  sequentially in list order. In Go, the non-atomic Get-then-Set of two
  checks with the same name can race, and that race is not modelled.
- Handlers.RunChecks: the error of a request is the first error in list
  order, while Go reports whichever check's error reached `errgroup.Wait`
  first. `ErrorKind` pins the kind down whenever only one kind can occur:
  a request without a names conflict reports the failure, and one without
  a failed check reports the conflict. When a request has both, the
  contracts say only that it reports one of the two.
- Handlers.Handler.HandleRequest: the error it sends on the channel is the
  one `RunChecks` reports, with the same ordering caveat.
- The `sync.Pool` of string builders has no observable effect, so it is not
  modelled.
- Gin plumbing is not modelled: routing, `c.GetQuery` and `c.String`. The
  query values are the `Option` parameters of `HandleRequest`, and the
  status and body are its results.
- Channel blocking is not modelled. A send never blocks in the model, while
  in Go an unread channel stalls the handler while it holds its mutex.
- The I/O of the environment, SQL and custom-ping checks is a `Probe`
  parameter: `os.Getenv`, regexp matching, `database/sql` and `net/http`.
  Only their names are modelled exactly.
- `Check` keeps only the fields a check's name is made of. The
  environment check's regex (`NewEnvRegexCheck`), the SQL check's database
  handle and the custom ping's HTTP method, headers and timeout are not
  modelled, so Go checks that differ only in those are one model value.
  The handler's answer is unaffected: of the checks sharing a name the
  model runs only the first, and the request reports a names conflict
  whatever the others would return.
- Strings are sequences of Unicode code points. Go strings are byte
  strings, and one holding invalid UTF-8 has no counterpart in the model;
  the string order `Less` agrees with Go's byte order on valid UTF-8.
- `strings.ToLower` is modelled on ASCII letters only. Unicode case folding
  is not modelled.
- The capacity hint of `NewCheckStatuses` and `make` is not modelled. Nor is
  Go's difference between a nil slice and an empty slice in
  `NewDefaultHandlerConfigFor`.
- The benchmarks and the HTTP test helper of `example_test.go` are not
  modelled.
- VerboseReport.VerboseLines and VerboseReport.ParseRender assume that no
  check name holds a newline. A name with a newline would add lines to the
  body.
