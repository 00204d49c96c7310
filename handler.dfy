/**
 * The request handler built by NewHandler (handler.go): per request it
 * resolves the verbose flag and the exclusion list, runs the checks into a
 * fresh status registry, answers 200 or 503 with the registry's text, and
 * keeps a per-handler streak of failed requests that drives the failure
 * notifications.
 *
 * The checks run one after another in list order; the first error in that
 * order stands for the error errgroup.Wait returns.
 */
module Handlers {
  import opened Wrappers
  import opened Errors
  import opened GoStrings
  import opened Checks
  import opened HealthConfig

  const StatusOK: int := 200
  const StatusServiceUnavailable: int := 503

  // ---------------------------------------------------------------------
  // Query resolution

  /** The verbose query key, whatever its value, turns verbose output on. */
  function EffectiveVerbose(conf: HandlerConfig, verboseQ: Option<string>): (verbose: bool)
    ensures verboseQ.Some? ==> verbose
    ensures verboseQ.None? ==> verbose == conf.verbose
  {
    verboseQ.Some? || conf.verbose
  }

  /** An excludes query value, split at commas, replaces the configured list. */
  function EffectiveExcludes(conf: HandlerConfig, excludesQ: Option<string>): (excludes: seq<string>)
    ensures excludesQ.None? ==> excludes == conf.excludes
    ensures excludesQ.Some? ==>
      && |excludes| >= 1
      && (forall i :: 0 <= i < |excludes| ==> ',' !in excludes[i])
      && Join(excludes, ',') == excludesQ.value
  {
    if excludesQ.Some? then
      JoinSplit(excludesQ.value, ',');
      Split(excludesQ.value, ',')
    else conf.excludes
  }

  // ---------------------------------------------------------------------
  // Running the checks, as a function of the checks

  /** The registry contents and the first error after some checks ran. */
  datatype Outcome = Outcome(statuses: map<string, bool>, err: Option<HealthError>)

  /** One check of the loop: skipped when excluded, a names conflict when its
      name is already recorded (it then neither runs nor overwrites), else
      run and recorded, a failure when it does not pass. */
  function RunCheck(o: Outcome, c: Check, probe: Probe, excludes: seq<string>): (r: Outcome)
    ensures c.Name() in excludes ==> r == o
    ensures c.Name() !in excludes ==> r.statuses.Keys == o.statuses.Keys + {c.Name()}
    ensures forall k :: k in o.statuses ==> r.statuses[k] == o.statuses[k]
    ensures c.Name() !in excludes && c.Name() !in o.statuses ==> r.statuses[c.Name()] == Pass(c, probe)
    ensures o.err.Some? ==> r.err == o.err
    ensures o.err.None? && r.err.Some? ==>
      || (r.err == Some(HealthCheckNamesConflict) && c.Name() !in excludes && c.Name() in o.statuses)
      || (r.err == Some(HealthCheckFailed) && c.Name() !in excludes && c.Name() !in o.statuses && !Pass(c, probe))
    ensures o.err.None? && c.Name() !in excludes && c.Name() in o.statuses ==> r.err == Some(HealthCheckNamesConflict)
    ensures o.err.None? && c.Name() !in excludes && c.Name() !in o.statuses ==>
      (r.err.None? <==> Pass(c, probe))
  {
    var name := c.Name();
    if name in excludes then o
    else if name in o.statuses then Outcome(o.statuses, FirstError(o.err, HealthCheckNamesConflict))
    else
      var pass := Pass(c, probe);
      Outcome(o.statuses[name := pass], if pass then o.err else FirstError(o.err, HealthCheckFailed))
  }

  function FirstError(err: Option<HealthError>, e: HealthError): Option<HealthError>
  {
    if err.Some? then err else Some(e)
  }

  /** The checks cs, run in order into an empty registry. */
  function RunChecks(cs: seq<Check>, probe: Probe, excludes: seq<string>): (o: Outcome)
    ensures o.err == None || o.err == Some(HealthCheckFailed) || o.err == Some(HealthCheckNamesConflict)
    decreases |cs|
  {
    if cs == [] then Outcome(map[], None)
    else RunCheck(RunChecks(cs[..|cs| - 1], probe, excludes), cs[|cs| - 1], probe, excludes)
  }

  /** The status and body of a request. */
  ghost function Respond(conf: HandlerConfig, probe: Probe, verboseQ: Option<string>, excludesQ: Option<string>): (int, string)
  {
    var o := RunChecks(conf.checks, probe, EffectiveExcludes(conf, excludesQ));
    (if o.err.Some? then StatusServiceUnavailable else StatusOK, Render(o.statuses, EffectiveVerbose(conf, verboseQ)))
  }

  // ---------------------------------------------------------------------
  // What RunChecks computes, stated without the loop

  /** No earlier check carries the name of check i. */
  predicate FirstOfName(cs: seq<Check>, i: int)
    requires 0 <= i < |cs|
  {
    forall j :: 0 <= j < i ==> cs[j].Name() != cs[i].Name()
  }

  /** Two checks that are not excluded share a name. */
  predicate HasConflict(cs: seq<Check>, excludes: seq<string>)
  {
    exists i, j :: 0 <= i < j < |cs| && cs[i].Name() == cs[j].Name() && cs[j].Name() !in excludes
  }

  /** A check that is not excluded, and is the first of its name, fails. */
  predicate HasFailure(cs: seq<Check>, probe: Probe, excludes: seq<string>)
  {
    exists i :: 0 <= i < |cs| && cs[i].Name() !in excludes && FirstOfName(cs, i) && !Pass(cs[i], probe)
  }

  /** The registry records exactly the names of the checks that are not
      excluded. */
  lemma {:induction false} RecordedNames(cs: seq<Check>, probe: Probe, excludes: seq<string>, k: string)
    ensures k in RunChecks(cs, probe, excludes).statuses
        <==> k !in excludes && exists i :: 0 <= i < |cs| && cs[i].Name() == k
    decreases |cs|
  {
    if cs != [] {
      var n := |cs| - 1;
      RecordedNames(cs[..n], probe, excludes, k);
      RecordedStep(cs, probe, excludes, k);
      CarriedSnoc(cs, k);
    }
  }

  /** Some check of cs carries the name k iff one before the last does, or
      the last does. */
  lemma CarriedSnoc(cs: seq<Check>, k: string)
    requires cs != []
    ensures var n := |cs| - 1;
      (exists i :: 0 <= i < |cs| && cs[i].Name() == k)
      <==> (exists i :: 0 <= i < n && cs[..n][i].Name() == k) || cs[n].Name() == k
  {
    SomeSnoc(cs, (c: Check) => c.Name() == k);
  }

  /** Some element of s satisfies p iff one before the last does, or the
      last does. */
  lemma SomeSnoc<T>(s: seq<T>, p: T -> bool)
    requires s != []
    ensures var n := |s| - 1;
      (exists i :: 0 <= i < |s| && p(s[i])) <==> (exists i :: 0 <= i < n && p(s[..n][i])) || p(s[n])
  {
    var n := |s| - 1;
    if exists i :: 0 <= i < n && p(s[..n][i]) {
      var i :| 0 <= i < n && p(s[..n][i]);
      assert s[i] == s[..n][i];
    }
    if exists i :: 0 <= i < |s| && p(s[i]) {
      var i :| 0 <= i < |s| && p(s[i]);
      if i < n {
        assert s[..n][i] == s[i];
      }
    }
  }

  /** One more check adds its own name, unless that name is excluded. */
  lemma RecordedStep(cs: seq<Check>, probe: Probe, excludes: seq<string>, k: string)
    requires cs != []
    ensures var n := |cs| - 1;
      k in RunChecks(cs, probe, excludes).statuses
      <==> k in RunChecks(cs[..n], probe, excludes).statuses || (k == cs[n].Name() && k !in excludes)
  {
    var n := |cs| - 1;
    assert RunChecks(cs, probe, excludes) == RunCheck(RunChecks(cs[..n], probe, excludes), cs[n], probe, excludes);
  }

  /** The entry of a name is the result of the first check of that name;
      later checks of the same name never overwrite it. */
  lemma {:induction false} FirstDecides(cs: seq<Check>, probe: Probe, excludes: seq<string>, i: int)
    requires 0 <= i < |cs| && cs[i].Name() !in excludes && FirstOfName(cs, i)
    ensures cs[i].Name() in RunChecks(cs, probe, excludes).statuses
    ensures RunChecks(cs, probe, excludes).statuses[cs[i].Name()] == Pass(cs[i], probe)
    decreases |cs|
  {
    var n := |cs| - 1;
    var prefix := cs[..n];
    if i < n {
      assert prefix[i] == cs[i];
      assert FirstOfName(prefix, i);
      FirstDecides(prefix, probe, excludes, i);
    } else {
      RecordedNames(prefix, probe, excludes, cs[i].Name());
    }
  }

  /** Some check before position n carries the name of check n. */
  predicate NameSeen(cs: seq<Check>, n: int)
    requires 0 <= n < |cs|
  {
    exists i :: 0 <= i < n && cs[i].Name() == cs[n].Name()
  }

  lemma ConflictSnoc(cs: seq<Check>, excludes: seq<string>)
    requires cs != []
    ensures var n := |cs| - 1;
      HasConflict(cs, excludes)
      <==> HasConflict(cs[..n], excludes) || (cs[n].Name() !in excludes && NameSeen(cs, n))
  {
    var n := |cs| - 1;
    if HasConflict(cs[..n], excludes) {
      ConflictInPrefix(cs, excludes);
    }
    if HasConflict(cs, excludes) {
      ConflictSplits(cs, excludes);
    }
    if cs[n].Name() !in excludes && NameSeen(cs, n) {
      var i :| 0 <= i < n && cs[i].Name() == cs[n].Name();
      assert cs[i].Name() == cs[n].Name() && cs[n].Name() !in excludes;
    }
  }

  lemma ConflictInPrefix(cs: seq<Check>, excludes: seq<string>)
    requires cs != [] && HasConflict(cs[..|cs| - 1], excludes)
    ensures HasConflict(cs, excludes)
  {
    var prefix := cs[..|cs| - 1];
    var i, j :| 0 <= i < j < |prefix| && prefix[i].Name() == prefix[j].Name() && prefix[j].Name() !in excludes;
    assert cs[i] == prefix[i] && cs[j] == prefix[j];
  }

  lemma ConflictSplits(cs: seq<Check>, excludes: seq<string>)
    requires cs != [] && HasConflict(cs, excludes)
    ensures var n := |cs| - 1;
      HasConflict(cs[..n], excludes) || (cs[n].Name() !in excludes && NameSeen(cs, n))
  {
    var n := |cs| - 1;
    var i, j :| 0 <= i < j < |cs| && cs[i].Name() == cs[j].Name() && cs[j].Name() !in excludes;
    if j < n {
      var prefix := cs[..n];
      assert prefix[i] == cs[i] && prefix[j] == cs[j];
    }
  }

  lemma FailureSnoc(cs: seq<Check>, probe: Probe, excludes: seq<string>)
    requires cs != []
    ensures var n := |cs| - 1;
      HasFailure(cs, probe, excludes)
      <==> HasFailure(cs[..n], probe, excludes) || (cs[n].Name() !in excludes && !NameSeen(cs, n) && !Pass(cs[n], probe))
  {
    var n := |cs| - 1;
    if HasFailure(cs[..n], probe, excludes) {
      FailureInPrefix(cs, probe, excludes);
    }
    if HasFailure(cs, probe, excludes) {
      FailureSplits(cs, probe, excludes);
    }
    FirstIsUnseen(cs);
  }

  lemma FailureInPrefix(cs: seq<Check>, probe: Probe, excludes: seq<string>)
    requires cs != [] && HasFailure(cs[..|cs| - 1], probe, excludes)
    ensures HasFailure(cs, probe, excludes)
  {
    var prefix := cs[..|cs| - 1];
    var i :| 0 <= i < |prefix| && prefix[i].Name() !in excludes && FirstOfName(prefix, i) && !Pass(prefix[i], probe);
    FirstOfNamePrefix(cs, i);
  }

  lemma FailureSplits(cs: seq<Check>, probe: Probe, excludes: seq<string>)
    requires cs != [] && HasFailure(cs, probe, excludes)
    ensures var n := |cs| - 1;
      HasFailure(cs[..n], probe, excludes) || (cs[n].Name() !in excludes && !NameSeen(cs, n) && !Pass(cs[n], probe))
  {
    var n := |cs| - 1;
    var i :| 0 <= i < |cs| && cs[i].Name() !in excludes && FirstOfName(cs, i) && !Pass(cs[i], probe);
    if i < n {
      FirstOfNamePrefix(cs, i);
      var prefix := cs[..n];
      assert prefix[i].Name() !in excludes && FirstOfName(prefix, i) && !Pass(prefix[i], probe);
    } else {
      FirstIsUnseen(cs);
    }
  }

  /** Whether check i is the first of its name does not depend on the
      checks after it. */
  lemma FirstOfNamePrefix(cs: seq<Check>, i: int)
    requires 0 <= i < |cs| - 1
    ensures cs[..|cs| - 1][i] == cs[i]
    ensures FirstOfName(cs[..|cs| - 1], i) <==> FirstOfName(cs, i)
  {
    var prefix := cs[..|cs| - 1];
    assert forall j :: 0 <= j <= i ==> prefix[j] == cs[j];
  }

  /** The last check is the first of its name iff no earlier check has it. */
  lemma FirstIsUnseen(cs: seq<Check>)
    requires cs != []
    ensures FirstOfName(cs, |cs| - 1) <==> !NameSeen(cs, |cs| - 1)
  {
  }

  /** The name of the last check is recorded by the checks before it exactly
      when an earlier check carries it and it is not excluded. */
  lemma SeenIsRecorded(cs: seq<Check>, probe: Probe, excludes: seq<string>)
    requires cs != []
    ensures var n := |cs| - 1;
      cs[n].Name() in RunChecks(cs[..n], probe, excludes).statuses
      <==> cs[n].Name() !in excludes && NameSeen(cs, n)
  {
    var n := |cs| - 1;
    var prefix := cs[..n];
    RecordedNames(prefix, probe, excludes, cs[n].Name());
    if NameSeen(cs, n) {
      var i :| 0 <= i < n && cs[i].Name() == cs[n].Name();
      assert prefix[i] == cs[i];
    }
  }

  /** A request errs exactly when two checks that are not excluded share a
      name, or when the first check of some name that is not excluded fails. */
  lemma {:induction false} ErrorIff(cs: seq<Check>, probe: Probe, excludes: seq<string>)
    ensures RunChecks(cs, probe, excludes).err.Some?
        <==> HasConflict(cs, excludes) || HasFailure(cs, probe, excludes)
    decreases |cs|
  {
    if cs != [] {
      ErrorIff(cs[..|cs| - 1], probe, excludes);
      ConflictSnoc(cs, excludes);
      FailureSnoc(cs, probe, excludes);
      SeenIsRecorded(cs, probe, excludes);
    }
  }

  /** Which error a request reports: a check failure only when some recorded
      check failed, a names conflict only when two checks that are not
      excluded share a name. So a request without a failure reports the
      conflict, and one without a conflict reports the failure. */
  lemma {:induction false} ErrorKind(cs: seq<Check>, probe: Probe, excludes: seq<string>)
    ensures var o := RunChecks(cs, probe, excludes);
      o.err == Some(HealthCheckFailed) ==> exists k :: k in o.statuses && !o.statuses[k]
    ensures RunChecks(cs, probe, excludes).err == Some(HealthCheckNamesConflict) ==> HasConflict(cs, excludes)
    decreases |cs|
  {
    if cs != [] {
      var n := |cs| - 1;
      var prev := RunChecks(cs[..n], probe, excludes);
      var o := RunChecks(cs, probe, excludes);
      ErrorKind(cs[..n], probe, excludes);
      ConflictSnoc(cs, excludes);
      SeenIsRecorded(cs, probe, excludes);
      if o.err == Some(HealthCheckFailed) {
        if prev.err.Some? {
          var k :| k in prev.statuses && !prev.statuses[k];
          assert k in o.statuses && !o.statuses[k];
        } else {
          assert cs[n].Name() in o.statuses && !o.statuses[cs[n].Name()];
        }
      }
    }
  }

  /** The checks whose names are not excluded, in order. */
  function Kept(cs: seq<Check>, excludes: seq<string>): (r: seq<Check>)
    ensures forall i :: 0 <= i < |r| ==> r[i].Name() !in excludes
    decreases |cs|
  {
    if cs == [] then []
    else
      var rest := Kept(cs[..|cs| - 1], excludes);
      if cs[|cs| - 1].Name() in excludes then rest else rest + [cs[|cs| - 1]]
  }

  /** Excluding a name is the same as removing its checks from the list:
      an excluded check neither runs, nor is recorded, nor makes the request
      fail. */
  lemma {:induction false} ExcludedAreRemoved(cs: seq<Check>, probe: Probe, excludes: seq<string>)
    ensures RunChecks(cs, probe, excludes) == RunChecks(Kept(cs, excludes), probe, [])
    decreases |cs|
  {
    if cs != [] {
      var n := |cs| - 1;
      ExcludedAreRemoved(cs[..n], probe, excludes);
      var rest := Kept(cs[..n], excludes);
      if cs[n].Name() !in excludes {
        assert (rest + [cs[n]])[..|rest|] == rest;
      }
    }
  }

  /** Two checks with the same name, neither excluded, always give 503, even
      when both pass. */
  lemma DuplicateNamesFail(conf: HandlerConfig, probe: Probe, verboseQ: Option<string>, excludesQ: Option<string>)
    requires HasConflict(conf.checks, EffectiveExcludes(conf, excludesQ))
    ensures Respond(conf, probe, verboseQ, excludesQ).0 == StatusServiceUnavailable
  {
    ErrorIff(conf.checks, probe, EffectiveExcludes(conf, excludesQ));
  }

  /** The status is 200 exactly when no names clash and every recorded
      check passed. */
  lemma StatusOKIff(conf: HandlerConfig, probe: Probe, verboseQ: Option<string>, excludesQ: Option<string>)
    ensures var o := RunChecks(conf.checks, probe, EffectiveExcludes(conf, excludesQ));
      Respond(conf, probe, verboseQ, excludesQ).0 == StatusOK
      <==> !HasConflict(conf.checks, EffectiveExcludes(conf, excludesQ)) && forall k :: k in o.statuses ==> o.statuses[k]
  {
    var cs := conf.checks;
    var ex := EffectiveExcludes(conf, excludesQ);
    var o := RunChecks(cs, probe, ex);
    ErrorIff(cs, probe, ex);
    if HasFailure(cs, probe, ex) {
      var i :| 0 <= i < |cs| && cs[i].Name() !in ex && FirstOfName(cs, i) && !Pass(cs[i], probe);
      FirstDecides(cs, probe, ex, i);
    }
    if !HasFailure(cs, probe, ex) {
      forall k | k in o.statuses
        ensures o.statuses[k]
      {
        RecordedNames(cs, probe, ex, k);
        var i :| 0 <= i < |cs| && cs[i].Name() == k;
        var f := FirstIndex(cs, i);
        FirstDecides(cs, probe, ex, f);
      }
    }
  }

  /** The index of the first check that has the name of check i. */
  function FirstIndex(cs: seq<Check>, i: int): (f: int)
    requires 0 <= i < |cs|
    ensures 0 <= f <= i && cs[f].Name() == cs[i].Name() && FirstOfName(cs, f)
    decreases i
  {
    if FirstOfName(cs, i) then i
    else
      var j :| 0 <= j < i && cs[j].Name() == cs[i].Name();
      FirstIndex(cs, j)
  }

  // ---------------------------------------------------------------------
  // The failure streak

  /** What a request sends on the notification channel. */
  datatype Signal = Quiet | Alert(err: HealthError) | Recovered

  /** The values a signal puts on the channel: an error, or nil. */
  function Notifications(signals: seq<Signal>): seq<Option<HealthError>>
    decreases |signals|
  {
    if signals == [] then []
    else
      var rest := Notifications(signals[..|signals| - 1]);
      match signals[|signals| - 1]
      case Quiet => rest
      case Alert(e) => rest + [Some(e)]
      case Recovered => rest + [None]
  }

  lemma NotificationsSnoc(signals: seq<Signal>, sig: Signal)
    ensures Notifications(signals + [sig]) == Notifications(signals) + Notifications([sig])
  {
    assert (signals + [sig])[..|signals|] == signals;
    assert [sig][..0] == [];
  }

  /** uint32 increment, wrapping at 2^32. */
  function Inc(x: Uint32): (r: Uint32)
    ensures x < Uint32Range - 1 ==> r == x + 1
    ensures x == Uint32Range - 1 ==> r == 0
  {
    (x + 1) % Uint32Range
  }

  /** The streak after a request that ended with err, and the signal sent. */
  function Transition(fn: FailureNotification, streak: Uint32, err: Option<HealthError>): (r: (Uint32, Signal))
    ensures err.Some? ==> r.0 == Inc(streak)
    ensures r.1.Alert? <==> err.Some? && r.0 >= fn.threshold && fn.hasChan
    ensures r.1.Alert? ==> Some(r.1.err) == err
    ensures r.1 == Recovered <==> err.None? && streak != 0 && fn.hasChan
    ensures r.1 == Recovered ==> r.0 == 0
    ensures err.None? && r.1 != Recovered ==> r.0 == streak
  {
    if err.Some? then
      var s := Inc(streak);
      (s, if s >= fn.threshold && fn.hasChan then Alert(err.value) else Quiet)
    else if streak != 0 && fn.hasChan then (0, Recovered)
    else (streak, Quiet)
  }

  /** The streak after a history of request outcomes, from a fresh handler,
      with the signal of each request. */
  function Replay(fn: FailureNotification, history: seq<Option<HealthError>>): (r: (Uint32, seq<Signal>))
    ensures |r.1| == |history|
    decreases |history|
  {
    if history == [] then (0, [])
    else
      var (streak, signals) := Replay(fn, history[..|history| - 1]);
      var (s, sig) := Transition(fn, streak, history[|history| - 1]);
      (s, signals + [sig])
  }

  /** The number of failed requests at the end of the history. */
  function TrailingFailures(history: seq<Option<HealthError>>): (n: nat)
    ensures n <= |history|
    decreases |history|
  {
    if history == [] || history[|history| - 1].None? then 0
    else TrailingFailures(history[..|history| - 1]) + 1
  }

  /** The number of failed requests in the history. */
  function FailureCount(history: seq<Option<HealthError>>): (n: nat)
    ensures n <= |history|
    decreases |history|
  {
    if history == [] then 0
    else FailureCount(history[..|history| - 1]) + (if history[|history| - 1].Some? then 1 else 0)
  }

  /** The signal request i of the history sends when a channel exists: its
      error once the run of failures ending there reaches the threshold, nil
      on the first success after a failure, nothing otherwise. */
  function ExpectedSignal(fn: FailureNotification, history: seq<Option<HealthError>>, i: int): Signal
    requires 0 <= i < |history|
  {
    if history[i].Some? then
      (if TrailingFailures(history[..i + 1]) >= fn.threshold then Alert(history[i].value) else Quiet)
    else if i > 0 && history[i - 1].Some? then Recovered
    else Quiet
  }

  /** With a channel, and fewer than 2^32 requests, the streak counts the
      failures since the last success, and every request sends exactly its
      expected signal. */
  lemma {:induction false} ReplayWithChannel(fn: FailureNotification, history: seq<Option<HealthError>>)
    requires fn.hasChan && |history| < Uint32Range
    ensures Replay(fn, history).0 == TrailingFailures(history)
    ensures forall i :: 0 <= i < |history| ==> Replay(fn, history).1[i] == ExpectedSignal(fn, history, i)
    decreases |history|
  {
    if history != [] {
      var n := |history| - 1;
      var prefix := history[..n];
      ReplayWithChannel(fn, prefix);
      var signals := Replay(fn, history).1;
      forall i | 0 <= i < |history|
        ensures signals[i] == ExpectedSignal(fn, history, i)
      {
        if i < n {
          assert history[..i + 1] == prefix[..i + 1];
          assert ExpectedSignal(fn, history, i) == ExpectedSignal(fn, prefix, i);
        } else {
          assert history[..i + 1] == history;
          if n > 0 {
            assert TrailingFailures(prefix) != 0 <==> prefix[n - 1].Some?;
          }
        }
      }
    }
  }

  /** Without a channel nothing is ever sent, and the streak is never reset:
      it counts every failed request, modulo 2^32. */
  lemma {:induction false} ReplayWithoutChannel(fn: FailureNotification, history: seq<Option<HealthError>>)
    requires !fn.hasChan
    ensures Replay(fn, history).0 == FailureCount(history) % Uint32Range
    ensures forall i :: 0 <= i < |history| ==> Replay(fn, history).1[i] == Quiet
    decreases |history|
  {
    if history != [] {
      ReplayWithoutChannel(fn, history[..|history| - 1]);
    }
  }

  /** With threshold 3: two failures send nothing, the third sends its error,
      the next success sends nil. */
  lemma ThresholdThree(e: HealthError)
    ensures var fn := FailureNotification(3, true);
      Replay(fn, [Some(e), Some(e), Some(e), None]) == (0, [Quiet, Quiet, Alert(e), Recovered])
  {
    var fn := FailureNotification(3, true);
    var h1 := [Some(e)];
    var h2 := h1 + [Some(e)];
    var h3 := h2 + [Some(e)];
    var h4 := h3 + [None];
    ReplaySnoc(fn, [], Some(e));
    assert [] + [Some(e)] == h1;
    assert Replay(fn, h1).0 == 1 && Replay(fn, h1).1 == [] + [Quiet] == [Quiet];
    ReplaySnoc(fn, h1, Some(e));
    assert Replay(fn, h2).0 == 2 && Replay(fn, h2).1 == [Quiet] + [Quiet] == [Quiet, Quiet];
    ReplaySnoc(fn, h2, Some(e));
    assert Replay(fn, h3).0 == 3 && Replay(fn, h3).1 == [Quiet, Quiet] + [Alert(e)] == [Quiet, Quiet, Alert(e)];
    ReplaySnoc(fn, h3, None);
    assert Replay(fn, h4).0 == 0 && Replay(fn, h4).1 == [Quiet, Quiet, Alert(e)] + [Recovered] == [Quiet, Quiet, Alert(e), Recovered];
    assert h4 == [Some(e), Some(e), Some(e), None];
  }

  lemma ReplaySnoc(fn: FailureNotification, history: seq<Option<HealthError>>, err: Option<HealthError>)
    ensures var (streak, signal) := Transition(fn, Replay(fn, history).0, err);
      Replay(fn, history + [err]) == (streak, Replay(fn, history).1 + [signal])
  {
    assert (history + [err])[..|history|] == history;
  }

  // ---------------------------------------------------------------------
  // The handler

  /** The closure NewHandler returns, with the state it captures. */
  class Handler {
    const conf: HandlerConfig
    /** Requests failed in a row (handler.go's failureInARow). */
    var failureInARow: Uint32
    /** Everything sent on conf's notification channel, in order. */
    var sent: seq<Option<HealthError>>
    /** The outcome of every request served so far. */
    ghost var history: seq<Option<HealthError>>

    /** The streak and the channel are those the history produces. */
    ghost predicate Valid()
      reads this
    {
      var (streak, signals) := Replay(conf.failureNotification, history);
      failureInARow == streak && sent == Notifications(signals)
    }

    /** NewHandler(conf). */
    constructor (conf: HandlerConfig)
      ensures this.conf == conf
      ensures failureInARow == 0 && sent == [] && history == []
      ensures Valid()
    {
      this.conf := conf;
      failureInARow := 0;
      sent := [];
      history := [];
    }

    /** Serves one request. verboseQ and excludesQ are the values of the
        query keys, None when absent; probe gives what each I/O-backed
        check finds now. */
    method HandleRequest(probe: Probe, verboseQ: Option<string>, excludesQ: Option<string>)
      returns (status: int, body: string)
      requires Valid()
      modifies this
      ensures Valid()
      ensures (status, body) == Respond(conf, probe, verboseQ, excludesQ)
      ensures var err := RunChecks(conf.checks, probe, EffectiveExcludes(conf, excludesQ)).err;
        var (streak, signal) := Transition(conf.failureNotification, old(failureInARow), err);
        && history == old(history) + [err]
        && failureInARow == streak
        && sent == old(sent) + Notifications([signal])
    {
      var verbose := conf.verbose;
      var excludes := conf.excludes;
      if verboseQ.Some? {
        verbose := true;
      }
      if excludesQ.Some? {
        excludes := Split(excludesQ.value, ',');
      }

      var statuses, err := RunAll(conf.checks, probe, excludes);
      status := if err.Some? then StatusServiceUnavailable else StatusOK;
      Record(err);
      body := statuses.String(verbose);
    }

    /** The locked section after the checks: counts the request into the
        streak and notifies. */
    method Record(err: Option<HealthError>)
      requires Valid()
      modifies this
      ensures Valid()
      ensures var (streak, signal) := Transition(conf.failureNotification, old(failureInARow), err);
        && history == old(history) + [err]
        && failureInARow == streak
        && sent == old(sent) + Notifications([signal])
    {
      var signal := Quiet;
      if err.Some? {
        failureInARow := Inc(failureInARow);
        if failureInARow >= conf.failureNotification.threshold && conf.failureNotification.hasChan {
          sent := sent + [err];
          signal := Alert(err.value);
        }
      } else if failureInARow != 0 && conf.failureNotification.hasChan {
        failureInARow := 0;
        sent := sent + [None];
        signal := Recovered;
      }
      assert (history + [err])[..|history|] == history;
      NotificationsSnoc(Replay(conf.failureNotification, history).1, signal);
      history := history + [err];
    }

    /** The loop over conf.Checks: each check into a fresh registry. */
    static method RunAll(cs: seq<Check>, probe: Probe, excludes: seq<string>)
      returns (statuses: CheckStatuses, err: Option<HealthError>)
      ensures fresh(statuses)
      ensures Outcome(statuses.m, err) == RunChecks(cs, probe, excludes)
    {
      statuses := new CheckStatuses(|cs|);
      err := None;
      for i := 0 to |cs|
        invariant Outcome(statuses.m, err) == RunChecks(cs[..i], probe, excludes)
      {
        assert cs[..i + 1][..i] == cs[..i];
        var check := cs[i];
        var name := check.Name();
        var excluded := Excluded(excludes, name);
        if !excluded {
          var recorded, existed := statuses.Get(name);
          if existed {
            err := FirstError(err, HealthCheckNamesConflict);
          } else {
            var pass := Pass(check, probe);
            statuses.Set(name, pass);
            if !pass {
              err := FirstError(err, HealthCheckFailed);
            }
          }
        }
      }
      assert cs[..|cs|] == cs;
    }

    /** The scan of the exclusion list for a check's name. */
    static method Excluded(excludes: seq<string>, name: string) returns (found: bool)
      ensures found <==> name in excludes
    {
      found := false;
      if |excludes| > 0 {
        var j := 0;
        while j < |excludes|
          invariant 0 <= j <= |excludes|
          invariant name !in excludes[..j]
        {
          if excludes[j] == name {
            return true;
          }
          j := j + 1;
        }
        assert excludes[..j] == excludes;
      }
    }
  }
}
