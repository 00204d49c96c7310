/**
 * The documented examples (example_test.go): whole requests against the
 * default handlers, from configuration to status and body.
 */
module Scenarios {
  import opened Wrappers
  import opened Errors
  import opened GoStrings
  import opened Checks
  import opened HealthConfig
  import opened Handlers

  lemma TerminatedOne(line: string)
    ensures Terminated([line]) == line + "\n"
  {
    assert [line][..0] == [];
    assert [] + line == line;
  }

  /** The verbose body of a registry holding one passed check. */
  lemma VerboseOnePassed(p: string)
    ensures Render(map[p := true], true) == Entry(p, true) + "\n" + Summary(true)
  {
    var m := map[p := true];
    assert Passed(m) == {p};
    assert Failed(m) == {};
    SortedKeysSingleton(p);
    assert SortedKeys({}) == [];
    assert Entries([p], true) == [Entry(p, true)] by {
      assert [p][..0] == [];
    }
    TerminatedOne(Entry(p, true));
  }

  /** The verbose body of a registry holding one passed and one failed check. */
  lemma VerbosePassedFailed(p: string, f: string)
    requires p != f
    ensures Render(map[p := true, f := false], true)
      == Entry(p, true) + "\n" + (Entry(f, false) + "\n") + Summary(false)
  {
    var m := map[p := true, f := false];
    assert Passed(m) == {p};
    assert Failed(m) == {f};
    SortedKeysSingleton(p);
    SortedKeysSingleton(f);
    assert Entries([p], true) == [Entry(p, true)] by {
      assert [p][..0] == [];
    }
    assert Entries([f], false) == [Entry(f, false)] by {
      assert [f][..0] == [];
    }
    TerminatedOne(Entry(p, true));
    TerminatedOne(Entry(f, false));
  }

  /** The text of the ping line followed by the passing summary. */
  lemma PingPassedText()
    ensures Entry("Ping", true) + "\n" + Summary(true) == "[+] Ping ok\nhealth check passed"
  {
  }

  /** The text of the ping line, the failed DB_HOST line and the failing
      summary. */
  lemma PingEnvText()
    ensures Entry("Ping", true) + "\n" + (Entry("Env-DB_HOST", false) + "\n") + Summary(false)
      == "[+] Ping ok\n[-] Env-DB_HOST fail\nhealth check failed"
  {
    PingLine();
    EnvLine();
    assert Summary(false) == "health check failed";
    PingEnvLines();
    PingEnvFailed();
  }

  lemma PingEnvLines()
    ensures "[+] Ping ok\n" + "[-] Env-DB_HOST fail\n" == "[+] Ping ok\n[-] Env-DB_HOST fail\n"
  {
  }

  lemma PingEnvFailed()
    ensures "[+] Ping ok\n[-] Env-DB_HOST fail\n" + "health check failed"
      == "[+] Ping ok\n[-] Env-DB_HOST fail\nhealth check failed"
  {
  }

  lemma PingLine()
    ensures Entry("Ping", true) + "\n" == "[+] Ping ok\n"
  {
  }

  lemma EnvLine()
    ensures Entry("Env-DB_HOST", false) + "\n" == "[-] Env-DB_HOST fail\n"
  {
  }

  /** Register, then GET /healthz: 200 "OK". */
  lemma DefaultHandler(probe: Probe)
    ensures Respond(NewDefaultConfig().handlerConfig, probe, None, None) == (200, "OK")
  {
    var o := RunChecks([Ping], probe, []);
    assert [Ping][..0] == [];
    assert o.statuses == map["Ping" := true] && o.err == None;
    assert Failed(o.statuses) == {};
  }

  /** The default configuration made verbose: 200 with the ping line. */
  lemma VerboseDefaultHandler(probe: Probe)
    ensures var conf := NewDefaultConfig().handlerConfig.(verbose := true);
      Respond(conf, probe, None, None) == (200, "[+] Ping ok\nhealth check passed")
  {
    var o := RunChecks([Ping], probe, []);
    assert [Ping][..0] == [];
    assert o.statuses == map["Ping" := true] && o.err == None;
    VerboseOnePassed("Ping");
    PingPassedText();
  }

  /** /readyz?verbose with the ping check and an environment check whose
      variable is unset: 503, the ping line, then the failed line. */
  lemma ReadyzVerbose(probe: Probe)
    requires !probe(Env("DB_HOST"))
    ensures var conf := NewDefaultHandlerConfigFor([Ping, Env("DB_HOST")]);
      Respond(conf, probe, Some(""), None)
      == (503, "[+] Ping ok\n[-] Env-DB_HOST fail\nhealth check failed")
  {
    ReadyzRun(probe);
    VerbosePassedFailed("Ping", "Env-DB_HOST");
    PingEnvText();
  }

  /** The environment check of DB_HOST is named Env-DB_HOST. */
  lemma EnvName()
    ensures Env("DB_HOST").Name() == "Env-DB_HOST"
  {
    assert "Env-" + "DB_HOST" == "Env-DB_HOST";
  }

  /** With DB_HOST unset, the readyz checks record a passed ping and a
      failed DB_HOST check, and fail. */
  lemma ReadyzRun(probe: Probe)
    requires !probe(Env("DB_HOST"))
    ensures RunChecks([Ping, Env("DB_HOST")], probe, [])
      == Outcome(map["Ping" := true, "Env-DB_HOST" := false], Some(HealthCheckFailed))
  {
    var cs := [Ping, Env("DB_HOST")];
    EnvName();
    assert cs[..1] == [Ping] && [Ping][..0] == [];
  }

  /** The excludes query "Env-DB_HOST" names that one check. */
  lemma ExcludesQuery(conf: HandlerConfig)
    ensures EffectiveExcludes(conf, Some("Env-DB_HOST")) == ["Env-DB_HOST"]
  {
    SplitPiece("Env-DB_HOST", ',');
  }

  /** With DB_HOST excluded, the readyz handler runs the ping check alone. */
  lemma ReadyzWithout(probe: Probe, ex: seq<string>)
    requires ex == ["Env-DB_HOST"]
    ensures RunChecks([Ping, Env("DB_HOST")], probe, ex) == Outcome(map["Ping" := true], None)
  {
    var cs := [Ping, Env("DB_HOST")];
    EnvName();
    assert cs[..1] == [Ping] && [Ping][..0] == [];
  }

  /** /readyz?verbose&excludes=Env-DB_HOST: the failing check is skipped,
      so 200 with the ping line only. */
  lemma ReadyzExcluded(probe: Probe)
    requires !probe(Env("DB_HOST"))
    ensures var conf := NewDefaultHandlerConfigFor([Ping, Env("DB_HOST")]);
      Respond(conf, probe, Some(""), Some("Env-DB_HOST"))
      == (200, "[+] Ping ok\nhealth check passed")
  {
    var conf := NewDefaultHandlerConfigFor([Ping, Env("DB_HOST")]);
    ExcludesQuery(conf);
    ReadyzWithout(probe, EffectiveExcludes(conf, Some("Env-DB_HOST")));
    VerboseOnePassed("Ping");
    PingPassedText();
  }

  /** Two passing checks under one name: 503 although the body says OK. */
  lemma DuplicatePassingChecks(probe: Probe)
    ensures Respond(NewDefaultHandlerConfigFor([Ping, Ping]), probe, None, None) == (503, "OK")
  {
    var cs := [Ping, Ping];
    assert cs[..1] == [Ping] && [Ping][..0] == [];
    var o := RunChecks(cs, probe, []);
    assert o.statuses == map["Ping" := true] && o.err.Some?;
    assert Failed(o.statuses) == {};
  }
}
