/**
 * Reading a verbose health-check body back. The parser is the inverse of
 * CheckStatuses.String(true): it recovers the registry's contents and the
 * overall verdict, which shows that the verbose body reports every entry,
 * with its result, and nothing else.
 */
module VerboseReport {
  import opened Wrappers
  import opened GoStrings
  import opened Checks

  /** The lines of the verbose body of m, without their newlines. */
  ghost function ReportLines(m: map<string, bool>): seq<string>
  {
    Entries(SortedKeys(Passed(m)), true) + Entries(SortedKeys(Failed(m)), false) + [Summary(Failed(m) == {})]
  }

  /** The line opens with the mark and closes with the verdict of a
      passed (pass) or a failed (!pass) check. */
  predicate IsEntry(line: string, pass: bool)
  {
    && |line| >= |Mark(pass)| + |Verdict(pass)|
    && line[..|Mark(pass)|] == Mark(pass)
    && line[|line| - |Verdict(pass)|..] == Verdict(pass)
  }

  /** The name between the mark and the verdict. */
  function EntryName(line: string, pass: bool): string
    requires IsEntry(line, pass)
  {
    line[|Mark(pass)|..|line| - |Verdict(pass)|]
  }

  /** Reads one line of a verbose body back into a name and its result. */
  function ParseEntry(line: string): Option<(string, bool)>
  {
    if IsEntry(line, true) then Some((EntryName(line, true), true))
    else if IsEntry(line, false) then Some((EntryName(line, false), false))
    else None
  }

  /** The map the lines describe, later lines winning. */
  function Collect(lines: seq<string>): map<string, bool>
    decreases |lines|
  {
    if lines == [] then map[]
    else
      var acc := Collect(lines[..|lines| - 1]);
      match ParseEntry(lines[|lines| - 1])
      case Some((name, pass)) => acc[name := pass]
      case None => acc
  }

  /** The registry contents a verbose body reports, and whether its summary
      line says the health check passed. */
  function Parse(body: string): (map<string, bool>, bool)
  {
    var lines := Split(body, '\n');
    (Collect(lines[..|lines| - 1]), lines[|lines| - 1] == Summary(true))
  }

  // ---------------------------------------------------------------------
  // Lemmas

  lemma ParseEntryOfEntry(name: string, pass: bool)
    ensures ParseEntry(Entry(name, pass)) == Some((name, pass))
  {
    var line := Entry(name, pass);
    assert line[..|Mark(pass)|] == Mark(pass);
    assert line[|line| - |Verdict(pass)|..] == Verdict(pass);
    assert EntryName(line, pass) == name;
    if !pass {
      assert line[1] == '-';
      assert !IsEntry(line, true);
    }
  }

  lemma EntryHasNoNewline(name: string, pass: bool)
    requires '\n' !in name
    ensures '\n' !in Entry(name, pass)
  {
  }

  lemma {:induction false} EntriesAt(names: seq<string>, pass: bool, i: nat)
    requires i < |names|
    ensures Entries(names, pass)[i] == Entry(names[i], pass)
    decreases |names|
  {
    if i < |names| - 1 {
      EntriesAt(names[..|names| - 1], pass, i);
    }
  }

  lemma {:induction false} TerminatedConcat(a: seq<string>, b: seq<string>)
    ensures Terminated(a) + Terminated(b) == Terminated(a + b)
    decreases |b|
  {
    if b != [] {
      var n := |b| - 1;
      assert (a + b)[..|a + b| - 1] == a + b[..n];
      TerminatedConcat(a, b[..n]);
    } else {
      assert a + b == a;
    }
  }

  lemma {:induction false} JoinSnoc(lines: seq<string>, last: string, sep: char)
    requires |lines| >= 1
    ensures Join(lines + [last], sep) == Join(lines, sep) + [sep] + last
    decreases |lines|
  {
    if |lines| > 1 {
      assert (lines + [last])[1..] == lines[1..] + [last];
      JoinSnoc(lines[1..], last, sep);
    }
  }

  lemma {:induction false} TerminatedJoin(lines: seq<string>, last: string)
    ensures Terminated(lines) + last == Join(lines + [last], '\n')
    decreases |lines|
  {
    if lines != [] {
      var n := |lines| - 1;
      TerminatedJoin(lines[..n], lines[n]);
      assert lines[..n] + [lines[n]] == lines;
      JoinSnoc(lines, last, '\n');
    }
  }

  lemma {:induction false} CollectConcat(a: seq<string>, b: seq<string>)
    ensures Collect(a + b) == Collect(a) + Collect(b)
    decreases |b|
  {
    if b == [] {
      assert a + b == a;
    } else {
      var n := |b| - 1;
      assert (a + b)[..|a + b| - 1] == a + b[..n];
      CollectConcat(a, b[..n]);
    }
  }

  lemma CollectEntryStep(lines: seq<string>, name: string, pass: bool)
    ensures Collect(lines + [Entry(name, pass)]) == Collect(lines)[name := pass]
  {
    assert (lines + [Entry(name, pass)])[..|lines|] == lines;
    ParseEntryOfEntry(name, pass);
  }

  lemma {:induction false} CollectEntries(names: seq<string>, pass: bool)
    ensures forall k :: k in Collect(Entries(names, pass)) <==> k in names
    ensures forall k :: k in Collect(Entries(names, pass)) ==> Collect(Entries(names, pass))[k] == pass
    decreases |names|
  {
    if names != [] {
      var n := |names| - 1;
      assert names == names[..n] + [names[n]];
      CollectEntries(names[..n], pass);
      CollectEntryStep(Entries(names[..n], pass), names[n], pass);
    }
  }

  /** No line of the verbose body of m holds a newline when no name does. */
  lemma LinesHaveNoNewline(m: map<string, bool>)
    requires forall k :: k in m ==> '\n' !in k
    ensures forall i :: 0 <= i < |ReportLines(m)| ==> '\n' !in ReportLines(m)[i]
  {
    var a := Entries(SortedKeys(Passed(m)), true);
    var b := Entries(SortedKeys(Failed(m)), false);
    EntriesHaveNoNewline(m, Passed(m), true);
    EntriesHaveNoNewline(m, Failed(m), false);
    SummaryHasNoNewline(Failed(m) == {});
    assert ReportLines(m) == a + b + [Summary(Failed(m) == {})];
  }

  lemma SummaryHasNoNewline(pass: bool)
    ensures '\n' !in Summary(pass)
  {
  }

  /** The entry lines of a subset of m's names hold no newline when no name
      does. */
  lemma EntriesHaveNoNewline(m: map<string, bool>, names: set<string>, pass: bool)
    requires forall k :: k in m ==> '\n' !in k
    requires forall k :: k in names ==> k in m
    ensures forall i :: 0 <= i < |Entries(SortedKeys(names), pass)| ==> '\n' !in Entries(SortedKeys(names), pass)[i]
  {
    var sorted := SortedKeys(names);
    forall i | 0 <= i < |Entries(sorted, pass)|
      ensures '\n' !in Entries(sorted, pass)[i]
    {
      EntriesAt(sorted, pass, i);
      SortedKeysHas(names, sorted[i]);
      EntryHasNoNewline(sorted[i], pass);
    }
  }

  /** The verbose body is its report lines joined by newlines. */
  lemma RenderIsJoin(m: map<string, bool>)
    ensures Render(m, true) == Join(ReportLines(m), '\n')
  {
    var a := Entries(SortedKeys(Passed(m)), true);
    var b := Entries(SortedKeys(Failed(m)), false);
    assert Failed(m) == {} <==> SortedKeys(Failed(m)) == [] by {
      SortedKeysSize(Failed(m));
    }
    TerminatedConcat(a, b);
    TerminatedJoin(a + b, Summary(Failed(m) == {}));
  }

  /** When no check name holds a newline, the verbose body has one line per
      stored check plus the summary line: Len() + 1 lines. */
  lemma VerboseLines(m: map<string, bool>)
    requires forall k :: k in m ==> '\n' !in k
    ensures Split(Render(m, true), '\n') == ReportLines(m)
    ensures |Split(Render(m, true), '\n')| == |m| + 1
  {
    RenderIsJoin(m);
    LinesHaveNoNewline(m);
    SplitJoin(ReportLines(m), '\n');
    ReportLinesCount(m);
  }

  /** One line per stored check, plus the summary. */
  lemma ReportLinesCount(m: map<string, bool>)
    ensures |ReportLines(m)| == |m| + 1
  {
    SortedKeysSize(Passed(m));
    SortedKeysSize(Failed(m));
    assert Passed(m) + Failed(m) == m.Keys;
    assert Passed(m) * Failed(m) == {};
  }

  lemma SummariesDiffer()
    ensures Summary(true) != Summary(false)
  {
    assert Summary(true)[13] != Summary(false)[13];
  }

  /** The entry lines of the verbose body of m describe exactly m. */
  lemma CollectReport(m: map<string, bool>)
    ensures Collect(Entries(SortedKeys(Passed(m)), true) + Entries(SortedKeys(Failed(m)), false)) == m
  {
    var a := Entries(SortedKeys(Passed(m)), true);
    var b := Entries(SortedKeys(Failed(m)), false);
    CollectConcat(a, b);
    var got := Collect(a) + Collect(b);
    forall k | true
      ensures k in got <==> k in m
      ensures k in m ==> got[k] == m[k]
    {
      CollectReportAt(m, k);
    }
    assert got == m;
  }

  /** Name by name: the passed entries and then the failed entries of m
      collect to m's value for k. */
  lemma CollectReportAt(m: map<string, bool>, k: string)
    ensures var got := Collect(Entries(SortedKeys(Passed(m)), true)) + Collect(Entries(SortedKeys(Failed(m)), false));
      && (k in got <==> k in m)
      && (k in m ==> got[k] == m[k])
  {
    CollectEntries(SortedKeys(Passed(m)), true);
    CollectEntries(SortedKeys(Failed(m)), false);
    SortedKeysHas(Passed(m), k);
    SortedKeysHas(Failed(m), k);
  }

  lemma ParseReport(body: string, m: map<string, bool>)
    requires Split(body, '\n') == ReportLines(m)
    ensures Parse(body) == (m, Failed(m) == {})
  {
    var lines := ReportLines(m);
    assert lines[..|lines| - 1] == Entries(SortedKeys(Passed(m)), true) + Entries(SortedKeys(Failed(m)), false);
    CollectReport(m);
    SummariesDiffer();
  }

  /** Round trip: the verbose body of a registry reads back as exactly that
      registry, with the summary telling whether every check passed. */
  lemma ParseRender(m: map<string, bool>)
    requires forall k :: k in m ==> '\n' !in k
    ensures Parse(Render(m, true)) == (m, forall k :: k in m ==> m[k])
  {
    VerboseLines(m);
    ParseReport(Render(m, true), m);
    if Failed(m) != {} {
      var k :| k in Failed(m);
      assert k in m && !m[k];
    } else {
      forall k | k in m
        ensures m[k]
      {
        assert k !in Failed(m);
      }
    }
  }
}
