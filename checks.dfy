/**
 * The `checks` package: the checks themselves (ping_check.go and the names of
 * the other built-in checks) and the check-status registry of check.go with
 * its text rendering.
 */
module Checks {
  import opened GoStrings

  /** A health check. Every check but Ping performs I/O in its Pass; the
      model gets the result of that I/O from a Probe. Custom stands for a
      check implementation supplied by the library's user. A check keeps
      only the fields its name is made of: the environment check's regex,
      the SQL check's database handle and the custom ping's HTTP method,
      headers and timeout are not fields, so Go checks that differ only in
      those are one value here. */
  datatype Check =
    | Ping                      // checks/ping_check.go
    | Env(variable: string)     // checks/env_check.go
    | Sql                       // checks/sql_check.go
    | CustomPing(url: string)   // checks/custom_ping_check.go
    | Custom(checkName: string)
  {
    /** The check's Name method: the key of its status entry. */
    function Name(): (n: string)
      ensures this.Ping? ==> n == "Ping"
      ensures this.Sql? ==> n == "Mysql"
      ensures this.Env? ==> n == "Env-" + variable
      ensures this.CustomPing? ==> n == "Ping-" + url
      ensures this.Custom? ==> n == checkName
    {
      match this
      case Ping => "Ping"
      case Env(variable) => "Env-" + variable
      case Sql => "Mysql"
      case CustomPing(url) => "Ping-" + url
      case Custom(checkName) => checkName
    }
  }

  /** What each I/O-backed check's Pass would return at this moment. */
  type Probe = Check -> bool

  /** The check's Pass method. */
  function Pass(c: Check, probe: Probe): (pass: bool)
    ensures c.Ping? ==> pass
    ensures !c.Ping? ==> pass == probe(c)
  {
    if c.Ping? then true else probe(c)
  }

  /** Two built-in checks share a name, and so conflict in one handler,
      exactly when they are of the same kind and, for Env and CustomPing,
      have the same variable or URL. */
  lemma {:induction false} BuiltinNamesClash(c: Check, d: Check)
    requires !c.Custom? && !d.Custom?
    ensures c.Name() == d.Name() <==> c == d
  {
    var n, k := c.Name(), d.Name();
    if n == k {
      if c.Env? && d.Env? {
        assert c.variable == n[4..] == k[4..] == d.variable;
      } else if c.CustomPing? && d.CustomPing? {
        assert c.url == n[5..] == k[5..] == d.url;
      } else {
        assert n[0] == k[0] && |n| == |k|;
      }
    }
  }

  /** The ping check always passes and is always named "Ping", whatever the
      state of the world. */
  lemma PingCheck(probe: Probe)
    ensures Pass(Ping, probe)
    ensures Ping.Name() == "Ping"
  {
  }

  // ---------------------------------------------------------------------
  // Rendering, as a function of the registry's contents

  /** The names whose check passed. */
  function Passed(m: map<string, bool>): set<string>
  {
    set k | k in m && m[k]
  }

  /** The names whose check failed. */
  function Failed(m: map<string, bool>): set<string>
  {
    set k | k in m && !m[k]
  }

  /** The mark that opens a report line. */
  function Mark(pass: bool): string
  {
    if pass then "[+] " else "[-] "
  }

  /** The word that closes a report line. */
  function Verdict(pass: bool): string
  {
    if pass then " ok" else " fail"
  }

  /** One line of the verbose report, without its newline. */
  function Entry(name: string, pass: bool): string
  {
    Mark(pass) + name + Verdict(pass)
  }

  function Entries(names: seq<string>, pass: bool): (lines: seq<string>)
    ensures |lines| == |names|
    decreases |names|
  {
    if names == [] then []
    else Entries(names[..|names| - 1], pass) + [Entry(names[|names| - 1], pass)]
  }

  /** Lines, each followed by a newline. */
  function Terminated(lines: seq<string>): string
    decreases |lines|
  {
    if lines == [] then ""
    else Terminated(lines[..|lines| - 1]) + lines[|lines| - 1] + "\n"
  }

  /** The last line of the verbose report. */
  function Summary(allPass: bool): string
  {
    if allPass then "health check passed" else "health check failed"
  }

  /** The verbose report for the given name lists. */
  function Report(passNames: seq<string>, failedNames: seq<string>): string
  {
    Terminated(Entries(passNames, true)) + Terminated(Entries(failedNames, false)) + Summary(failedNames == [])
  }

  /** What String(verbose) returns for a registry holding m. */
  ghost function Render(m: map<string, bool>, verbose: bool): (body: string)
    ensures !verbose ==> body == "OK" || body == "Fail"
    ensures verbose ==> var summary := Summary(Failed(m) == {});
      |body| >= |summary| && body[|body| - |summary|..] == summary
  {
    if verbose then Report(SortedKeys(Passed(m)), SortedKeys(Failed(m)))
    else if Failed(m) == {} then "OK" else "Fail"
  }

  lemma Associative(a: string, b: string, c: string)
    ensures a + b + c == a + (b + c)
  {
  }

  /** The text the source writes for a name is the name's entry and a newline. */
  lemma EntryText(name: string, pass: bool)
    ensures (if pass then "[+] " + name + " ok\n" else "[-] " + name + " fail\n") == Entry(name, pass) + "\n"
  {
  }

  lemma EntriesStep(names: seq<string>, j: nat, pass: bool)
    requires j < |names|
    ensures Terminated(Entries(names[..j + 1], pass))
         == Terminated(Entries(names[..j], pass)) + Entry(names[j], pass) + "\n"
  {
    assert names[..j + 1][..j] == names[..j];
    var lines := Entries(names[..j + 1], pass);
    assert lines[..|lines| - 1] == Entries(names[..j], pass);
  }

  /** The terse body is "OK" exactly when no check failed, "Fail" otherwise;
      an empty registry renders "OK". */
  lemma RenderTerse(m: map<string, bool>)
    ensures Render(m, false) == "OK" <==> forall k :: k in m ==> m[k]
    ensures Render(m, false) == "OK" || Render(m, false) == "Fail"
    ensures m == map[] ==> Render(m, false) == "OK"
  {
    if exists k :: k in m && !m[k] {
      var k :| k in m && !m[k];
      assert k in Failed(m);
    }
  }

  // ---------------------------------------------------------------------
  // Visits, the model of Each's calls of its callback

  /** The map built by applying the visits in order. */
  function Visited(visits: seq<(string, bool)>): map<string, bool>
    decreases |visits|
  {
    if visits == [] then map[]
    else Visited(visits[..|visits| - 1])[visits[|visits| - 1].0 := visits[|visits| - 1].1]
  }

  /** No key is visited twice. */
  predicate DistinctKeys(visits: seq<(string, bool)>)
  {
    forall i, j :: 0 <= i < j < |visits| ==> visits[i].0 != visits[j].0
  }

  lemma {:induction false} VisitedKeys(visits: seq<(string, bool)>, k: string)
    ensures k in Visited(visits) <==> exists i :: 0 <= i < |visits| && visits[i].0 == k
    decreases |visits|
  {
    if visits != [] {
      var n := |visits| - 1;
      VisitedKeys(visits[..n], k);
      if k in Visited(visits[..n]) {
        var i :| 0 <= i < n && visits[..n][i].0 == k;
        assert visits[i].0 == k;
      }
      if exists i :: 0 <= i < |visits| && visits[i].0 == k {
        var i :| 0 <= i < |visits| && visits[i].0 == k;
        if i < n {
          assert visits[..n][i].0 == k;
        }
      }
    }
  }

  /** Splitting off a visit to a new key adds it to the passed or failed set. */
  lemma VisitedStep(visits: seq<(string, bool)>, i: nat)
    requires DistinctKeys(visits) && i < |visits|
    ensures Visited(visits[..i + 1]) == Visited(visits[..i])[visits[i].0 := visits[i].1]
    ensures visits[i].0 !in Visited(visits[..i])
    ensures visits[i].1 ==> Passed(Visited(visits[..i + 1])) == Passed(Visited(visits[..i])) + {visits[i].0}
    ensures visits[i].1 ==> Failed(Visited(visits[..i + 1])) == Failed(Visited(visits[..i]))
    ensures !visits[i].1 ==> Failed(Visited(visits[..i + 1])) == Failed(Visited(visits[..i])) + {visits[i].0}
    ensures !visits[i].1 ==> Passed(Visited(visits[..i + 1])) == Passed(Visited(visits[..i]))
  {
    assert visits[..i + 1][..i] == visits[..i];
    VisitedKeys(visits[..i], visits[i].0);
  }

  lemma MultisetAddNew(s: set<string>, k: string)
    requires k !in s
    ensures multiset(s + {k}) == multiset(s) + multiset{k}
  {
  }

  // ---------------------------------------------------------------------
  // The registry

  /** checkStatuses: the map from check name to result that one request
      fills in. The read/write lock of checkStatuses is not modelled. */
  class CheckStatuses {
    var m: map<string, bool>

    /** NewCheckStatuses(n): an empty registry; n is only a capacity hint. */
    constructor (n: nat)
      ensures m == map[]
    {
      m := map[];
    }

    /** The value stored for k and whether there is one; a missing key
        reads as Go's zero value, false. */
    method Get(k: string) returns (v: bool, existed: bool)
      ensures existed <==> k in m
      ensures v <==> k in m && m[k]
    {
      existed := k in m;
      v := if existed then m[k] else false;
    }

    method Set(k: string, v: bool)
      modifies this
      ensures m == old(m)[k := v]
      ensures k in m && m[k] == v
      ensures forall j :: j != k ==> (j in m <==> j in old(m)) && (j in m ==> m[j] == old(m)[j])
      ensures |m| == if k in old(m) then |old(m)| else |old(m)| + 1
    {
      m := m[k := v];
    }

    method Delete(k: string)
      modifies this
      ensures m == old(m) - {k}
      ensures k !in m
      ensures forall j :: j != k ==> (j in m <==> j in old(m)) && (j in m ==> m[j] == old(m)[j])
      ensures k !in old(m) ==> m == old(m)
      ensures |m| == if k in old(m) then |old(m)| - 1 else |old(m)|
    {
      m := m - {k};
    }

    /** The number of distinct names stored. */
    method Len() returns (n: nat)
      ensures n == |m.Keys|
    {
      n := |m|;
    }

    /** Each: the callback is applied once to every stored (name, result)
        pair, in an order the caller cannot know. The model returns the
        sequence of callback arguments; the caller folds its callback over it. */
    method Each() returns (visits: seq<(string, bool)>)
      ensures DistinctKeys(visits)
      ensures forall i :: 0 <= i < |visits| ==> visits[i].0 in m && visits[i].1 == m[visits[i].0]
      ensures Visited(visits) == m
    {
      var rest := m.Keys;
      visits := [];
      while rest != {}
        invariant rest <= m.Keys
        invariant DistinctKeys(visits)
        invariant forall i :: 0 <= i < |visits| ==> visits[i].0 in m && visits[i].0 !in rest && visits[i].1 == m[visits[i].0]
        invariant Visited(visits) == m - rest
        decreases rest
      {
        var k :| k in rest;
        assert (visits + [(k, m[k])])[..|visits|] == visits;
        visits := visits + [(k, m[k])];
        rest := rest - {k};
      }
    }

    /** String(verbose): the names are split into passed and failed, each
        list is sorted, and the result is the terse "OK"/"Fail" or the
        line-per-check report. It depends on the contents only, not on the
        order in which Each visits them, and leaves the registry unchanged. */
    method String(verbose: bool) returns (s: string)
      ensures s == Render(m, verbose)
    {
      var visits := Each();
      var passNames, failedNames, allPass := Partition(visits);

      passNames := SortStrings(passNames);
      failedNames := SortStrings(failedNames);
      SortedUnique(passNames, SortedKeys(Passed(m)));
      SortedUnique(failedNames, SortedKeys(Failed(m)));
      assert allPass <==> failedNames == [] by {
        SortedKeysSize(Failed(m));
      }

      if verbose {
        s := WriteReport(passNames, failedNames, allPass);
        return;
      }

      if allPass {
        return "OK";
      }
      return "Fail";
    }

    /** The callback String passes to Each: it appends each name to the
        passed or the failed list and clears allPass on a failure. */
    static method Partition(visits: seq<(string, bool)>) returns (passNames: seq<string>, failedNames: seq<string>, allPass: bool)
      requires DistinctKeys(visits)
      ensures multiset(passNames) == multiset(Passed(Visited(visits)))
      ensures multiset(failedNames) == multiset(Failed(Visited(visits)))
      ensures allPass <==> Failed(Visited(visits)) == {}
    {
      passNames, failedNames, allPass := [], [], true;
      for i := 0 to |visits|
        invariant multiset(passNames) == multiset(Passed(Visited(visits[..i])))
        invariant multiset(failedNames) == multiset(Failed(Visited(visits[..i])))
        invariant allPass <==> Failed(Visited(visits[..i])) == {}
      {
        var (name, pass) := visits[i];
        VisitedStep(visits, i);
        if pass {
          MultisetAddNew(Passed(Visited(visits[..i])), name);
          passNames := passNames + [name];
        } else {
          MultisetAddNew(Failed(Visited(visits[..i])), name);
          failedNames := failedNames + [name];
          allPass := false;
        }
      }
      assert visits[..|visits|] == visits;
    }

    /** The verbose branch of String: one line per passed name, one per
        failed name, then the summary, all written into one builder. */
    static method WriteReport(passNames: seq<string>, failedNames: seq<string>, allPass: bool) returns (b: string)
      requires allPass <==> failedNames == []
      ensures b == Report(passNames, failedNames)
    {
      b := WriteEntries("", passNames, true);
      b := WriteEntries(b, failedNames, false);
      if allPass {
        b := b + "health check passed";
      } else {
        b := b + "health check failed";
      }
    }

    /** One of the loops of String's verbose branch: it writes a line for
        each name into the builder b. */
    static method WriteEntries(b: string, names: seq<string>, pass: bool) returns (r: string)
      ensures r == b + Terminated(Entries(names, pass))
    {
      r := b;
      assert names[..0] == [];
      for j := 0 to |names|
        invariant r == b + Terminated(Entries(names[..j], pass))
      {
        var line := if pass then "[+] " + names[j] + " ok\n" else "[-] " + names[j] + " fail\n";
        EntriesStep(names, j, pass);
        EntryText(names[j], pass);
        Associative(b, Terminated(Entries(names[..j], pass)), line);
        Associative(Terminated(Entries(names[..j], pass)), Entry(names[j], pass), "\n");
        r := r + line;
      }
      assert names[..|names|] == names;
    }
  }
}
