/**
 * Registration of health-check handlers on a router (healthcheck.go). The
 * router is represented by the sequence of configurations whose handlers
 * were added to it, in the order they were added.
 */
module Registration {
  import opened Wrappers
  import opened Errors
  import opened GoStrings
  import opened HealthConfig

  /** The key two registrations must not share: method and endpoint,
      concatenated without a separator, in lower case. */
  function Key(c: Config): (k: string)
    ensures |k| == |c.httpMethod| + |c.endpoint|
    ensures forall i :: 0 <= i < |c.httpMethod| ==> k[i] == LowerChar(c.httpMethod[i])
    ensures forall i :: 0 <= i < |c.endpoint| ==> k[|c.httpMethod| + i] == LowerChar(c.endpoint[i])
  {
    ToLowerAscii(c.httpMethod + c.endpoint)
  }

  /** No two configurations share a key. */
  predicate KeysDistinct(configs: seq<Config>)
  {
    forall i, j :: 0 <= i < j < |configs| ==> Key(configs[i]) != Key(configs[j])
  }

  /** Some configuration of configs has key k. */
  predicate KeyUsed(configs: seq<Config>, k: string)
  {
    exists i :: 0 <= i < |configs| && Key(configs[i]) == k
  }

  /** RegisterFor (and registerFor, to which it delegates): registers the
      configurations in order and stops at the first one whose key an
      earlier one already used. */
  method RegisterFor(configs: seq<Config>) returns (err: Option<HealthError>, registered: seq<Config>)
    ensures configs == [] ==> err == Some(EmptyConfigs) && registered == []
    ensures configs != [] ==> (err.None? <==> KeysDistinct(configs))
    ensures err.None? ==> registered == configs
    ensures err.Some? && configs != [] ==>
      && err == Some(ConfigsMethodEndpointConflict)
      && |registered| < |configs|
      && registered == configs[..|registered|]
      && KeysDistinct(registered)
      && KeyUsed(registered, Key(configs[|registered|]))
  {
    registered := [];
    if |configs| == 0 {
      return Some(EmptyConfigs), registered;
    }
    err := None;
    var existed: set<string> := {};
    for i := 0 to |configs|
      invariant registered == configs[..i]
      invariant KeysDistinct(registered)
      invariant forall k :: k in existed <==> KeyUsed(registered, k)
    {
      var key := Key(configs[i]);
      if key in existed {
        NotDistinct(configs, i);
        return Some(ConfigsMethodEndpointConflict), registered;
      }
      KeyUsedSnoc(registered, configs[i]);
      existed := existed + {key};
      registered := registered + [configs[i]];
      assert registered == configs[..i + 1];
    }
    assert configs[..|configs|] == configs;
  }

  /** Registering one more configuration adds its key to the keys used, and
      keeps the keys distinct when that key is new. */
  lemma KeyUsedSnoc(registered: seq<Config>, c: Config)
    ensures forall k :: KeyUsed(registered + [c], k) <==> KeyUsed(registered, k) || Key(c) == k
    ensures KeysDistinct(registered) && !KeyUsed(registered, Key(c)) ==> KeysDistinct(registered + [c])
  {
    var r := registered + [c];
    assert forall i :: 0 <= i < |registered| ==> r[i] == registered[i];
    assert r[|registered|] == c;
  }

  /** A key that repeats an earlier one breaks distinctness. */
  lemma NotDistinct(configs: seq<Config>, i: int)
    requires 0 <= i < |configs| && KeyUsed(configs[..i], Key(configs[i]))
    ensures !KeysDistinct(configs)
  {
    var j :| 0 <= j < i && Key(configs[..i][j]) == Key(configs[i]);
    assert Key(configs[j]) == Key(configs[i]);
  }

  /** Register: the default configuration alone, which always succeeds. */
  method Register() returns (err: Option<HealthError>, registered: seq<Config>)
    ensures err.None? && registered == [NewDefaultConfig()]
  {
    err, registered := RegisterFor([NewDefaultConfig()]);
  }

  /** Keys ignore the case of ASCII letters: GET /healthz and get /HEALTHZ
      clash. */
  lemma KeyIgnoresCase(h1: HandlerConfig, h2: HandlerConfig)
    ensures Key(Config("GET", "/healthz", h1)) == Key(Config("get", "/HEALTHZ", h2)) == "get/healthz"
  {
    LowerOf("GET" + "/healthz", "get/healthz");
    LowerOf("get" + "/HEALTHZ", "get/healthz");
  }

  /** t is s in lower case. */
  lemma LowerOf(s: string, t: string)
    requires |s| == |t| && forall i :: 0 <= i < |s| ==> LowerChar(s[i]) == t[i]
    ensures ToLowerAscii(s) == t
  {
  }

  /** Two configurations clash exactly when their method and endpoint,
      run together, have the same length and agree letter by letter once
      ASCII case is ignored. */
  lemma SameKeyIff(a: Config, b: Config)
    ensures Key(a) == Key(b)
        <==> var s, t := a.httpMethod + a.endpoint, b.httpMethod + b.endpoint;
             |s| == |t| && forall i :: 0 <= i < |s| ==> LowerChar(s[i]) == LowerChar(t[i])
  {
    var s, t := a.httpMethod + a.endpoint, b.httpMethod + b.endpoint;
    if Key(a) == Key(b) {
      forall i | 0 <= i < |s|
        ensures LowerChar(s[i]) == LowerChar(t[i])
      {
        assert Key(a)[i] == Key(b)[i];
      }
    }
  }

  /** Keys do not separate method from endpoint: GET /x and GE T/x clash. */
  lemma KeyHasNoSeparator(h1: HandlerConfig, h2: HandlerConfig)
    ensures Key(Config("GET", "/x", h1)) == Key(Config("GE", "T/x", h2))
  {
    assert "GET" + "/x" == "GE" + "T/x";
  }
}
