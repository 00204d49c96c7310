/**
 * The configuration records of the health check and their default
 * constructors (config.go).
 */
module HealthConfig {
  import opened Checks

  /** Go's uint32, the type of the failure threshold and of the streak. */
  const Uint32Range: int := 0x1_0000_0000
  type Uint32 = x: int | 0 <= x < 0x1_0000_0000

  /** net/http's MethodGet and the default endpoint. */
  const MethodGet: string := "GET"
  const DefaultEndpoint: string := "/healthz"

  /** When to notify, and whether a channel to notify on exists: a nil Chan
      is hasChan == false. */
  datatype FailureNotification = FailureNotification(threshold: Uint32, hasChan: bool)

  datatype HandlerConfig = HandlerConfig(
    verbose: bool,
    excludes: seq<string>,
    checks: seq<Check>,
    failureNotification: FailureNotification)

  datatype Config = Config(httpMethod: string, endpoint: string, handlerConfig: HandlerConfig)

  /** Threshold 1, no channel. */
  function DefaultNotification(): (n: FailureNotification)
    ensures n.threshold == 1 && !n.hasChan
  {
    FailureNotification(1, false)
  }

  /** Terse output, nothing excluded, the given checks in the given order. */
  function NewDefaultHandlerConfigFor(cs: seq<Check>): (c: HandlerConfig)
    ensures c.checks == cs
    ensures !c.verbose && c.excludes == []
    ensures c.failureNotification == DefaultNotification()
  {
    HandlerConfig(false, [], cs, DefaultNotification())
  }

  /** The handler configuration running only the ping check. */
  function NewDefaultHandlerConfig(): (c: HandlerConfig)
    ensures c.checks == [Ping]
    ensures !c.verbose && c.excludes == []
    ensures c.failureNotification.threshold == 1 && !c.failureNotification.hasChan
  {
    HandlerConfig(false, [], [Ping], FailureNotification(1, false))
  }

  /** GET /healthz with the default handler configuration for cs. */
  function NewDefaultConfigFor(cs: seq<Check>): (c: Config)
    ensures c.httpMethod == MethodGet && c.endpoint == DefaultEndpoint
    ensures c.handlerConfig == NewDefaultHandlerConfigFor(cs)
  {
    Config(MethodGet, DefaultEndpoint, NewDefaultHandlerConfigFor(cs))
  }

  /** GET /healthz with the default handler configuration. */
  function NewDefaultConfig(): (c: Config)
    ensures c.httpMethod == MethodGet && c.endpoint == DefaultEndpoint
    ensures c.handlerConfig == NewDefaultHandlerConfig()
  {
    Config(MethodGet, DefaultEndpoint, NewDefaultHandlerConfig())
  }

  /** The two families of defaults agree: the plain default is the
      "For" default of the ping check alone. */
  lemma DefaultsArePingDefaults()
    ensures NewDefaultHandlerConfig() == NewDefaultHandlerConfigFor([Ping])
    ensures NewDefaultConfig() == NewDefaultConfigFor([Ping])
  {
  }
}
