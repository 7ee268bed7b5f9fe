/**
 * The MCP server registry: configuration validation, the registry
 * operations (add, remove, start, stop, status), the retry loop that
 * creates a connection, and the error-count rule of the health check.
 * Subprocesses, network probes and connection objects are represented by
 * the outcomes they produce.
 */
module McpManager {
  import opened Wrappers

  datatype Transport = Sse | Stdio | Http

  datatype ServerStatus = Disconnected | Connecting | Connected | Error | Unhealthy

  /** The persisted part of a server's configuration. */
  datatype ServerConfig = ServerConfig(
    name: string,
    transport: Transport,
    enabled: bool,
    autoStart: bool,
    url: Option<string>,
    command: Option<string>,
    retryAttempts: int,
    retryDelay: int,
    healthCheckInterval: int,
    timeout: int,
    processCommand: Option<string>)

  /** Python truthiness of an optional string. */
  predicate Given(s: Option<string>)
  {
    s.Some? && s.value != ""
  }

  // ---------------------------------------------------------------------
  // Validation
  // ---------------------------------------------------------------------

  datatype ValidationFailure =
    | OutOfRange(field: string)
    | UrlRequired(transport: Transport)
    | CommandRequired

  function RangeFailures(c: ServerConfig): (failures: seq<ValidationFailure>)
    ensures failures == [] <==>
      (0 <= c.retryAttempts <= 10 && 1 <= c.retryDelay <= 60 && 10 <= c.healthCheckInterval <= 300 && 1 <= c.timeout <= 60)
    ensures |failures| <= 4
    ensures forall f | f in failures :: f.OutOfRange?
    ensures OutOfRange("retry_attempts") in failures <==> !(0 <= c.retryAttempts <= 10)
    ensures OutOfRange("retry_delay") in failures <==> !(1 <= c.retryDelay <= 60)
    ensures OutOfRange("health_check_interval") in failures <==> !(10 <= c.healthCheckInterval <= 300)
    ensures OutOfRange("timeout") in failures <==> !(1 <= c.timeout <= 60)
  {
    (if 0 <= c.retryAttempts <= 10 then [] else [OutOfRange("retry_attempts")])
    + (if 1 <= c.retryDelay <= 60 then [] else [OutOfRange("retry_delay")])
    + (if 10 <= c.healthCheckInterval <= 300 then [] else [OutOfRange("health_check_interval")])
    + (if 1 <= c.timeout <= 60 then [] else [OutOfRange("timeout")])
  }

  /**
   * `MCPServerConfigModel` validation: every out-of-range field is reported;
   * only when all are in range does the transport check run, which rejects
   * SSE or HTTP without a URL and stdio without a command.
   */
  function ValidateConfig(c: ServerConfig): (failures: seq<ValidationFailure>)
    ensures failures == [] <==>
      && 0 <= c.retryAttempts <= 10 && 1 <= c.retryDelay <= 60
      && 10 <= c.healthCheckInterval <= 300 && 1 <= c.timeout <= 60
      && (c.transport != Stdio ==> Given(c.url))
      && (c.transport == Stdio ==> Given(c.command))
    ensures |failures| <= 4
    ensures forall f | f in failures :: f.OutOfRange? || |failures| == 1
    ensures OutOfRange("retry_attempts") in failures <==> !(0 <= c.retryAttempts <= 10)
    ensures OutOfRange("retry_delay") in failures <==> !(1 <= c.retryDelay <= 60)
    ensures OutOfRange("health_check_interval") in failures <==> !(10 <= c.healthCheckInterval <= 300)
    ensures OutOfRange("timeout") in failures <==> !(1 <= c.timeout <= 60)
    ensures RangeFailures(c) == [] && c.transport != Stdio && !Given(c.url) ==> failures == [UrlRequired(c.transport)]
    ensures RangeFailures(c) == [] && c.transport == Stdio && !Given(c.command) ==> failures == [CommandRequired]
  {
    var ranges := RangeFailures(c);
    if ranges != [] then ranges
    else if c.transport != Stdio && !Given(c.url) then [UrlRequired(c.transport)]
    else if c.transport == Stdio && !Given(c.command) then [CommandRequired]
    else []
  }

  // ---------------------------------------------------------------------
  // Registry
  // ---------------------------------------------------------------------

  /** A registered server: its configuration and runtime state. */
  datatype Server = Server(config: ServerConfig, status: ServerStatus, errorCount: nat, processRunning: bool)

  /** The manager: registered servers, the names holding a connection, and the names with a health-check task. */
  datatype Manager = Manager(servers: map<string, Server>, connections: set<string>, healthTasks: set<string>)

  /** What creating a connection produced: a connection, nothing (no attempt was made), or an exception. */
  datatype ConnectOutcome = Opened | NoConnection | Raised

  /**
   * `start_server`. `processStarts` says whether a configured subprocess
   * comes up, `connect` what `_create_connection` produced.
   */
  function StartServer(m: Manager, name: string, processStarts: bool, connect: ConnectOutcome): (r: (bool, Manager))
    ensures r.0 <==> (name in m.servers && m.servers[name].config.enabled
      && (Given(m.servers[name].config.processCommand) ==> processStarts) && connect == Opened)
    ensures r.1.servers.Keys == m.servers.Keys
    ensures forall n | n in m.servers && n != name :: r.1.servers[n] == m.servers[n]
    ensures r.0 ==> (r.1.servers[name].status == Connected && r.1.servers[name].errorCount == 0
      && r.1.connections == m.connections + {name} && r.1.healthTasks == m.healthTasks + {name})
    ensures !r.0 ==> r.1.connections == m.connections && r.1.healthTasks == m.healthTasks
    ensures (!r.0 && name in m.servers && m.servers[name].config.enabled
      && ((Given(m.servers[name].config.processCommand) && !processStarts) || connect == Raised)) ==>
      r.1.servers[name].status == Error && r.1.servers[name].errorCount == m.servers[name].errorCount + 1
    ensures !r.0 && (name !in m.servers || !m.servers[name].config.enabled) ==> r.1 == m
  {
    if name !in m.servers then (false, m)
    else
      var s := m.servers[name];
      if !s.config.enabled then (false, m)
      else if Given(s.config.processCommand) && !processStarts then
        (false, m.(servers := m.servers[name := s.(status := Error, errorCount := s.errorCount + 1)]))
      else
        var s := s.(processRunning := s.processRunning || Given(s.config.processCommand));
        match connect
        case Opened =>
          (true, Manager(m.servers[name := s.(status := Connected, errorCount := 0)], m.connections + {name}, m.healthTasks + {name}))
        case NoConnection => (false, m.(servers := m.servers[name := s]))
        case Raised => (false, m.(servers := m.servers[name := s.(status := Error, errorCount := s.errorCount + 1)]))
  }

  /**
   * `stop_server`. The health task is cancelled and dropped, then the
   * connection is closed and dropped; when closing raises the stop ends
   * there with false, the connection still registered.
   */
  function StopServer(m: Manager, name: string, closeRaises: bool): (r: (bool, Manager))
    ensures name !in m.servers ==> r == (false, m)
    ensures r.1.servers.Keys == m.servers.Keys
    ensures forall n | n in m.servers && n != name :: r.1.servers[n] == m.servers[n]
    ensures name in m.servers ==> r.1.healthTasks == m.healthTasks - {name}
    ensures r.0 <==> name in m.servers && !(name in m.connections && closeRaises)
    ensures r.0 ==> (r.1.connections == m.connections - {name}
      && r.1.servers[name].status == Disconnected && !r.1.servers[name].processRunning)
    ensures !r.0 ==> r.1.connections == m.connections
  {
    if name !in m.servers then (false, m)
    else
      var tasks := m.healthTasks - {name};
      if name in m.connections && closeRaises then (false, m.(healthTasks := tasks))
      else
        var s := m.servers[name];
        (true, Manager(m.servers[name := s.(status := Disconnected, processRunning := false)], m.connections - {name}, tasks))
  }

  /**
   * `restart_server`: a stop, whose result is ignored, followed by a start,
   * whose result is returned.
   */
  function RestartServer(m: Manager, name: string, closeRaises: bool, processStarts: bool, connect: ConnectOutcome): (r: (bool, Manager))
    ensures r.1.servers.Keys == m.servers.Keys
    ensures r.0 ==> name in r.1.servers && name in r.1.connections && name in r.1.healthTasks && r.1.servers[name].status == Connected
    ensures !r.0 && name in m.servers ==> name !in r.1.healthTasks
    ensures !r.0 && name in m.servers && !closeRaises ==> name !in r.1.connections
    ensures name in m.servers && m.servers[name].config.enabled && !Given(m.servers[name].config.processCommand) ==>
      (r.0 <==> connect == Opened)
  {
    var stopped := StopServer(m, name, closeRaises).1;
    StartServer(stopped, name, processStarts, connect)
  }

  /** A fresh registration's runtime state. */
  function Registered(c: ServerConfig): Server
  {
    Server(c, Disconnected, 0, false)
  }

  /**
   * `add_server`: an existing name is refused with no change. Otherwise the
   * server is registered and, when enabled and auto-started, started; the
   * result is then the start's result.
   */
  function AddServer(m: Manager, c: ServerConfig, processStarts: bool, connect: ConnectOutcome): (r: (bool, Manager))
    ensures c.name in m.servers ==> r == (false, m)
    ensures c.name !in m.servers ==> r.1.servers.Keys == m.servers.Keys + {c.name} && r.1.servers[c.name].config == c
    ensures c.name !in m.servers ==> forall n | n in m.servers :: r.1.servers[n] == m.servers[n]
    ensures c.name !in m.servers && !(c.enabled && c.autoStart) ==>
      r.0 && r.1.connections == m.connections && r.1.servers[c.name] == Registered(c)
    ensures c.name !in m.servers && c.enabled && c.autoStart ==>
      r == StartServer(m.(servers := m.servers[c.name := Registered(c)]), c.name, processStarts, connect)
  {
    if c.name in m.servers then (false, m)
    else
      var added := m.(servers := m.servers[c.name := Registered(c)]);
      if c.enabled && c.autoStart then StartServer(added, c.name, processStarts, connect)
      else (true, added)
  }

  /**
   * `remove_server`: an unknown name gives false; otherwise the server is
   * stopped (whatever that returns) and unregistered, giving true.
   */
  function RemoveServer(m: Manager, name: string, closeRaises: bool): (r: (bool, Manager))
    ensures name !in m.servers ==> r == (false, m)
    ensures name in m.servers ==> r.0 && r.1.servers == m.servers - {name}
    ensures name in m.servers ==> name !in r.1.healthTasks
    ensures name in m.servers ==> (name in r.1.connections <==> name in m.connections && closeRaises)
  {
    if name !in m.servers then (false, m)
    else
      var stopped := StopServer(m, name, closeRaises).1;
      (true, stopped.(servers := stopped.servers - {name}))
  }

  /** A server added and then removed (with a clean close) leaves the registry and the connections as they were. */
  lemma AddThenRemove(m: Manager, c: ServerConfig, processStarts: bool, connect: ConnectOutcome)
    requires c.name !in m.servers && c.name !in m.connections
    ensures var added := AddServer(m, c, processStarts, connect).1;
      var removed := RemoveServer(added, c.name, false).1;
      removed.servers == m.servers && removed.connections == m.connections
  {
    var added := AddServer(m, c, processStarts, connect).1;
    assert added.servers - {c.name} == m.servers;
  }

  /** The status report of `get_server_status`, without its `last_health_check` time. */
  datatype StatusReport = StatusReport(name: string, transport: Transport, status: ServerStatus, enabled: bool, errorCount: nat, connected: bool)

  function GetServerStatus(m: Manager, name: string): (r: Option<StatusReport>)
    ensures r.None? <==> name !in m.servers
    ensures r.Some? ==> (r.value.name == name && (r.value.connected <==> name in m.connections)
      && r.value.status == m.servers[name].status && r.value.errorCount == m.servers[name].errorCount
      && r.value.transport == m.servers[name].config.transport && r.value.enabled == m.servers[name].config.enabled)
  {
    if name !in m.servers then None
    else
      var s := m.servers[name];
      Some(StatusReport(name, s.config.transport, s.status, s.config.enabled, s.errorCount, name in m.connections))
  }

  /** Starting right after a successful add reports the server connected with no errors. */
  lemma AddedServerReportsConnected(m: Manager, c: ServerConfig)
    requires c.name !in m.servers && c.enabled && c.autoStart && !Given(c.processCommand)
    ensures var r := AddServer(m, c, false, Opened);
      r.0 && GetServerStatus(r.1, c.name) == Some(StatusReport(c.name, c.transport, Connected, true, 0, true))
  {
  }

  // ---------------------------------------------------------------------
  // Connection retries
  // ---------------------------------------------------------------------

  /** The outcome of `_create_connection` and how many attempts it made. */
  datatype Attempts = Attempts(outcome: ConnectOutcome, made: nat)

  /** Whether the transport has what it needs to connect: a URL for SSE and HTTP, a command for stdio. */
  predicate Connectable(c: ServerConfig)
  {
    if c.transport == Stdio then Given(c.command) else Given(c.url)
  }

  /**
   * `_create_connection`. Each attempt fails when the transport lacks its URL
   * or command, or, for SSE with a health client, when the readiness probe
   * of that attempt (`probeOk`) fails. A failed attempt is retried until the
   * last one, whose failure is raised; with no attempts at all the result is
   * no connection.
   */
  method CreateConnection(c: ServerConfig, hasHttpClient: bool, probeOk: nat -> bool) returns (a: Attempts)
    ensures c.retryAttempts <= 0 ==> a == Attempts(NoConnection, 0)
    ensures c.retryAttempts > 0 ==> 1 <= a.made <= c.retryAttempts && a.outcome != NoConnection
    ensures a.outcome == Opened <==> (c.retryAttempts > 0 && Connectable(c)
      && (c.transport == Sse && hasHttpClient ==> exists k | 0 <= k < c.retryAttempts :: probeOk(k)))
    ensures a.outcome == Opened ==> forall k | 0 <= k < a.made - 1 :: !AttemptSucceeds(c, hasHttpClient, probeOk, k)
    ensures a.outcome == Opened ==> AttemptSucceeds(c, hasHttpClient, probeOk, a.made - 1)
    ensures a.outcome == Raised ==> a.made == c.retryAttempts
  {
    var attempt := 0;
    while attempt < c.retryAttempts
      invariant 0 <= attempt
      invariant c.retryAttempts > 0 ==> attempt < c.retryAttempts
      invariant forall k | 0 <= k < attempt :: !AttemptSucceeds(c, hasHttpClient, probeOk, k)
    {
      if AttemptSucceeds(c, hasHttpClient, probeOk, attempt) {
        return Attempts(Opened, attempt + 1);
      }
      if attempt == c.retryAttempts - 1 {
        assert !Connectable(c) || (c.transport == Sse && hasHttpClient && forall k | 0 <= k < c.retryAttempts :: !probeOk(k)) by {
          if Connectable(c) {
            assert !AttemptSucceeds(c, hasHttpClient, probeOk, 0);
            forall k | 0 <= k < c.retryAttempts
              ensures !probeOk(k)
            {
              assert !AttemptSucceeds(c, hasHttpClient, probeOk, k);
            }
          }
        }
        return Attempts(Raised, attempt + 1);
      }
      attempt := attempt + 1;
    }
    return Attempts(NoConnection, 0);
  }

  /** Whether attempt `k` yields a connection. */
  predicate AttemptSucceeds(c: ServerConfig, hasHttpClient: bool, probeOk: nat -> bool, k: nat)
  {
    Connectable(c) && (c.transport == Sse && hasHttpClient ==> probeOk(k))
  }

  // ---------------------------------------------------------------------
  // Health checks
  // ---------------------------------------------------------------------

  /** The readiness probe of one health check: HTTP 200, another status, or an exception. */
  datatype Probe = Status200 | OtherStatus | ProbeRaised

  const RESTART_THRESHOLD := 3

  /**
   * One iteration of `_health_check_loop`, returning the updated server and
   * whether it asks for a restart. A dead subprocess marks the server
   * unhealthy and restarts it. For an SSE server with a URL and a health
   * client, a 200 marks it connected and clears the error count and anything
   * else marks it unhealthy and counts one more error; three or more errors
   * ask for a restart.
   */
  function HealthCheckStep(s: Server, processDied: bool, hasHttpClient: bool, probe: Probe): (r: (Server, bool))
    ensures processDied && s.processRunning ==> r == (s.(status := Unhealthy), true)
    ensures !(processDied && s.processRunning) ==>
      (r.1 <==> r.0.errorCount >= RESTART_THRESHOLD)
    ensures !(processDied && s.processRunning) && s.config.transport == Sse && Given(s.config.url) && hasHttpClient ==>
      if probe == Status200 then r.0.status == Connected && r.0.errorCount == 0
      else r.0.status == Unhealthy && r.0.errorCount == s.errorCount + 1
    ensures !(processDied && s.processRunning) && !(s.config.transport == Sse && Given(s.config.url) && hasHttpClient) ==>
      r.0 == s
  {
    if processDied && s.processRunning then (s.(status := Unhealthy), true)
    else
      var checked :=
        if s.config.transport == Sse && Given(s.config.url) && hasHttpClient then
          if probe == Status200 then s.(status := Connected, errorCount := 0)
          else s.(status := Unhealthy, errorCount := s.errorCount + 1)
        else s;
      (checked, checked.errorCount >= RESTART_THRESHOLD)
  }

  /** From a clean state, three failed probes in a row ask for a restart, and not before the third. */
  lemma ThreeFailuresRestart(s: Server, p1: Probe, p2: Probe, p3: Probe)
    requires s.errorCount == 0 && s.config.transport == Sse && Given(s.config.url)
    requires p1 != Status200 && p2 != Status200 && p3 != Status200
    ensures var r1 := HealthCheckStep(s, false, true, p1);
      var r2 := HealthCheckStep(r1.0, false, true, p2);
      var r3 := HealthCheckStep(r2.0, false, true, p3);
      !r1.1 && !r2.1 && r3.1 && r3.0.errorCount == 3
  {
  }
}
