/**
 * The opencode connection manager: which server and session the provider is
 * bound to, how `ensureConnected` picks them (saved pair first, then the
 * server nearest the file and its most recently updated session), what
 * `connect` and the event collector do to that state, and the `prompt` and
 * `reconnect` pipelines.
 *
 * The provider's three mutable fields are a `Connection` value; each
 * operation returns the next value together with the effects it performs,
 * in order: bus events, session selection, cancelling and starting the event
 * collector, and sending the prompt. Discovery, session listing and URI
 * validation are the inputs in `Env`.
 */
module OpenCodeProvider {
  import opened Wrappers
  import opened Text
  import opened ContextUtils
  import opened Macros
  import Api = OpenCodeApi

  // ------------------------------------------------------------ agent choice

  /**
   * `extractAgent`: with `@a:` present, the word after the first `@a:\w+`
   * match (none if nothing matches, even when `@build` is present); else
   * `build` when `@build` occurs; else `plan`.
   */
  function ExtractAgent(s: string): (r: Option<string>)
    ensures Contains(s, AgentPrefix) ==>
      (r.None? <==> forall i: nat :: !AgentAt(s, i))
    ensures Contains(s, AgentPrefix) && r.Some? ==>
      var i := FindAgent(s, 0).value;
      && AgentAt(s, i) && (forall j: nat :: j < i ==> !AgentAt(s, j))
      && r.value == s[i + 3..AgentEnd(s, i)]
    ensures r.Some? ==> |r.value| > 0 && forall k :: 0 <= k < |r.value| ==> IsWordChar(r.value[k])
    ensures !Contains(s, AgentPrefix) && Contains(s, "@build") ==> r == Some("build")
    ensures !Contains(s, AgentPrefix) && !Contains(s, "@build") ==> r == Some("plan")
  {
    if Contains(s, AgentPrefix) then
      match FindAgent(s, 0)
      case None => None
      case Some(i) => Some(s[i + 3..AgentEnd(s, i)])
    else if Contains(s, "@build") then Some("build")
    else Some("plan")
  }

  /** A word right after a leading `@a:` is the agent. */
  lemma LeadingSelectorNamesAgent(w: string, rest: string)
    requires |w| > 0 && forall k :: 0 <= k < |w| ==> IsWordChar(w[k])
    requires |rest| > 0 ==> !IsWordChar(rest[0])
    ensures ExtractAgent(AgentPrefix + w + rest) == Some(w)
  {
    var s := AgentPrefix + w + rest;
    assert s == "@a:" + (w + rest);
    MatchFromChars(s, AgentPrefix, 0, 0);
    assert OccursAt(s, AgentPrefix, 0);
    assert AgentAt(s, 0);
    WordRunOfWord(s, w, 3);
    assert AgentEnd(s, 0) == 3 + |w|;
    assert s[3..3 + |w|] == w;
  }

  /** An explicit selector names the agent. */
  lemma ExplicitAgentExample(s: string)
    requires s == "@a:refactor please fix"
    ensures ExtractAgent(s) == Some("refactor")
  {
    assert s == AgentPrefix + "refactor" + " please fix";
    LeadingSelectorNamesAgent("refactor", " please fix");
  }

  /** `@build` selects the build agent; with neither marker the plan agent is used. */
  lemma DefaultAgentExamples(b: string, c: string)
    requires b == "@build fix" && c == "fix it"
    ensures ExtractAgent(b) == Some("build")
    ensures ExtractAgent(c) == Some("plan")
  {
    assert !Contains("@build fix", "@a:") by {}
    assert Contains("@build fix", "@build") by {}
    assert !Contains("fix it", "@a:") by {}
    assert !Contains("fix it", "@build") by {}
  }

  /**
   * A bare `@a:` with no word after it selects no agent, whatever follows,
   * `@build` included: once `@a:` is present the defaults are not consulted.
   */
  lemma DanglingSelectorSelectsNothing(rest: string)
    requires |rest| > 0 && !IsWordChar(rest[0]) && ':' !in rest
    ensures ExtractAgent(AgentPrefix + rest) == None
  {
    var s := AgentPrefix + rest;
    assert OccursAt(s, AgentPrefix, 0) by {
      assert s[0..3] == AgentPrefix;
      OccursAtSlice(s, AgentPrefix, 0);
    }
    OccursAtContains(s, AgentPrefix, 0);
    assert s[3] == rest[0];
    forall j | 3 <= j < |s| ensures s[j] in rest {
      assert s[j] == rest[j - 3];
    }
    forall i: nat ensures OccursAt(s, AgentPrefix, i) ==> s[i + 2] == ':' {
      OccursAtSlice(s, AgentPrefix, i);
    }
  }

  /** `@a: @build` selects no agent. */
  lemma DanglingSelectorExample(s: string)
    requires s == "@a: @build"
    ensures ExtractAgent(s) == None
  {
    assert s == AgentPrefix + " @build";
    assert ':' !in " @build";
    DanglingSelectorSelectsNothing(" @build");
  }

  // ------------------------------------------------------------------- state

  /** The event collector job: the address it reads and whether it is still active. */
  datatype SseJob = SseJob(address: string, active: bool)

  /**
   * The provider's `server`, `session` and `sseJob` fields, and whether its
   * coroutine `scope` is still alive. The scope's job is a plain `Job`, so a
   * child coroutine that fails with an exception cancels it for good: every
   * later `launch` in it is cancelled before its body runs.
   */
  datatype Connection = Connection(server: Option<Api.Server>, session: Option<Api.Session>, sseJob: Option<SseJob>, scopeAlive: bool)

  /** A freshly created provider. */
  const Fresh: Connection := Connection(None, None, None, true)

  /** The persisted reconnect preference. */
  datatype Saved = Saved(lastAddress: Option<string>, lastSessionId: Option<string>)

  /** What the provider publishes on the bus. */
  datatype ProviderEvent = Status(message: string) | Notice(message: string) | Error(error: string, indefinite: bool)

  /** What an operation does besides changing the connection, in order. */
  datatype Effect =
    | Emit(event: ProviderEvent)
    | SelectSession(address: string, sessionId: string)
    | CancelJob(job: SseJob)
    | StartEvents(address: string)
    | Send(request: Api.PromptRequest)

  /**
   * The world as the provider sees it: `getServers` (`None` when it throws,
   * e.g. when `pgrep` cannot be started), `getSessions` per address, and
   * whether `URI.create` accepts a URL.
   */
  datatype Env = Env(
    servers: Option<seq<Api.Server>>,
    sessions: string -> Result<seq<Api.Session>>,
    acceptsUri: string -> bool
  )

  /** A connection together with the saved pair and the effects that led to it. */
  datatype Transition = Transition(conn: Connection, saved: Saved, effects: seq<Effect>)

  /** `ensureConnected`'s answer; `Threw` is an exception escaping it. */
  datatype Outcome = Ready | Unavailable | Threw

  datatype Ensured = Ensured(outcome: Outcome, next: Transition)

  const DisposedType: string := "server.instance.disposed"
  const QuestionType: string := "question.asked"
  const QuestionNotice: string := "Jetbridge: OpenCode asked a question"
  const NoInstanceError: string := "No running opencode instance found in project path"
  const PromptFailedError: string := "Unable to prompt opencode. Is it running in this projects path?"
  const NoSessionError: string := "Jetbridge: No connected opencode session"

  /** `isConnected`: a server, a session and an active collector. */
  predicate IsConnected(c: Connection) {
    c.server.Some? && c.session.Some? && c.sseJob.Some? && c.sseJob.value.active
  }

  /**
   * Server and session are set together, an active collector reads the bound
   * server, and a cancelled scope has no active collector.
   */
  predicate Consistent(c: Connection) {
    && c.server.Some? == c.session.Some?
    && (c.sseJob.Some? && c.sseJob.value.active ==> c.server.Some? && c.sseJob.value.address == c.server.value.address)
    && (!c.scopeAlive ==> !(c.sseJob.Some? && c.sseJob.value.active))
  }

  /** In a consistent state the provider is connected exactly while its collector runs. */
  lemma ConnectedIffCollecting(c: Connection)
    requires Consistent(c)
    ensures IsConnected(c) <==> c.sseJob.Some? && c.sseJob.value.active
  {
  }

  /**
   * What `isConnected` and `connectionDesc` report over a provider's life:
   * a fresh provider is disconnected and describes `none`; `connect` binds
   * the session's title, connected exactly while the scope lives; a
   * disposal disconnects and forgets the title; the stream ending
   * disconnects but keeps it.
   */
  lemma ConnectionLifecycle(c: Connection, server: Api.Server, session: Api.Session)
    ensures !IsConnected(Fresh) && ConnectionDesc(Fresh) == "none"
    ensures var n := Connect(c, server, session).conn;
      (IsConnected(n) <==> c.scopeAlive) && ConnectionDesc(n) == session.title
    ensures Collecting(c) ==> var d := Deliver(c, Api.Event(DisposedType)).0;
      !IsConnected(d) && ConnectionDesc(d) == "none"
    ensures !IsConnected(StreamEnded(c)) && ConnectionDesc(StreamEnded(c)) == ConnectionDesc(c)
  {
  }

  /** `connectionDesc`. */
  function ConnectionDesc(c: Connection): string {
    if c.session.Some? then c.session.value.title else "none"
  }

  // ------------------------------------------------------- saved connection

  /** `firstOrNull(p)` on a list, as an index: the first element from `from` on satisfying `p`. */
  function FirstWhere<T>(xs: seq<T>, p: T -> bool, from: nat): (r: Option<nat>)
    requires from <= |xs|
    ensures r.Some? ==> from <= r.value < |xs| && p(xs[r.value])
    ensures r.Some? ==> forall k :: from <= k < r.value ==> !p(xs[k])
    ensures r.None? ==> forall k :: from <= k < |xs| ==> !p(xs[k])
    decreases |xs| - from
  {
    if from == |xs| then None
    else if p(xs[from]) then Some(from)
    else FirstWhere(xs, p, from + 1)
  }

  /** `servers.firstOrNull { it.address == address }`, as an index. */
  function ServerWithAddress(servers: seq<Api.Server>, address: string): (r: Option<nat>)
    ensures r.Some? ==> r.value < |servers| && servers[r.value].address == address
    ensures r.Some? ==> forall k :: 0 <= k < r.value ==> servers[k].address != address
    ensures r.None? ==> forall k :: 0 <= k < |servers| ==> servers[k].address != address
  {
    FirstWhere(servers, (s: Api.Server) => s.address == address, 0)
  }

  /** `getSessions(server.address).getOrNull()?.firstOrNull { it.id == id }`. */
  function SessionOn(env: Env, server: Api.Server, id: string): (r: Option<Api.Session>)
    ensures r.Some? ==> r.value.id == id
    ensures r.Some? <==> env.sessions(server.address).Success? && exists k :: 0 <= k < |env.sessions(server.address).value| && env.sessions(server.address).value[k].id == id
  {
    match env.sessions(server.address)
    case Failure => None
    case Success(list) =>
      match FirstWhere(list, (x: Api.Session) => x.id == id, 0)
      case None => None
      case Some(k) => Some(list[k])
  }

  /** The session listing of `server` succeeds and includes `session`. */
  predicate Listed(env: Env, server: Api.Server, session: Api.Session) {
    env.sessions(server.address).Success? && session in env.sessions(server.address).value
  }

  /**
   * `findSavedConnection`: the first server with the saved address, if it
   * still lists the saved session; otherwise the first server in discovery
   * order that lists it; `None` when no server does.
   */
  function FindSavedConnection(servers: seq<Api.Server>, address: string, sessionId: string, env: Env): (r: Option<(Api.Server, Api.Session)>)
    ensures r.Some? ==> r.value.0 in servers && SessionOn(env, r.value.0, sessionId) == Some(r.value.1)
    ensures r.Some? ==> r.value.1.id == sessionId && Listed(env, r.value.0, r.value.1)
    ensures r.None? <==> forall k :: 0 <= k < |servers| ==> SessionOn(env, servers[k], sessionId).None?
    ensures forall k :: 0 <= k < |servers| && servers[k].address == address && SessionOn(env, servers[k], sessionId).Some?
                        && (forall j :: 0 <= j < k ==> servers[j].address != address)
                        ==> r == Some((servers[k], SessionOn(env, servers[k], sessionId).value))
    ensures r.Some? && r.value.0.address != address ==>
      exists k :: 0 <= k < |servers| && servers[k] == r.value.0
                  && forall j :: 0 <= j < k ==> SessionOn(env, servers[j], sessionId).None?
  {
    var preferred := ServerWithAddress(servers, address);
    if preferred.Some? && SessionOn(env, servers[preferred.value], sessionId).Some? then
      Some((servers[preferred.value], SessionOn(env, servers[preferred.value], sessionId).value))
    else
      match FirstWhere(servers, (s: Api.Server) => SessionOn(env, s, sessionId).Some?, 0)
      case None => None
      case Some(k) =>
        SessionListedOn(env, servers[k], sessionId);
        Some((servers[k], SessionOn(env, servers[k], sessionId).value))
  }

  lemma SessionListedOn(env: Env, server: Api.Server, id: string)
    requires SessionOn(env, server, id).Some?
    ensures Listed(env, server, SessionOn(env, server, id).value)
  {
  }

  // --------------------------------------------------------- nearest server

  /** `filePath.contains(server.path.directory)`. */
  predicate Encloses(server: Api.Server, filePath: string) {
    Contains(filePath, server.path.directory)
  }

  /**
   * A server encloses every path holding its directory anywhere, not only as
   * a prefix: `/ws/app` encloses `/mnt/ws/app/x.kt` and `/ws/app2/x.kt`.
   */
  lemma EnclosesAnywhere(server: Api.Server, before: string, after: string)
    ensures Encloses(server, before + server.path.directory + after)
  {
    var d := server.path.directory;
    var s := before + d + after;
    assert s[|before|..|before| + |d|] == d;
    OccursAtSlice(s, d, |before|);
    OccursAtContains(s, d, |before|);
  }

  /** A directory longer than the path encloses nothing. */
  lemma LongerDirectoryDoesNotEnclose(server: Api.Server, filePath: string)
    requires |server.path.directory| > |filePath|
    ensures !Encloses(server, filePath)
  {
    ContainsIff(filePath, server.path.directory);
  }

  /**
   * Among the servers from `from` on whose directory occurs in `filePath`,
   * the first one with the longest directory: what `sortedByDescending`
   * (a stable sort) followed by `firstOrNull` picks.
   */
  function NearestFrom(servers: seq<Api.Server>, filePath: string, from: nat): (r: Option<nat>)
    requires from <= |servers|
    ensures r.Some? ==> from <= r.value < |servers| && Encloses(servers[r.value], filePath)
    ensures r.Some? ==> forall k :: from <= k < |servers| && Encloses(servers[k], filePath) ==>
      |servers[k].path.directory| <= |servers[r.value].path.directory|
    ensures r.Some? ==> forall k :: from <= k < r.value && Encloses(servers[k], filePath) ==>
      |servers[k].path.directory| < |servers[r.value].path.directory|
    ensures r.None? <==> forall k :: from <= k < |servers| ==> !Encloses(servers[k], filePath)
    decreases |servers| - from
  {
    if from == |servers| then None
    else
      var rest := NearestFrom(servers, filePath, from + 1);
      if Encloses(servers[from], filePath)
         && (rest.None? || |servers[rest.value].path.directory| <= |servers[from].path.directory|)
      then Some(from)
      else rest
  }

  /** The fallback server: the first one without a file path, else the nearest enclosing one. */
  function NearestServer(servers: seq<Api.Server>, filePath: Option<string>): (r: Option<Api.Server>)
    ensures r.Some? ==> r.value in servers
    ensures filePath.None? ==> (r.Some? <==> |servers| > 0) && (r.Some? ==> r.value == servers[0])
    ensures filePath.Some? ==> (r.None? <==> forall k :: 0 <= k < |servers| ==> !Encloses(servers[k], filePath.value))
    ensures filePath.Some? && r.Some? ==> Encloses(r.value, filePath.value)
    ensures filePath.Some? && r.Some? ==>
      forall k :: 0 <= k < |servers| && Encloses(servers[k], filePath.value) ==>
        |servers[k].path.directory| <= |r.value.path.directory|
    ensures filePath.Some? && r.Some? ==>
      exists k :: 0 <= k < |servers| && servers[k] == r.value &&
        forall j :: 0 <= j < k && Encloses(servers[j], filePath.value) ==>
          |servers[j].path.directory| < |r.value.path.directory|
  {
    match filePath
    case None => if |servers| == 0 then None else Some(servers[0])
    case Some(fp) =>
      match NearestFrom(servers, fp, 0)
      case None => None
      case Some(k) => Some(servers[k])
  }

  // ------------------------------------------------------ most recent session

  /** `maxByOrNull { it.time.updated }` from `from` on: the first session with the largest `updated`. */
  function LatestFrom(sessions: seq<Api.Session>, from: nat): (r: Option<nat>)
    requires from <= |sessions|
    ensures r.Some? ==> from <= r.value < |sessions|
    ensures r.Some? ==> forall k :: from <= k < |sessions| ==> sessions[k].time.updated <= sessions[r.value].time.updated
    ensures r.Some? ==> forall k :: from <= k < r.value ==> sessions[k].time.updated < sessions[r.value].time.updated
    ensures r.None? <==> from == |sessions|
    decreases |sessions| - from
  {
    if from == |sessions| then None
    else
      var rest := LatestFrom(sessions, from + 1);
      if rest.None? || sessions[rest.value].time.updated <= sessions[from].time.updated then Some(from)
      else rest
  }

  /** `getSessions(server.address).getOrNull()?.maxByOrNull { it.time.updated }`. */
  function MostRecentSession(env: Env, server: Api.Server): (r: Option<Api.Session>)
    ensures r.Some? ==> Listed(env, server, r.value)
    ensures r.Some? ==> forall s :: s in env.sessions(server.address).value ==> s.time.updated <= r.value.time.updated
    ensures r.None? <==> env.sessions(server.address).Failure? || |env.sessions(server.address).value| == 0
  {
    match env.sessions(server.address)
    case Failure => None
    case Success(list) =>
      match LatestFrom(list, 0)
      case None => None
      case Some(k) => Some(list[k])
  }

  // ---------------------------------------------------------------- connect

  /**
   * `connect`: bind to `server` and `session`, persist the pair, select the
   * session, cancel the previous collector before starting the new one, and
   * announce the session. Starting the collector and announcing are
   * launched in the scope, so once the scope is cancelled neither happens
   * and the new collector job is born cancelled.
   */
  function Connect(c: Connection, server: Api.Server, session: Api.Session): (r: Transition)
    ensures IsConnected(r.conn) <==> c.scopeAlive
    ensures Consistent(r.conn)
    ensures r.conn.server == Some(server) && r.conn.session == Some(session) && r.conn.scopeAlive == c.scopeAlive
    ensures r.saved == Saved(Some(server.address), Some(session.id))
    ensures |r.effects| == (if c.sseJob.Some? then 2 else 1) + (if c.scopeAlive then 2 else 0)
    ensures r.effects[0] == SelectSession(server.address, session.id)
    ensures c.sseJob.Some? ==> r.effects[1] == CancelJob(c.sseJob.value)
    ensures c.scopeAlive ==>
      && r.effects[|r.effects| - 2] == StartEvents(server.address)
      && r.effects[|r.effects| - 1] == Emit(Status("Jetbridge: Connected to opencode session \"" + session.title + "\""))
  {
    var next := Connection(Some(server), Some(session), Some(SseJob(server.address, c.scopeAlive)), c.scopeAlive);
    var cancel := if c.sseJob.Some? then [CancelJob(c.sseJob.value)] else [];
    var launched :=
      if c.scopeAlive then [StartEvents(server.address), Emit(Status("Jetbridge: Connected to opencode session \"" + ConnectionDesc(next) + "\""))]
      else [];
    Transition(
      next,
      Saved(Some(server.address), Some(session.id)),
      [SelectSession(server.address, session.id)] + cancel + launched)
  }

  /** The scope is cancelled, and the collector with it. */
  function CancelScope(c: Connection): (r: Connection)
    ensures !r.scopeAlive && !IsConnected(r)
    ensures r.server == c.server && r.session == c.session
    ensures Consistent(c) ==> Consistent(r)
  {
    var job := if c.sseJob.Some? then Some(c.sseJob.value.(active := false)) else None;
    c.(sseJob := job, scopeAlive := false)
  }

  // ------------------------------------------------------- ensure connected

  /**
   * `ensureConnected(filePath)`: nothing to do when connected; otherwise
   * discover servers, reuse the saved pair when some server still lists the
   * saved session, else take the nearest server and its most recently
   * updated session. On failure nothing changes.
   */
  function EnsureConnected(c: Connection, saved: Saved, env: Env, filePath: Option<string>): (r: Ensured)
    ensures IsConnected(c) ==> r == Ensured(Ready, Transition(c, saved, []))
    ensures r.outcome != Ready ==> r.next == Transition(c, saved, [])
    ensures r.outcome == Ready && (IsConnected(c) || c.scopeAlive) ==> IsConnected(r.next.conn)
    ensures r.next.conn.scopeAlive == c.scopeAlive
    ensures Consistent(c) ==> Consistent(r.next.conn)
    ensures !IsConnected(c) ==> (r.outcome == Threw <==> env.servers.None?)
    ensures !IsConnected(c) && env.servers == Some([]) ==> r.outcome == Unavailable
    ensures !IsConnected(c) && r.outcome == Ready ==>
      && r.next.conn.server.Some? && r.next.conn.session.Some?
      && r.next.conn.server.value in env.servers.value
      && Listed(env, r.next.conn.server.value, r.next.conn.session.value)
      && r.next.saved == Saved(Some(r.next.conn.server.value.address), Some(r.next.conn.session.value.id))
    ensures !IsConnected(c) && env.servers.Some? && saved.lastAddress.Some? && saved.lastSessionId.Some?
            && FindSavedConnection(env.servers.value, saved.lastAddress.value, saved.lastSessionId.value, env).Some? ==>
      var pick := FindSavedConnection(env.servers.value, saved.lastAddress.value, saved.lastSessionId.value, env).value;
      r.outcome == Ready && r.next.conn.server == Some(pick.0) && r.next.conn.session == Some(pick.1)
    ensures !IsConnected(c) && env.servers.Some? && |env.servers.value| > 0
            && (saved.lastAddress.None? || saved.lastSessionId.None?
                || FindSavedConnection(env.servers.value, saved.lastAddress.value, saved.lastSessionId.value, env).None?) ==>
      var nearest := NearestServer(env.servers.value, filePath);
      && (r.outcome == Ready <==> nearest.Some? && MostRecentSession(env, nearest.value).Some?)
      && (r.outcome == Ready ==> r.next.conn.server == nearest && r.next.conn.session == MostRecentSession(env, nearest.value))
  {
    if IsConnected(c) then Ensured(Ready, Transition(c, saved, []))
    else
      match env.servers
      case None => Ensured(Threw, Transition(c, saved, []))
      case Some(servers) =>
        if |servers| == 0 then Ensured(Unavailable, Transition(c, saved, []))
        else
          var savedPick :=
            if saved.lastAddress.Some? && saved.lastSessionId.Some?
            then FindSavedConnection(servers, saved.lastAddress.value, saved.lastSessionId.value, env)
            else None;
          if savedPick.Some? then Ensured(Ready, Connect(c, savedPick.value.0, savedPick.value.1))
          else
            match NearestServer(servers, filePath)
            case None => Ensured(Unavailable, Transition(c, saved, []))
            case Some(server) =>
              match MostRecentSession(env, server)
              case None => Ensured(Unavailable, Transition(c, saved, []))
              case Some(session) => Ensured(Ready, Connect(c, server, session))
  }

  // ------------------------------------------------------------ event loop

  /** The collector is running and will deliver events. */
  predicate Collecting(c: Connection) {
    c.sseJob.Some? && c.sseJob.value.active
  }

  /**
   * The collector's reaction to one event: `server.instance.disposed` cancels
   * the collector and clears server and session; `question.asked` only
   * publishes a notice; other types are ignored. A stopped collector
   * delivers nothing.
   */
  function Deliver(c: Connection, event: Api.Event): (r: (Connection, seq<Effect>))
    ensures !Collecting(c) ==> r == (c, [])
    ensures Collecting(c) && event.eventType == DisposedType ==>
      r.0 == c.(server := None, session := None, sseJob := Some(c.sseJob.value.(active := false))) && r.1 == []
    ensures event.eventType != DisposedType ==> r.0 == c
    ensures Collecting(c) && event.eventType == QuestionType ==> r.1 == [Emit(Notice(QuestionNotice))]
    ensures event.eventType != QuestionType ==> r.1 == []
    ensures Consistent(c) ==> Consistent(r.0)
  {
    if !Collecting(c) then (c, [])
    else if event.eventType == DisposedType then (c.(server := None, session := None, sseJob := Some(c.sseJob.value.(active := false))), [])
    else if event.eventType == QuestionType then (c, [Emit(Notice(QuestionNotice))])
    else (c, [])
  }

  /** The event stream ended (end of input, response code -1 or a read error): the collector completes. */
  function StreamEnded(c: Connection): (r: Connection)
    ensures !Collecting(r) && !IsConnected(r)
    ensures r.server == c.server && r.session == c.session
    ensures Consistent(c) ==> Consistent(r)
  {
    if c.sseJob.Some? then c.(sseJob := Some(c.sseJob.value.(active := false))) else c
  }

  /**
   * The collector could not open the stream: `connect()` or
   * `getInputStream()` threw outside the read loop's `try`. The exception
   * fails the collector's coroutine, which cancels the whole scope.
   */
  function CollectorFailed(c: Connection): (r: Connection)
    ensures Collecting(c) ==> !r.scopeAlive && !IsConnected(r) && r.server == c.server && r.session == c.session
    ensures !Collecting(c) ==> r == c
    ensures Consistent(c) ==> Consistent(r)
  {
    if Collecting(c) then CancelScope(c) else c
  }

  /** How many `question.asked` events come before the first `server.instance.disposed`. */
  function QuestionsBeforeDisposal(events: seq<Api.Event>): nat
    decreases |events|
  {
    if |events| == 0 || events[0].eventType == DisposedType then 0
    else (if events[0].eventType == QuestionType then 1 else 0) + QuestionsBeforeDisposal(events[1..])
  }

  /**
   * Deliver `events` in order; the effects are concatenated. A running
   * collector publishes one notice per question asked before the server is
   * disposed, and nothing else; without a disposal the connection stays.
   */
  function RunEvents(c: Connection, events: seq<Api.Event>): (r: (Connection, seq<Effect>))
    ensures Consistent(c) ==> Consistent(r.0)
    ensures !Collecting(c) ==> r == (c, [])
    ensures (exists k :: 0 <= k < |events| && events[k].eventType == DisposedType) ==> !IsConnected(r.0)
    ensures forall k :: 0 <= k < |r.1| ==> r.1[k] == Emit(Notice(QuestionNotice))
    ensures Collecting(c) ==> |r.1| == QuestionsBeforeDisposal(events)
    ensures (forall k :: 0 <= k < |events| ==> events[k].eventType != DisposedType) ==> r.0 == c
    decreases |events|
  {
    if |events| == 0 then (c, [])
    else
      var (c1, e1) := Deliver(c, events[0]);
      var (c2, e2) := RunEvents(c1, events[1..]);
      assert forall k :: 1 <= k < |events| ==> events[1..][k - 1] == events[k];
      assert e1 == [] && e2 == [] ==> e1 + e2 == [];
      (c2, e1 + e2)
  }

  /** Delivering `a + b` is delivering `a`, then `b` from where `a` left off. */
  lemma {:induction false} RunEventsAppend(c: Connection, a: seq<Api.Event>, b: seq<Api.Event>)
    ensures RunEvents(c, a + b) == (RunEvents(RunEvents(c, a).0, b).0, RunEvents(c, a).1 + RunEvents(RunEvents(c, a).0, b).1)
    decreases |a|
  {
    if |a| == 0 {
      assert a + b == b;
      assert RunEvents(c, a) == (c, []);
      assert [] + RunEvents(c, b).1 == RunEvents(c, b).1;
    } else {
      assert (a + b)[0] == a[0];
      assert (a + b)[1..] == a[1..] + b;
      var (c1, e1) := Deliver(c, a[0]);
      RunEventsAppend(c1, a[1..], b);
      var (ca, ea) := RunEvents(c1, a[1..]);
      var (cb, eb) := RunEvents(ca, b);
      assert RunEvents(c, a + b) == (cb, e1 + (ea + eb));
      assert RunEvents(c, a) == (ca, e1 + ea);
      assert e1 + (ea + eb) == (e1 + ea) + eb;
    }
  }

  /**
   * After the server announces its disposal, the next `ensureConnected`
   * does not reuse the old binding: it discovers servers again, and a
   * failed discovery is reported rather than answered from the stale state.
   */
  lemma DisposalForcesRediscovery(c: Connection, saved: Saved, env: Env, filePath: Option<string>)
    requires IsConnected(c)
    ensures var c1 := Deliver(c, Api.Event(DisposedType)).0;
      && !IsConnected(c1) && c1.server.None? && c1.session.None?
      && (EnsureConnected(c1, saved, env, filePath).outcome == Threw <==> env.servers.None?)
      && (env.servers == Some([]) ==> EnsureConnected(c1, saved, env, filePath).outcome == Unavailable)
  {
  }

  // ----------------------------------------------------------------- prompt

  /**
   * The request `prompt` sends once bound to `server` and `session`: the
   * macros expand against the server's directory, the agent comes from the
   * expanded text, and the text sent is the expanded text cleaned.
   */
  function PromptRequestFor(server: Api.Server, session: Api.Session, rawPrompt: string, snapshot: ContextSnapshot): (r: Api.PromptRequest)
    ensures var expanded := ExpandInlineMacros(rawPrompt, server.path.directory, snapshot);
      && r.body.agent == ExtractAgent(expanded)
      && r.body.parts == [Api.MessagePart(CleanAllMacros(expanded), "text")]
    ensures r.url == "http://" + server.address + "/session/" + session.id + "/prompt_async"
    ensures '/' !in server.address && '/' !in session.id ==>
      Api.PromptUrlParts(r.url) == Some((server.address, session.id))
  {
    var expanded := ExpandInlineMacros(rawPrompt, server.path.directory, snapshot);
    Api.BuildPromptRequest(server.address, session.id, CleanAllMacros(expanded), ExtractAgent(expanded))
  }

  /**
   * Order effect: the agent is read before cleaning deletes the selector, so
   * a leading `@a:<word>` names the agent and is absent from the text sent.
   */
  lemma SelectorIsReadBeforeCleaning(server: Api.Server, session: Api.Session, w: string, rest: string, snapshot: ContextSnapshot)
    requires |w| > 0 && forall k :: 0 <= k < |w| ==> IsWordChar(w[k])
    requires '@' !in rest
    ensures var r := PromptRequestFor(server, session, AgentPrefix + w + " " + rest, snapshot);
      r.body.agent == Some(w) && r.body.parts == [Api.MessagePart(Trim(rest), "text")]
  {
    var raw := AgentPrefix + w + " " + rest;
    var b := " " + rest;
    assert ExpandInlineMacros(raw, server.path.directory, snapshot) == raw by {
      assert raw == AgentPrefix + w + b;
      SelectorHoldsNoToken(w, b);
    }
    assert ExtractAgent(raw) == Some(w) by {
      assert raw == AgentPrefix + w + b;
      LeadingSelectorNamesAgent(w, b);
    }
    assert CleanAllMacros(raw) == Trim(rest) by {
      assert raw == "" + (AgentPrefix + w) + b;
      CleanRemovesLoneSelector("", w, b);
      TrimSkipsLeadingSpace(' ', rest);
      assert "" + b == [' '] + rest;
    }
  }

  /** A selector followed by text without `@` holds no expansion token. */
  lemma SelectorHoldsNoToken(w: string, b: string)
    requires forall k :: 0 <= k < |w| ==> IsWordChar(w[k])
    requires '@' !in b
    ensures var raw := AgentPrefix + w + b;
      !Contains(raw, "@this") && !Contains(raw, "@these") && !Contains(raw, "@file")
  {
    var raw := AgentPrefix + w + b;
    SelectorTailHasNoAt(w);
    assert raw[1..] == (AgentPrefix + w)[1..] + b;
    assert raw[1] == 'a';
    NotContainsExceptAtStart(raw, "@this");
    NotContainsExceptAtStart(raw, "@these");
    NotContainsExceptAtStart(raw, "@file");
  }

  /**
   * Order effect: the agent is read after expansion, so `@this` in a file
   * under a directory named `@build` selects the build agent although the
   * typed text alone selects plan.
   */
  lemma BuildDirectorySwitchesAgent(server: Api.Server, session: Api.Session, x: string, snapshot: ContextSnapshot)
    requires snapshot.filePath == Some(server.path.directory + "/" + "@build/" + x)
    requires '@' !in x && '@' !in snapshot.selectionDesc
    ensures ExtractAgent("@this") == Some("plan")
    ensures PromptRequestFor(server, session, "@this", snapshot).body.agent == Some("build")
  {
    var v := BuildDirectoryExpansion(server.path.directory, x, snapshot);
    assert ExtractAgent(v) == Some("build") by {
      ExtractAgentOfBuildValue(v);
    }
    ThisAloneSelectsPlan();
  }

  /** The typed text `@this` has neither `@a:` nor `@build`. */
  lemma ThisAloneSelectsPlan()
    ensures ExtractAgent("@this") == Some("plan")
  {
    NotContainsWithout("@this", AgentPrefix, 1);
    NotContainsWithout("@this", "@build", 1);
  }

  /** `@this` in such a file expands to `@@build/...` with no other `@`. */
  lemma BuildDirectoryExpansion(root: string, x: string, snapshot: ContextSnapshot) returns (v: string)
    requires snapshot.filePath == Some(root + "/" + "@build/" + x)
    requires '@' !in x && '@' !in snapshot.selectionDesc
    ensures ExpandInlineMacros("@this", root, snapshot) == v
    ensures |v| > 7 && v[..7] == "@@build" && '@' !in v[3..]
  {
    var rel := "@build/" + x;
    BuildRelativePath(root, x);
    v := SelectionValue(rel, snapshot);
    var tail := BuildValueShape(x, snapshot.selectionDesc);
    assert ExpandInlineMacros("@this", root, snapshot) == ReplaceAll(ReplaceAll(ReplaceAll("@this", "@this", v), "@these", v), "@file", FileValue(rel)) by {
      ExpandIsSequentialReplacement("@this", root, snapshot);
    }
    assert ReplaceAll("@this", "@this", v) == v by {
      ReplaceWhole("@this", v);
    }
    assert ReplaceAll(v, "@these", v) == v by {
      BuildValueHoldsNoOther(tail, "@these");
    }
    assert ReplaceAll(v, "@file", FileValue(rel)) == v by {
      BuildValueHoldsNoOther(tail, "@file");
    }
  }

  /** A file under `@build/` directly below the root has relative path `@build/...`. */
  lemma BuildRelativePath(root: string, x: string)
    ensures RelativePath(root + "/" + "@build/" + x, root) == "@build/" + x
  {
    var rel := "@build/" + x;
    assert root + "/" + "@build/" + x == root + "/" + rel;
    assert rel[0] == '@';
    RelativePathOfChild(root, "/", rel);
  }

  /** The shape of the value `@this` takes for a file under `@build/`. */
  lemma BuildValueShape(x: string, desc: string) returns (tail: string)
    requires '@' !in x && '@' !in desc
    ensures "@" + ("@build/" + x) + " " + desc == "@@" + tail
    ensures |tail| > 5 && tail[0] == 'b' && '@' !in tail[1..]
    ensures var v := "@@" + tail; |v| > 7 && v[..7] == "@@build" && '@' !in v[3..]
  {
    tail := "build/" + x + " " + desc;
    assert tail[1..] == "uild/" + x + " " + desc;
    assert ("@@" + tail)[3..] == tail[1..];
  }


  /** The agent of an `@@build...` text without further `@` is `build`. */
  lemma ExtractAgentOfBuildValue(v: string)
    requires |v| > 7 && v[..7] == "@@build" && '@' !in v[3..]
    ensures ExtractAgent(v) == Some("build")
  {
    var tail := v[2..];
    assert v == "@@" + tail && tail[1..] == v[3..];
    BuildValueHoldsNoOther(tail, AgentPrefix);
    assert v[1..7] == "@build";
    OccursAtSlice(v, "@build", 1);
    OccursAtContains(v, "@build", 1);
  }

  /**
   * In `@@build/...` with no further `@`, a pattern `@` followed by neither
   * `@` nor `b` does not occur.
   */
  lemma BuildValueHoldsNoOther(tail: string, pat: string)
    requires |tail| > 0 && tail[0] == 'b' && '@' !in tail[1..]
    requires |pat| > 1 && pat[0] == '@' && pat[1] != '@' && pat[1] != 'b'
    ensures !Contains("@@" + tail, pat)
  {
    var v := "@@" + tail;
    forall i: nat ensures !OccursAt(v, pat, i) {
      OccursAtChar(v, pat, i, 0);
      OccursAtChar(v, pat, i, 1);
      if 3 <= i < |v| {
        assert v[i] == tail[1..][i - 3];
      }
    }
    ContainsIff(v, pat);
  }


  /** What `prompt` does after `ensureConnected` answered `e`. */
  function PromptAfter(e: Ensured, env: Env, rawPrompt: string, snapshot: ContextSnapshot): (r: Transition)
    requires e.outcome == Ready ==> IsConnected(e.next.conn)
    ensures r.conn == e.next.conn && r.saved == e.next.saved
    ensures |r.effects| == |e.next.effects| + 1 && r.effects[..|e.next.effects|] == e.next.effects
    ensures e.outcome == Unavailable ==> r.effects[|r.effects| - 1] == Emit(Error(NoInstanceError, false))
    ensures e.outcome == Threw ==> r.effects[|r.effects| - 1] == Emit(Error(PromptFailedError, false))
    ensures e.outcome == Ready ==>
      var request := PromptRequestFor(e.next.conn.server.value, e.next.conn.session.value, rawPrompt, snapshot);
      r.effects[|r.effects| - 1] == if env.acceptsUri(request.url) then Send(request) else Emit(Error(PromptFailedError, false))
  {
    var n := e.next;
    match e.outcome
    case Threw => Transition(n.conn, n.saved, n.effects + [Emit(Error(PromptFailedError, false))])
    case Unavailable => Transition(n.conn, n.saved, n.effects + [Emit(Error(NoInstanceError, false))])
    case Ready =>
      var request := PromptRequestFor(n.conn.server.value, n.conn.session.value, rawPrompt, snapshot);
      if env.acceptsUri(request.url) then Transition(n.conn, n.saved, n.effects + [Send(request)])
      else Transition(n.conn, n.saved, n.effects + [Emit(Error(PromptFailedError, false))])
  }

  /**
   * `prompt`: ensure a connection for the snapshot's file, then send the
   * prompt to the bound session. Failing to connect publishes one error, an
   * exception (from discovery or `URI.create`) another; neither sends. The
   * send result is not inspected, and `prompt` never unbinds the session.
   * In a cancelled scope the launched body never runs.
   */
  function Prompt(c: Connection, saved: Saved, env: Env, rawPrompt: string, snapshot: ContextSnapshot): (r: Transition)
    ensures !c.scopeAlive ==> r == Transition(c, saved, [])
    ensures c.scopeAlive ==> r == PromptAfter(EnsureConnected(c, saved, env, snapshot.filePath), env, rawPrompt, snapshot)
    ensures Consistent(c) ==> Consistent(r.conn)
    ensures |r.effects| > 0 <==> c.scopeAlive
    ensures |r.effects| > 0 && r.effects[|r.effects| - 1].Send? ==> IsConnected(r.conn)
    ensures IsConnected(c) && c.scopeAlive ==> r.conn == c && r.saved == saved && |r.effects| == 1
  {
    if !c.scopeAlive then Transition(c, saved, [])
    else PromptAfter(EnsureConnected(c, saved, env, snapshot.filePath), env, rawPrompt, snapshot)
  }

  /**
   * `reconnect(projectPath)`: ensure a connection; report when none can be
   * made. Nothing catches an exception from discovery: it fails the launched
   * coroutine and so cancels the provider's scope, publishing nothing. In a
   * cancelled scope `reconnect` does nothing at all.
   */
  function Reconnect(c: Connection, saved: Saved, env: Env, projectPath: Option<string>): (r: Transition)
    ensures !c.scopeAlive ==> r == Transition(c, saved, [])
    ensures c.scopeAlive ==> var e := EnsureConnected(c, saved, env, projectPath);
      && r.saved == e.next.saved
      && (e.outcome == Threw ==> r.conn == CancelScope(c) && r.effects == [])
      && (e.outcome != Threw ==> r.conn == e.next.conn)
      && (e.outcome == Unavailable ==> r.effects == [Emit(Error(NoSessionError, false))])
      && (e.outcome == Ready ==> r.effects == e.next.effects)
    ensures IsConnected(c) ==> r == Transition(c, saved, [])
    ensures Consistent(c) ==> Consistent(r.conn)
  {
    if !c.scopeAlive then Transition(c, saved, [])
    else
      var e := EnsureConnected(c, saved, env, projectPath);
      match e.outcome
      case Threw => Transition(CancelScope(c), saved, [])
      case Unavailable => Transition(e.next.conn, e.next.saved, e.next.effects + [Emit(Error(NoSessionError, false))])
      case Ready => e.next
  }

  /**
   * A `reconnect` whose discovery throws (say `pgrep` cannot be started)
   * leaves the provider dead: every later `prompt` and `reconnect` does
   * nothing, whatever the world then looks like.
   */
  lemma FailedDiscoverySilencesProvider(c: Connection, saved: Saved, env: Env, projectPath: Option<string>,
                                        later: Env, rawPrompt: string, snapshot: ContextSnapshot)
    requires c.scopeAlive && !IsConnected(c) && env.servers.None?
    ensures var r := Reconnect(c, saved, env, projectPath);
      && !r.conn.scopeAlive && r.effects == [] && !IsConnected(r.conn)
      && Prompt(r.conn, r.saved, later, rawPrompt, snapshot) == Transition(r.conn, r.saved, [])
      && Reconnect(r.conn, r.saved, later, projectPath) == Transition(r.conn, r.saved, [])
  {
  }

  /**
   * A collector that cannot open the event stream cancels the scope: the
   * provider is no longer connected, and later prompts do nothing.
   */
  lemma CollectorFailureSilencesPrompts(c: Connection, saved: Saved, env: Env, rawPrompt: string, snapshot: ContextSnapshot)
    requires Collecting(c)
    ensures var c1 := CollectorFailed(c);
      && !IsConnected(c1) && c1.server == c.server && c1.session == c.session
      && Prompt(c1, saved, env, rawPrompt, snapshot) == Transition(c1, saved, [])
  {
  }
}
