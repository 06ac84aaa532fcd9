/**
 The fatal-error guard (`Codeacious\Stdlib\FatalErrorHandler`): a
 process-wide registration flag and error-page override, the classification
 of the runtime's last error as fatal, and the decision of what HTTP
 response to emit. Every host interaction is an input: the last error record
 is an optional value, and the SAPI name, the error-reporting level, whether
 headers were sent and the readable files are fields of an environment.
 */
module FatalErrorHandler {
  import opened Options

  // PHP error levels.
  const E_ERROR: int := 1
  const E_WARNING: int := 2
  const E_PARSE: int := 4
  const E_NOTICE: int := 8
  const E_CORE_ERROR: int := 16
  const E_CORE_WARNING: int := 32
  const E_COMPILE_ERROR: int := 64
  const E_COMPILE_WARNING: int := 128
  const E_USER_ERROR: int := 256
  const E_USER_WARNING: int := 512
  const E_USER_NOTICE: int := 1024
  const E_STRICT: int := 2048
  const E_RECOVERABLE_ERROR: int := 4096
  const E_DEPRECATED: int := 8192
  const E_USER_DEPRECATED: int := 16384
  const E_ALL: int := 32767

  /** Every single PHP error level. */
  const ErrorLevels: seq<int> := [
    E_ERROR, E_WARNING, E_PARSE, E_NOTICE, E_CORE_ERROR, E_CORE_WARNING, E_COMPILE_ERROR,
    E_COMPILE_WARNING, E_USER_ERROR, E_USER_WARNING, E_USER_NOTICE, E_STRICT,
    E_RECOVERABLE_ERROR, E_DEPRECATED, E_USER_DEPRECATED
  ]

  /** The error types the handler lists as fatal. */
  const FatalErrorTypes: seq<int> := [
    E_ERROR, E_PARSE, E_CORE_ERROR, E_COMPILE_ERROR, E_RECOVERABLE_ERROR, E_USER_ERROR
  ]

  /** The type HHVM reports for an unhandled exception. */
  const HhvmUnhandledException: int := 0

  /** Stand-in for the directory holding the handler's class file. */
  const ClassDirectory: string := "src/Codeacious/Stdlib"

  /** The bundled error document used when no override is configured. */
  const DefaultErrorPage: string := ClassDirectory + "/FatalErrorHandler/errorPage.html"

  /** The status line sent when headers are still open. */
  const StatusLine: string := "HTTP/1.1 500 Internal Server Error"

  /** The body written when the error document cannot be used. */
  const InlineMessage: string :=
    "<p style=\"color: red; font-weight: bold\">Sorry, this website has encountered a fatal error.</p>"

  // ---------------------------------------------------------------------
  // Registration state and the error-page override
  // ---------------------------------------------------------------------

  /**
   The process-wide state: whether `start` ran, the configured error page
   (None for PHP's null) and how many shutdown callbacks were registered.
   */
  datatype GuardState = GuardState(isRegistered: bool, errorPage: Option<string>, shutdownCallbacks: nat)

  const Initial: GuardState := GuardState(false, None, 0)

  /** The state invariant: one callback exactly when registered, none before. */
  ghost predicate Valid(s: GuardState) {
    s.shutdownCallbacks == (if s.isRegistered then 1 else 0)
  }

  /** `start`: registers the shutdown callback unless already registered. */
  function Start(s: GuardState): (t: GuardState)
    ensures t.isRegistered
    ensures t.errorPage == s.errorPage
    ensures s.isRegistered ==> t == s
    ensures !s.isRegistered ==> t.shutdownCallbacks == s.shutdownCallbacks + 1
    ensures Valid(s) ==> Valid(t)
  {
    if s.isRegistered then s
    else s.(shutdownCallbacks := s.shutdownCallbacks + 1, isRegistered := true)
  }

  /** `started`: in every reachable state, true exactly when a shutdown callback is registered. */
  function Started(s: GuardState): (started: bool)
    ensures Valid(s) ==> (started <==> s.shutdownCallbacks == 1)
    ensures Valid(s) ==> (!started <==> s.shutdownCallbacks == 0)
  {
    s.isRegistered
  }

  /** `setErrorPage`: stores the override as given, null included. */
  function SetErrorPage(s: GuardState, page: Option<string>): (t: GuardState)
    ensures t.errorPage == page
    ensures t.isRegistered == s.isRegistered && t.shutdownCallbacks == s.shutdownCallbacks
  {
    s.(errorPage := page)
  }

  /** PHP's `empty()` on a string or null: null, "" and "0" are empty. */
  predicate IsEmpty(v: Option<string>) {
    v.None? || v.value == "" || v.value == "0"
  }

  /** `getErrorPage`: the override when it is not empty, else the bundled page. */
  function GetErrorPage(s: GuardState): (path: string)
    ensures path == DefaultErrorPage || Some(path) == s.errorPage
    ensures path != "" && path != "0"
  {
    if !IsEmpty(s.errorPage) then s.errorPage.value else DefaultErrorPage
  }

  /**
   A non-empty override is the page in use; the empty string, "0", null and
   the initial state give the bundled page.
   */
  lemma ErrorPageAfterSet(s: GuardState, page: string)
    ensures page != "" && page != "0" ==> GetErrorPage(SetErrorPage(s, Some(page))) == page
    ensures page == "" || page == "0" ==> GetErrorPage(SetErrorPage(s, Some(page))) == DefaultErrorPage
    ensures GetErrorPage(SetErrorPage(s, None)) == DefaultErrorPage
    ensures GetErrorPage(Initial) == DefaultErrorPage
  {
  }

  /** The operations that change the guard state. */
  datatype Op = StartOp | SetErrorPageOp(page: Option<string>)

  function Apply(s: GuardState, op: Op): GuardState {
    match op
    case StartOp => Start(s)
    case SetErrorPageOp(page) => SetErrorPage(s, page)
  }

  /** The state after performing `ops` in order. */
  function Run(s: GuardState, ops: seq<Op>): GuardState
    decreases |ops|
  {
    if |ops| == 0 then s else Run(Apply(s, ops[0]), ops[1..])
  }

  /** No operation ever unregisters the guard. */
  lemma {:induction false} RunKeepsRegistered(s: GuardState, ops: seq<Op>)
    requires s.isRegistered
    ensures Run(s, ops).isRegistered
    decreases |ops|
  {
    if |ops| > 0 {
      RunKeepsRegistered(Apply(s, ops[0]), ops[1..]);
    }
  }

  /** Every run preserves the one-callback invariant. */
  lemma {:induction false} RunKeepsValid(s: GuardState, ops: seq<Op>)
    requires Valid(s)
    ensures Valid(Run(s, ops))
    decreases |ops|
  {
    if |ops| > 0 {
      RunKeepsValid(Apply(s, ops[0]), ops[1..]);
    }
  }

  /** From any state, a run registers the guard exactly when it was registered or the run calls `start`. */
  lemma {:induction false} RunRegisters(s: GuardState, ops: seq<Op>)
    ensures Run(s, ops).isRegistered <==> (s.isRegistered || StartOp in ops)
    decreases |ops|
  {
    if |ops| > 0 {
      RunRegisters(Apply(s, ops[0]), ops[1..]);
      assert ops == [ops[0]] + ops[1..];
    }
  }

  /**
   From the initial state, `started` is true exactly when `start` was called,
   and then exactly one shutdown callback is registered, however many times
   `start` ran.
   */
  lemma StartedIffStartCalled(ops: seq<Op>)
    ensures Started(Run(Initial, ops)) <==> StartOp in ops
    ensures Run(Initial, ops).shutdownCallbacks == (if StartOp in ops then 1 else 0)
  {
    RunRegisters(Initial, ops);
    RunKeepsValid(Initial, ops);
  }

  /** Calls `start` `n` times in a row. */
  method StartRepeatedly(s: GuardState, n: nat) returns (t: GuardState)
    ensures n == 0 ==> t == s
    ensures n >= 1 ==> t.isRegistered
    ensures n >= 1 ==> t.shutdownCallbacks == s.shutdownCallbacks + (if s.isRegistered then 0 else 1)
    ensures t.errorPage == s.errorPage
  {
    t := s;
    var i := 0;
    while i < n
      invariant i <= n
      invariant i == 0 ==> t == s
      invariant i >= 1 ==> t == Start(s)
    {
      t := Start(t);
      i := i + 1;
    }
  }

  // ---------------------------------------------------------------------
  // Classification of the last error
  // ---------------------------------------------------------------------

  /** `type & E_ERROR` on a PHP integer: the low bit of its two's complement form. */
  predicate HasErrorBit(errorType: int) {
    errorType % 2 == 1
  }

  /**
   The fatal test of `checkForFatalErrors`. Since E_ERROR is odd, the list
   adds only its even levels to the bit test: a type is fatal exactly when it
   is odd, or one of E_PARSE, E_CORE_ERROR, E_COMPILE_ERROR, E_USER_ERROR,
   E_RECOVERABLE_ERROR, or the HHVM sentinel 0.
   */
  function IsFatal(errorType: int): (fatal: bool)
    ensures fatal <==> (|| errorType % 2 == 1
                        || errorType in {HhvmUnhandledException, E_PARSE, E_CORE_ERROR,
                                         E_COMPILE_ERROR, E_USER_ERROR, E_RECOVERABLE_ERROR})
    ensures errorType in ErrorLevels ==> (fatal <==> errorType in FatalErrorTypes)
  {
    HasErrorBit(errorType) || errorType in FatalErrorTypes || errorType == HhvmUnhandledException
  }

  /**
   The HHVM sentinel 0 and every mask containing E_ERROR, E_ALL among them,
   are fatal. (On single levels, `IsFatal` itself states that the fatal ones
   are exactly the listed ones.)
   */
  lemma FatalLevels()
    ensures forall t :: HasErrorBit(t) ==> IsFatal(t)
    ensures IsFatal(HhvmUnhandledException) && IsFatal(E_ALL)
  {
  }

  /** A last-error record: the type may be missing, the other fields are present. */
  datatype ErrorRecord = ErrorRecord(errorType: Option<int>, message: string, file: string, line: int)

  /** The arguments passed to `handlePHPError`. */
  datatype HandlerCall = HandlerCall(severity: int, message: string, file: string, line: int)

  /**
   The handler call `checkForFatalErrors` makes for the last error, if any:
   None when there is no record, the record has no type, or the type is not
   fatal.
   */
  function FatalCall(last: Option<ErrorRecord>): (c: Option<HandlerCall>)
    ensures c.Some? <==> last.Some? && last.value.errorType.Some? && IsFatal(last.value.errorType.value)
    ensures c.Some? ==> (&& c.value.severity == last.value.errorType.value
                         && c.value.message == last.value.message
                         && c.value.file == last.value.file
                         && c.value.line == last.value.line)
  {
    match last
    case None => None
    case Some(e) =>
      match e.errorType
      case None => None
      case Some(t) => if IsFatal(t) then Some(HandlerCall(t, e.message, e.file, e.line)) else None
  }

  // ---------------------------------------------------------------------
  // The response decision
  // ---------------------------------------------------------------------

  /**
   What the handler observes of its host: the SAPI name, the current
   `error_reporting()` level, whether headers were sent, and the contents of
   every readable file by path.
   */
  datatype Environment = Environment(sapi: string, errorReporting: int, headersSent: bool, readableFiles: map<string, string>)

  /** The observable effect on the response: a status line set, a body written, the output flushed. */
  datatype Response = Response(status: Option<string>, body: Option<string>, flushed: bool)

  /** The return value of the handler and its effect. */
  datatype HandleResult = HandleResult(handled: bool, response: Response)

  /** The handler stays silent on the command line and when error reporting is off. */
  predicate Silenced(env: Environment) {
    env.sapi == "cli" || env.errorReporting == 0
  }

  /** `handlePHPError`. */
  function HandlePHPError(s: GuardState, env: Environment, call: HandlerCall): (r: HandleResult)
    ensures !r.handled
    ensures Silenced(env) ==> r.response == Response(None, None, false)
    ensures r.response.body.Some? <==> !Silenced(env)
    ensures r.response.flushed <==> r.response.body.Some?
    ensures r.response.status.Some? <==> !Silenced(env) && !env.headersSent
    ensures r.response.status.Some? ==> r.response.status.value == StatusLine
    ensures r.response.status.Some? && GetErrorPage(s) in env.readableFiles ==>
              r.response.body == Some(env.readableFiles[GetErrorPage(s)])
    ensures !Silenced(env) && (env.headersSent || GetErrorPage(s) !in env.readableFiles) ==>
              r.response.body == Some(InlineMessage)
  {
    if env.sapi == "cli" then
      HandleResult(false, Response(None, None, false))
    else if env.errorReporting == 0 then
      HandleResult(false, Response(None, None, false))
    else
      var status := if !env.headersSent then Some(StatusLine) else None;
      var errorPage := GetErrorPage(s);
      var body := if !env.headersSent && errorPage in env.readableFiles
                  then env.readableFiles[errorPage]
                  else InlineMessage;
      HandleResult(false, Response(status, Some(body), true))
  }

  /** The response does not depend on the error being handled. */
  lemma HandlerIgnoresError(s: GuardState, env: Environment, c1: HandlerCall, c2: HandlerCall)
    ensures HandlePHPError(s, env, c1) == HandlePHPError(s, env, c2)
  {
  }

  /** A custom error document is only ever served together with the 500 status. */
  lemma ErrorPageOnlyWithStatus(s: GuardState, env: Environment, call: HandlerCall)
    requires HandlePHPError(s, env, call).response.body.Some?
    requires HandlePHPError(s, env, call).response.body.value != InlineMessage
    ensures HandlePHPError(s, env, call).response.status == Some(StatusLine)
    ensures GetErrorPage(s) in env.readableFiles
    ensures HandlePHPError(s, env, call).response.body.value == env.readableFiles[GetErrorPage(s)]
  {
  }

  /** `checkForFatalErrors`: the handler's result when the last error is fatal, None when it is not invoked. */
  function CheckForFatalErrors(s: GuardState, last: Option<ErrorRecord>, env: Environment): (r: Option<HandleResult>)
    ensures r.Some? <==> FatalCall(last).Some?
    ensures r.Some? ==> r.value == HandlePHPError(s, env, FatalCall(last).value)
    ensures r.Some? ==> !r.value.handled
    ensures r.Some? ==> (r.value.response.body.Some? <==> !Silenced(env))
  {
    match FatalCall(last)
    case None => None
    case Some(call) => Some(HandlePHPError(s, env, call))
  }

  /**
   Process exit: the registered shutdown callback, if any, runs
   `checkForFatalErrors` once. Each entry is that run's outcome.
   */
  function Shutdown(s: GuardState, last: Option<ErrorRecord>, env: Environment): (rs: seq<Option<HandleResult>>)
    requires Valid(s)
    ensures |rs| == (if s.isRegistered then 1 else 0)
    ensures forall r :: r in rs ==> r == CheckForFatalErrors(s, last, env)
    ensures forall r :: r in rs ==> (r.Some? <==> FatalCall(last).Some?)
    ensures forall r :: r in rs && r.Some? ==>
              !r.value.handled && (r.value.response.body.Some? <==> !Silenced(env))
  {
    if s.isRegistered then [CheckForFatalErrors(s, last, env)] else []
  }

  /**
   However often `start` was called, exit runs one callback when the guard
   was started and none otherwise, and that run invokes the handler exactly
   when the last error is fatal: a fatal error yields at most one response.
   */
  lemma AtMostOneResponse(ops: seq<Op>, last: Option<ErrorRecord>, env: Environment)
    ensures Valid(Run(Initial, ops))
    ensures |Shutdown(Run(Initial, ops), last, env)| == (if StartOp in ops then 1 else 0)
    ensures forall r :: r in Shutdown(Run(Initial, ops), last, env) ==> (r.Some? <==> FatalCall(last).Some?)
  {
    StartedIffStartCalled(ops);
    RunKeepsValid(Initial, ops);
  }
}
