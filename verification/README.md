# Codeacious Stdlib: nested array paths and the fatal-error guard

This Dafny project models two small PHP utilities from `Codeacious\Stdlib`.

- **ArrayTool**: reads values from nested arrays by a colon-separated key path.
  `getValueAtPath` splits the path the way `explode(':', …)` does. It then
  walks the array one segment at a time. If the current value is not an array,
  or the array lacks the segment, it returns the caller's default.
  `getArrayAtPath` narrows the result to "the array found, or the empty array".
- **FatalErrorHandler**: a process-wide guard. `start` registers a shutdown
  callback exactly once. At exit, `checkForFatalErrors` classifies the
  runtime's last error. For a fatal error it calls `handlePHPError`, which
  always returns false. On the command line, or when error reporting is 0,
  it does nothing else. Otherwise it sends `500 Internal Server Error` while
  headers are still open (section 15.6.1 of RFC 9110). It then writes one
  body and flushes. The body is the error page in use (the override, or
  the bundled page) when headers were unsent and that page is readable.
  Otherwise it is an inline message.

Files:

- `options.dfy` defines `Option`.
- `key_path.dfy` defines the path split and its inverse join.
- `array_tool.dfy` defines PHP values as a tree, `Value = Leaf(scalar) | Arr(map<string, Value>)`.
  It also holds a reference lookup `Find` and the two operations as methods.
- `fatal_error_handler.dfy` holds the rest of the guard:
  - the guard state record: registration flag, error-page override and a count of registered callbacks
  - its operations, and runs of those operations
  - the fatal classification
  - the response decision

The host runtime is replaced by inputs:
- The last error is an `Option<ErrorRecord>`.
- `PHP_SAPI`, `error_reporting()` and `headers_sent()` are fields of an
  `Environment`.
- The filesystem is a map from each readable file's path to its contents.

The response is a value that records three things: the status line set, the one
body written (if any), and whether output was flushed.

## Model

| member | source | states |
|---|---|---|
| KeyPath.Split | src/Codeacious/Stdlib/ArrayTool.php:21 | Splitting a path on ':' always gives at least one segment, and no segment contains ':'. |
| KeyPath.JoinSplit | src/Codeacious/Stdlib/ArrayTool.php:21 | Joining the segments of a path with ':' gives back the path. |
| KeyPath.SplitJoin | src/Codeacious/Stdlib/ArrayTool.php:21 | Joining a non-empty list of colon-free segments and splitting the result gives the same list back. |
| KeyPath.SplitInjective | src/Codeacious/Stdlib/ArrayTool.php:21 | Two paths with the same segments are the same path. |
| KeyPath.SplitConcat | src/Codeacious/Stdlib/ArrayTool.php:21 | The segments of `p:q` are the segments of `p` followed by those of `q`. |
| KeyPath.EmptyPathIsOneEmptySegment | src/Codeacious/Stdlib/ArrayTool.php:21 | The empty path is the single segment "", not an empty list. |
| ArrayTool.GetValueAtPath | src/Codeacious/Stdlib/ArrayTool.php:19-28 | The result is the value found at the path if the lookup succeeds, and exactly the default otherwise. |
| ArrayTool.GetArrayAtPath | src/Codeacious/Stdlib/ArrayTool.php:35-41 | The result is the array found at the path when there is one. It is the empty array when the path is missing or leads to a scalar. |
| ArrayTool.FindAppend | src/Codeacious/Stdlib/ArrayTool.php:21-27 | A walk along `p + q` equals a walk along `p` that continues along `q` from the value reached. |
| ArrayTool.TrailIsFound | src/Codeacious/Stdlib/ArrayTool.php:21-27 | Suppose every segment exists and each intermediate value is an array. Then the lookup yields the nested value at the last segment. |
| ArrayTool.FoundHasTrail | src/Codeacious/Stdlib/ArrayTool.php:21-27 | Conversely, every successful lookup passes through arrays that each hold the next segment. |
| ArrayTool.MissingSegmentFails | src/Codeacious/Stdlib/ArrayTool.php:23-24 | If a segment is absent from the array reached so far, the lookup fails, so the default is returned. |
| ArrayTool.ScalarIntermediateFails | src/Codeacious/Stdlib/ArrayTool.php:23-24 | If a scalar is reached before the segments run out, the lookup fails, whatever the remaining segments are. |
| ArrayTool.EmptyPathIsEmptyKey | src/Codeacious/Stdlib/ArrayTool.php:21-25 | The empty path looks up the key "" of the source array, not the array itself. |
| ArrayTool.PathConcat | src/Codeacious/Stdlib/ArrayTool.php:21-27 | Looking up `p:q` continues the lookup of `p` with the segments of `q`. |
| ArrayTool.PathCompose | src/Codeacious/Stdlib/ArrayTool.php:21-27 | If `p` leads to an array `a`, looking up `p:q` in the source is the same as looking up `q` in `a`. |
| ArrayTool.PathThroughScalarFails | src/Codeacious/Stdlib/ArrayTool.php:21-24 | If `p` is missing or leads to a scalar, every extension `p:q` is missing. |
| ArrayTool.NestedLookupExamples | src/Codeacious/Stdlib/ArrayTool.php:19-28 | In `{a: {b: 5}}`, `a:b` finds 5 and `a:c` is missing. In `{x: 1}`, `x:y` is missing. |
| FatalErrorHandler.Start | src/Codeacious/Stdlib/FatalErrorHandler.php:37-44 | After `start` the guard is registered and the error page is unchanged. An already registered guard is unchanged. Otherwise exactly one callback is added. The one-callback invariant is preserved. |
| FatalErrorHandler.StartRepeatedly | src/Codeacious/Stdlib/FatalErrorHandler.php:37-44 | Calling `start` n ≥ 1 times registers the guard and adds at most one callback, none if it was already registered. |
| FatalErrorHandler.RunKeepsRegistered | src/Codeacious/Stdlib/FatalErrorHandler.php:37-54 | Once registered, the guard stays registered after any sequence of operations. |
| FatalErrorHandler.RunKeepsValid | src/Codeacious/Stdlib/FatalErrorHandler.php:37-44 | Every sequence of operations keeps the invariant: one callback when registered, none otherwise. |
| FatalErrorHandler.RunRegisters | src/Codeacious/Stdlib/FatalErrorHandler.php:37-54 | After a sequence of operations, the guard is registered exactly when it already was or the sequence calls `start`. |
| FatalErrorHandler.StartedIffStartCalled | test/CodeaciousTest/Stdlib/FatalErrorHandlerTest.php:19-21 | From the initial state, `started` is true exactly when `start` was called. Exactly one shutdown callback is then registered, however many calls there were. |
| FatalErrorHandler.Started | src/Codeacious/Stdlib/FatalErrorHandler.php:51-54 | In every reachable state, `started` is true exactly when one shutdown callback is registered, and false exactly when none is. |
| FatalErrorHandler.SetErrorPage | src/Codeacious/Stdlib/FatalErrorHandler.php:78-81 | The override is stored as given. Registration is untouched. |
| FatalErrorHandler.GetErrorPage | src/Codeacious/Stdlib/FatalErrorHandler.php:62-68 | The page in use is either the bundled page or the configured override. It is never empty or "0". |
| FatalErrorHandler.ErrorPageAfterSet | src/Codeacious/Stdlib/FatalErrorHandler.php:62-81 | After `setErrorPage(p)` the page in use is `p` when `p` is neither "" nor "0". For "", "0", null and the initial state it is the bundled page. |
| FatalErrorHandler.FatalLevels | src/Codeacious/Stdlib/FatalErrorHandler.php:94-96 | Every type with the E_ERROR bit set is fatal, E_ALL included, and so is the HHVM sentinel 0. |
| FatalErrorHandler.IsFatal | src/Codeacious/Stdlib/FatalErrorHandler.php:94-96 | A type is fatal exactly when it is odd, or one of E_PARSE, E_CORE_ERROR, E_COMPILE_ERROR, E_USER_ERROR and E_RECOVERABLE_ERROR, or 0. On single levels this is exactly membership in the fatal list. |
| FatalErrorHandler.FatalCall | src/Codeacious/Stdlib/FatalErrorHandler.php:90-100 | The handler is called exactly when a last-error record exists, has a type, and that type is fatal. It receives the record's type, message, file and line. |
| FatalErrorHandler.HandlePHPError | src/Codeacious/Stdlib/FatalErrorHandler.php:114-144 | Always returns false. CLI or error_reporting 0 means no status, no body and no flush. Otherwise exactly one body is written and flushed. Status 500 is set iff headers are not yet sent. The body is the readable error page's contents when the status was set, else the inline message. |
| FatalErrorHandler.HandlerIgnoresError | src/Codeacious/Stdlib/FatalErrorHandler.php:114-144 | The response does not depend on the severity, message, file or line passed in. |
| FatalErrorHandler.ErrorPageOnlyWithStatus | src/Codeacious/Stdlib/FatalErrorHandler.php:126-134 | A body other than the inline message is the readable page's contents, and it is only ever sent with the 500 status. |
| FatalErrorHandler.CheckForFatalErrors | src/Codeacious/Stdlib/FatalErrorHandler.php:88-102 | The handler runs iff the last error is fatal. When it runs, the result is the handler's response to the record's type, message, file and line. |
| FatalErrorHandler.Shutdown | src/Codeacious/Stdlib/FatalErrorHandler.php:42 | At exit, a registered guard runs its one callback and an unregistered one runs none. That run's outcome is `checkForFatalErrors`' result: the handler is invoked exactly when the last error is fatal, then returns false and writes a body iff the context is neither CLI nor suppressed. |
| FatalErrorHandler.AtMostOneResponse | src/Codeacious/Stdlib/FatalErrorHandler.php:37-44 | However often `start` was called, exit runs one callback if the guard was started and none otherwise. That callback invokes the handler exactly when the last error is fatal, so a fatal error yields at most one response. |

## Left out

- PHP array key coercion is not modelled: numeric-string keys such as "1" become integer keys in PHP. Keys are plain strings here.
- PHP array ordering is not modelled. Arrays are maps.
- Scalars are limited to null, booleans, integers and strings. Floats, objects and resources are left out. The lookup never inspects a scalar, only whether a value is an array.
- `register_shutdown_function` and `error_get_last` are host hooks. The shutdown callbacks are a count in the guard state. The last error is an optional input record.
- `function_exists('error_get_last')` is folded into that input: no function means no record.
- An empty last-error array is falsy in PHP. It has no `type` key, so it is covered by "no type": the handler is not invoked.
- The message, file and line of a last-error record are assumed present. Only the type is checked for presence in the code.
- `header()`, `echo`, `flush()`, `headers_sent()`, `PHP_SAPI` and `error_reporting()` are I/O and environment queries. Their results are fields of `Environment`. Their effects are fields of `Response`.
- `headers_sent()` is read twice in `handlePHPError`. Both reads see the same value, since `header()` only queues the status line and nothing is output in between.
- `is_readable` and `file_get_contents` are filesystem I/O. Readable files and their contents are an input map. A read that fails after `is_readable` succeeds is not modelled.
- `__DIR__` and `DIRECTORY_SEPARATOR` are platform detail. The bundled page is the constant `DefaultErrorPage`, a stand-in directory followed by `/FatalErrorHandler/errorPage.html`.
- Late static binding (`static::`, `get_called_class`) is not modelled. Subclasses overriding the handler are out of scope.
- PHP integers are 64-bit. Only the low bit matters for `type & E_ERROR`, and the model reads it as `type % 2 == 1`. Under Dafny's Euclidean remainder this is the low bit of the two's-complement form, negative values included.
- `in_array` compares loosely. The error type is an integer, and for integers loose comparison is plain equality.
- `empty()` on the error-page override is modelled for strings and null only. There, "" and "0" count as empty. The override is therefore ignored for "0" as well as "". Other PHP types passed to `setErrorPage` are not modelled.
- Shutdown: requires the state invariant (one callback when registered, none otherwise). Every state reachable from the initial one satisfies it, by RunKeepsValid. With more than one callback, later runs would see headers already sent; the model does not describe that.
- GetValueAtPath: PHP's optional `$default=null` is a required parameter here. Callers pass `Leaf(Null)` for the PHP default, as GetArrayAtPath does.
