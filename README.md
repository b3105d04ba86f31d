# fs-proxy: a verified model of the permission-gated filesystem dispatcher

fs-proxy is an actor that answers filesystem requests on behalf of its
callers. At start-up, `init` turns an optional configuration into a session
state: the list of permission labels granted for the actor's lifetime. After
that, `handle_request` receives a request naming one of seven operations
(`read-file`, `list-files`, `write-file`, `create-dir`, `delete-dir`,
`delete-file`, `edit-file`). It checks the label that operation needs, calls
the host filesystem and answers with an `FsResponse { success, data, error }`.
It always hands the state back unchanged. `handle_send` accepts one-way
messages, performs nothing and hands the state back.

The model has these modules:

- `Wrappers` (wrappers.dfy): `Option` and `Result`.
- `Session` (session.dfy): `State`, `InitData`, `Init` and the `Granted` membership test.
- `Filesystem` (filesystem.dfy): the host filesystem at its boundary. The class `FileSystem` holds
  file contents and directory listings in maps, plus a ghost log of every `Call`, which records the
  operation and the reply. Its contracts allow any call to fail with a message. When a call
  succeeds, its reply agrees with the store (`Answers`) and its effect on the store is fixed
  (`After`). The method bodies are a deterministic reference implementation of those contracts.
- `TextReplace` (text_replace.dfy): Rust's `str::replace` as `ReplaceAll`, including the
  empty-pattern behaviour. `Split` and `Join` give an equivalent formulation (split the text on
  the pattern, then join the pieces with the replacement), proved to agree with it.
- `Dispatcher` (dispatcher.dfy): the request and response records and the dispatch table.
  `FirstCall`, `FollowUp` and `Conforms` say which filesystem calls `handle_request` makes.
  `Response` says what it answers, given the replies. `HandleRequest` is the imperative handler,
  proved to make exactly those calls, to give that response, to change the store only by those
  calls' effects and to return the state unchanged. `HandleSend` models the one-way entry point.
- `DispatcherProperties` (dispatcher_properties.dfy): the handler's promises, stated over that
  specification.

Where the description of the system and the code disagree, the model follows the code:

- One-way messages: the description has `handle_send` perform `write-file`, `create-dir`,
  `delete-file` and `delete-dir`. The code (src/lib.rs:311-315) matches only `_` and performs
  nothing, so `HandleSend` performs nothing.
- Permissions: the description calls them a set. The code keeps a `Vec<String>` and tests it with
  `contains`, so `State.permissions` is a sequence and `Granted` is membership.

## Model

| member | source | states |
|---|---|---|
| Session.Init | src/lib.rs:42-60 | Parsed configuration gives exactly its permission list; absent or unparseable configuration gives exactly `["read"]` |
| Session.Granted | src/lib.rs:87 | `contains`: a label is granted exactly when it appears at some position of the permission list |
| Session.DefaultIsLeastPrivilege | src/lib.rs:44-52 | The fallback session grants `read` and nothing else |
| Dispatcher.OperationOf | src/lib.rs:84-85 | The dispatch table selects an operation only for that operation's exact wire name |
| Dispatcher.RequiredPermission | src/lib.rs:87-244 | Each operation checks one of `read`, `write` and `delete`; `read` exactly for `read-file` and `list-files`, `delete` exactly for `delete-dir` and `delete-file` |
| Dispatcher.DeniedError | src/lib.rs:92-249 | The refusal message is the required label, capitalised, followed by ` permission denied` |
| Dispatcher.FirstCall | src/lib.rs:84-292 | A filesystem call is made only for a parsed request naming a recognised operation whose label is granted, and always on the request's path |
| Dispatcher.FollowUp | src/lib.rs:252-257 | A second call happens only in `edit-file` after a successful read with both texts given, and it writes the replaced text to the same path |
| Dispatcher.Conforms | src/lib.rs:84-292 | A conforming trace has at most two calls, each with a well-typed reply and on the request's path; a second call happens only in `edit-file`, as a write after a successful read |
| Dispatcher.Completed | src/lib.rs:149-160 | A mutating call's response succeeds exactly when the call did; otherwise the error is the operation's prefix followed by the filesystem's message |
| Dispatcher.Response | src/lib.rs:64-299 | Every response, including the invalid-format one, has no error on success and no data on failure; success needs a last call that did not fail; only `read-file` and `list-files` carry data |
| Dispatcher.HandleSend | src/lib.rs:301-318 | The one-way entry point hands back the state it received, whatever the message, and has no filesystem to call |
| Dispatcher.HandleRequest | src/lib.rs:64-299 | The state is returned unchanged; the calls made are exactly those `Conforms` allows; the response is `Response` of their replies; the store changes only by those calls' effects |
| Filesystem.FileSystem.ReadFile | src/lib.rs:5-7 | `read_file` returns the stored content or fails; the store is unchanged; the call is logged |
| Filesystem.FileSystem.ListFiles | src/lib.rs:5-7 | `list_files` returns the stored entries or fails; the store is unchanged; the call is logged |
| Filesystem.FileSystem.WriteFile | src/lib.rs:5-7 | `write_file` on success stores exactly the given text at the path; on failure nothing changes; the call is logged |
| Filesystem.FileSystem.CreateDir | src/lib.rs:5-7 | `create_dir` on success leaves the path a directory; on failure nothing changes; the call is logged |
| Filesystem.FileSystem.DeleteDir | src/lib.rs:5-7 | `delete_dir` on success removes exactly that directory; on failure nothing changes; the call is logged |
| Filesystem.FileSystem.DeleteFile | src/lib.rs:5-7 | `delete_file` on success removes exactly that file; on failure nothing changes; the call is logged |
| TextReplace.ReplaceAll | src/lib.rs:256 | `str::replace`: for a non-empty pattern, the result is no longer than the text when `to` is no longer than `from`, and no shorter when `to` is no shorter; its other properties are the lemmas `ReplaceAllIsJoinOfSplit`, `ReplaceAllAtFirstMatch`, `SplitPiecesAvoidPattern`, `ReplaceAllAbsent`, `ReplaceAllBySelf`, `ReplaceAllLength` and `EmptyPatternSteps` |
| TextReplace.ReplaceAllAtFirstMatch | src/lib.rs:256 | Matches are chosen leftmost first: with a non-empty pattern whose first match is at `i`, the text before `i` is copied, the match becomes `to`, and the scan resumes right after the match |
| TextReplace.EmptyPatternSteps | src/lib.rs:256 | An empty `from` turns the empty text into `to`, and puts `to` before each character, ahead of the rest of the result |
| TextReplace.Split | src/lib.rs:256 | Splitting on the pattern yields at least one piece, and the first piece is a prefix of the text |
| TextReplace.ReplaceAllIsJoinOfSplit | src/lib.rs:256 | `replace(from, to)` equals splitting on `from` and joining the pieces with `to`, for every pattern including the empty one |
| TextReplace.JoinSplit | src/lib.rs:256 | Joining the split pieces with the pattern itself gives back the original text |
| TextReplace.SplitPiecesAvoidPattern | src/lib.rs:256 | For a non-empty pattern, no text between replaced matches contains the pattern |
| TextReplace.ReplaceAllBySelf | src/lib.rs:256 | Replacing a pattern by itself leaves the text unchanged |
| TextReplace.ReplaceAllAbsent | src/lib.rs:256 | A non-empty pattern that does not occur leaves the text unchanged |
| TextReplace.ReplaceAllLength | src/lib.rs:256 | The result's length changes by `len(to) - len(from)` per replaced occurrence |
| TextReplace.EmptyPatternLength | src/lib.rs:256 | With an empty `old_text`, the result's length is the text's length plus one copy of `new_text` per character and one more |
| TextReplace.SkipUnmatched | src/lib.rs:256 | A first character that cannot start a match is kept as it is |
| TextReplace.KeepsLeadingText | src/lib.rs:256 | Leading text none of whose characters can start a match is kept as it is |
| DispatcherProperties.NamesSelectTheirOperation | src/lib.rs:84-285 | Each of the seven wire names selects its own operation |
| DispatcherProperties.PermissionTable | src/lib.rs:84-250 | `read-file` and `list-files` need `read`; `write-file`, `create-dir` and `edit-file` need `write`; `delete-dir` and `delete-file` need `delete`; each refusal carries its own message |
| DispatcherProperties.DeniedWithoutCall | src/lib.rs:87-250 | Without the operation's label the response is the refusal message and no filesystem call is made |
| DispatcherProperties.CallsOnlyWhenGranted | src/lib.rs:84-292 | Any filesystem call belongs to a parsed, recognised and granted request, on its path |
| DispatcherProperties.MalformedWithoutCall | src/lib.rs:68-80 | An unparseable request is answered with `Invalid request format: ` and the parser's message, and no filesystem call is made |
| DispatcherProperties.UnsupportedWithoutCall | src/lib.rs:285-291 | A name outside the seven is answered with `Operation not supported for request type`, and no filesystem call is made |
| DispatcherProperties.ReadFileResult | src/lib.rs:95-110 | `read-file` makes one read; success returns the stored text, failure returns `Failed to read file: ` and the message; the store is unchanged |
| DispatcherProperties.ListFilesResult | src/lib.rs:123-133 | `list-files` makes one listing; success returns the stored entries, failure returns `Failed to list files: ` and the message; the store is unchanged |
| DispatcherProperties.ReadsAreRepeatable | src/lib.rs:95-133 | Two successful reads or listings against the same store give the same response |
| DispatcherProperties.WriteFileResult | src/lib.rs:147-160 | `write-file` with content makes one write of exactly that content; it succeeds exactly when the write does; success leaves the store with that content at the path and nothing else changed; failure leaves the store unchanged |
| DispatcherProperties.WriteWithoutContent | src/lib.rs:161-166 | `write-file` without content answers `Content not provided` and makes no call |
| DispatcherProperties.CreateDirResult | src/lib.rs:180-191 | `create-dir` makes one call; success adds the path as an empty directory unless it already is one, and changes nothing else; failure returns `Failed to create directory: ` and changes nothing |
| DispatcherProperties.DeleteDirResult | src/lib.rs:204-215 | `delete-dir` makes one call; success removes exactly that directory; failure returns `Failed to delete directory: ` and changes nothing |
| DispatcherProperties.DeleteFileResult | src/lib.rs:228-239 | `delete-file` makes one call; success removes exactly that file; failure returns `Failed to delete file: ` and changes nothing |
| DispatcherProperties.EditWritesReplacement | src/lib.rs:252-268 | After a successful read with both texts given, `edit-file` writes the stored text with every occurrence replaced to the same path; it succeeds exactly when that write does, and the store then holds the replaced text |
| DispatcherProperties.EditAbsentTextRewritesUnchanged | src/lib.rs:255-257 | When `old_text` does not occur, the write still happens, with the unchanged text, and the store ends as it began whether that write succeeds or fails |
| DispatcherProperties.EditReadFailureFirst | src/lib.rs:277-281 | A failed read in `edit-file` is reported as `Failed to read file for editing: ` with the message, whatever the texts, and nothing is written |
| DispatcherProperties.EditMissingTextsNeverWrites | src/lib.rs:269-275 | `edit-file` without both texts reads the file, never writes, and after a successful read answers `Both old_text and new_text must be provided` |
| DispatcherProperties.ReadOnlySessionCannotWrite | src/lib.rs:139-145 | A session holding only `read` that asks to write `/a.txt` is refused with `Write permission denied`, and no call is made |
| DispatcherProperties.EditHelloWorld | src/lib.rs:252-268 | Editing `world` to `there` in `/a.txt` holding `hello world` writes `hello there`; a success leaves that in the store |
| DispatcherProperties.ListDocs | src/lib.rs:123-128 | Listing `/docs` holding `a.txt` and `b.txt` answers with exactly those entries when it succeeds |
| DispatcherProperties.HelloWorldReplaced | src/lib.rs:256 | `"hello world".replace("world", "there")` is `"hello there"` |

## Left out

- JSON (de)serialisation with `serde_json`. A request arrives already parsed, as
  `Result<FsRequest, string>`, where `Failure` carries the parser's message. The configuration
  arrives as `Option<Result<InitData, string>>`. Responses and the state are returned as values.
- The `unwrap` of the incoming state (src/lib.rs:67, 304). The state is a value of `State`, so a
  corrupt state cannot be passed, and the panic it would cause is not modelled.
- `String::from_utf8_lossy` (src/lib.rs:98, 254). File contents are modelled as text already.
- `log` calls. They are a diagnostic side channel that does not affect any result.
- The WIT binding glue and the `export!` macro. They are plumbing.
- The host filesystem's own behaviour. Its functions are modelled only at their boundary, with
  error messages as opaque strings. Directory listings are kept apart from file contents, so a
  write or a file deletion does not update its parent's listing.
- `str::replace` works on UTF-8 bytes. `ReplaceAll` works on characters. The two agree because a
  valid UTF-8 pattern can only match at character boundaries.
- Filesystem.FileSystem.ReadFile: like every other `FileSystem` method, its contract leaves open
  when a call fails. This matches the host, whose failures this component cannot predict.
