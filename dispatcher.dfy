/**
 * The request handler of src/lib.rs: `handle_request` authorises each
 * operation against the session's permission labels, calls the filesystem,
 * and shapes an `FsResponse`; `handle_send` accepts one-way messages and
 * performs nothing.
 *
 * The specification of `handle_request` is given by three functions:
 * `FirstCall` and `FollowUp` say which filesystem calls it makes, `Conforms`
 * says a trace of calls is exactly that, and `Response` says what it answers
 * given the filesystem's replies. The method `HandleRequest` is proved to
 * behave as they say.
 */
module Dispatcher {
  import opened Wrappers
  import opened Session
  import opened Filesystem
  import opened TextReplace

  /** A parsed request; `content`, `oldText` and `newText` are the optional JSON fields. */
  datatype FsRequest = FsRequest(
    operation: string,
    path: string,
    content: Option<string>,
    oldText: Option<string>,
    newText: Option<string>)

  /** The JSON value carried in `data`: a file's text or a directory's entry names. */
  datatype Payload = Text(text: string) | Entries(names: seq<string>)

  datatype FsResponse = FsResponse(success: bool, data: Option<Payload>, error: Option<string>)
  {
    /** A success carries no error; a failure carries no data. */
    predicate WellShaped()
    {
      (success ==> error.None?) && (!success ==> data.None?)
    }
  }

  function Ok(data: Option<Payload>): FsResponse
  {
    FsResponse(true, data, None)
  }

  function Fail(message: string): FsResponse
  {
    FsResponse(false, None, Some(message))
  }

  /** The seven operations `handle_request` recognises. */
  datatype Operation = ReadFile | ListFiles | WriteFile | CreateDir | DeleteDir | DeleteFile | EditFile

  /** The operation's name on the wire. */
  function Name(op: Operation): string
  {
    match op
    case ReadFile => "read-file"
    case ListFiles => "list-files"
    case WriteFile => "write-file"
    case CreateDir => "create-dir"
    case DeleteDir => "delete-dir"
    case DeleteFile => "delete-file"
    case EditFile => "edit-file"
  }

  /** The dispatch table: the operation a name selects, if any. */
  function OperationOf(name: string): (op: Option<Operation>)
    ensures op.Some? ==> Name(op.value) == name
  {
    match name
    case "read-file" => Some(ReadFile)
    case "list-files" => Some(ListFiles)
    case "write-file" => Some(WriteFile)
    case "create-dir" => Some(CreateDir)
    case "delete-dir" => Some(DeleteDir)
    case "delete-file" => Some(DeleteFile)
    case "edit-file" => Some(EditFile)
    case _ => None
  }

  /**
   * The label each operation checks for: the two reading operations need `read`,
   * the two deleting operations need `delete`, and the rest need `write`.
   */
  function RequiredPermission(op: Operation): (perm: string)
    ensures perm in {"read", "write", "delete"}
    ensures perm == "read" <==> op == ReadFile || op == ListFiles
    ensures perm == "delete" <==> op == DeleteDir || op == DeleteFile
  {
    match op
    case ReadFile | ListFiles => "read"
    case WriteFile | CreateDir | EditFile => "write"
    case DeleteDir | DeleteFile => "delete"
  }

  /** The ASCII upper-case form of a character; any other character is kept. */
  function UpperCase(c: char): char
  {
    if 'a' <= c <= 'z' then (c as int - 32) as char else c
  }

  /** The word with its first character in upper case. */
  function Capitalised(word: string): string
  {
    if word == [] then [] else [UpperCase(word[0])] + word[1..]
  }

  /** The error returned when that label is missing: the capitalised label, then ` permission denied`. */
  function DeniedError(op: Operation): (e: string)
    ensures e == Capitalised(RequiredPermission(op)) + " permission denied"
  {
    match op
    case ReadFile | ListFiles => ReadDeniedSpelling(); "Read permission denied"
    case WriteFile | CreateDir | EditFile => WriteDeniedSpelling(); "Write permission denied"
    case DeleteDir | DeleteFile => DeleteDeniedSpelling(); "Delete permission denied"
  }

  /** The refusal for a missing `read` label is that label, capitalised, then ` permission denied`. */
  lemma ReadDeniedSpelling()
    ensures Capitalised("read") + " permission denied" == "Read permission denied"
  {
    assert "read"[1..] == "ead";
  }

  /** The refusal for a missing `write` label is that label, capitalised, then ` permission denied`. */
  lemma WriteDeniedSpelling()
    ensures Capitalised("write") + " permission denied" == "Write permission denied"
  {
    assert "write"[1..] == "rite";
  }

  /** The refusal for a missing `delete` label is that label, capitalised, then ` permission denied`. */
  lemma DeleteDeniedSpelling()
    ensures Capitalised("delete") + " permission denied" == "Delete permission denied"
  {
    assert "delete"[1..] == "elete";
  }

  /** The first filesystem call `handle_request` makes, or `None` when it makes none. */
  function FirstCall(st: State, request: Result<FsRequest, string>): (call: Option<FsOp>)
    ensures call.Some? ==> request.Success? && OperationOf(request.value.operation).Some?
    ensures call.Some? ==> Granted(st, RequiredPermission(OperationOf(request.value.operation).value))
    ensures call.Some? ==> call.value.path == request.value.path
  {
    match request
    case Failure(_) => None
    case Success(req) =>
      match OperationOf(req.operation)
      case None => None
      case Some(op) =>
        if !Granted(st, RequiredPermission(op)) then None
        else match op
          case ReadFile => Some(Read(req.path))
          case ListFiles => Some(List(req.path))
          case WriteFile => if req.content.Some? then Some(Write(req.path, req.content.value)) else None
          case CreateDir => Some(MakeDir(req.path))
          case DeleteDir => Some(RemoveDir(req.path))
          case DeleteFile => Some(RemoveFile(req.path))
          case EditFile => Some(Read(req.path))
  }

  /**
   * The call that follows the first one: only `edit-file`, after a successful
   * read and with both texts given, writes the edited text back to the same path.
   */
  function FollowUp(req: FsRequest, first: Call): (call: Option<FsOp>)
    ensures call.Some? ==> OperationOf(req.operation) == Some(EditFile) && first.reply.Content?
    ensures call.Some? ==> req.oldText.Some? && req.newText.Some?
    ensures call.Some? ==> call.value == Write(req.path, ReplaceAll(first.reply.text, req.oldText.value, req.newText.value))
  {
    if OperationOf(req.operation) == Some(EditFile) && first.reply.Content? && req.oldText.Some? && req.newText.Some?
    then Some(Write(req.path, ReplaceAll(first.reply.text, req.oldText.value, req.newText.value)))
    else None
  }

  /**
   * `trace` is exactly the sequence of calls `handle_request` makes, each with a well-typed reply.
   * There are at most two calls, all on the request's path, and a second one only in `edit-file`,
   * where it writes after a successful read.
   */
  predicate Conforms(st: State, request: Result<FsRequest, string>, trace: seq<Call>): (ok: bool)
    ensures ok ==> |trace| <= 2 && forall k :: 0 <= k < |trace| ==> trace[k].WellTyped()
    ensures ok && trace != [] ==> request.Success? && forall k :: 0 <= k < |trace| ==> trace[k].op.path == request.value.path
    ensures ok && |trace| == 2 ==> OperationOf(request.value.operation) == Some(EditFile) && trace[0].reply.Content? && trace[1].op.Write?
  {
    match FirstCall(st, request)
    case None => trace == []
    case Some(op) =>
      && |trace| >= 1
      && trace[0].op == op
      && trace[0].WellTyped()
      && (match FollowUp(request.value, trace[0])
          case None => |trace| == 1
          case Some(next) => |trace| == 2 && trace[1].op == next && trace[1].WellTyped())
  }

  /** The response to a mutating call: success with no data, or the prefix and the filesystem's message. */
  function Completed(c: Call, prefix: string): (r: FsResponse)
    requires c.reply.Done? || c.reply.Error?
    ensures r.success <==> c.reply.Done?
    ensures !r.success ==> r == Fail(prefix + c.reply.message)
    ensures r.success ==> r == Ok(None)
  {
    if c.reply.Done? then Ok(None) else Fail(prefix + c.reply.message)
  }

  /** The response `handle_request` builds, given the replies the filesystem gave to its calls. */
  function Response(st: State, request: Result<FsRequest, string>, trace: seq<Call>): (r: FsResponse)
    requires Conforms(st, request, trace)
    ensures r.WellShaped()
    ensures r.success ==> trace != [] && !trace[|trace| - 1].reply.Error?
    ensures r.data.Some? ==> request.Success? && OperationOf(request.value.operation) in {Some(ReadFile), Some(ListFiles)}
  {
    match request
    case Failure(detail) => Fail("Invalid request format: " + detail)
    case Success(req) =>
      match OperationOf(req.operation)
      case None => Fail("Operation not supported for request type")
      case Some(op) =>
        if !Granted(st, RequiredPermission(op)) then Fail(DeniedError(op))
        else match op
          case ReadFile =>
            if trace[0].reply.Content? then Ok(Some(Text(trace[0].reply.text)))
            else Fail("Failed to read file: " + trace[0].reply.message)
          case ListFiles =>
            if trace[0].reply.Listing? then Ok(Some(Entries(trace[0].reply.names)))
            else Fail("Failed to list files: " + trace[0].reply.message)
          case WriteFile =>
            if req.content.None? then Fail("Content not provided")
            else Completed(trace[0], "Failed to write file: ")
          case CreateDir => Completed(trace[0], "Failed to create directory: ")
          case DeleteDir => Completed(trace[0], "Failed to delete directory: ")
          case DeleteFile => Completed(trace[0], "Failed to delete file: ")
          case EditFile =>
            if trace[0].reply.Error? then Fail("Failed to read file for editing: " + trace[0].reply.message)
            else if req.oldText.None? || req.newText.None? then Fail("Both old_text and new_text must be provided")
            else Completed(trace[1], "Failed to write edited file: ")
  }

  /** `handle_send`: whatever the message, nothing is performed and the state is handed back. */
  function HandleSend(st: State, request: Result<FsRequest, string>): (st': State)
    ensures st' == st
  {
    match request
    case Failure(_) => st
    case Success(_) => st
  }

  /** The calls made since the log had length `n`. */
  ghost function Since(log: seq<Call>, n: nat): seq<Call>
  {
    if n <= |log| then log[n..] else []
  }

  /**
   * `handle_request`: the request is parsed already (`Failure` carries the parser's
   * message). The state comes back unchanged; the calls made are those `Conforms`
   * describes, the response is `Response` of their replies, and the store changes
   * only by the effects of those calls.
   */
  method HandleRequest(st: State, request: Result<FsRequest, string>, fs: FileSystem)
    returns (resp: FsResponse, st': State)
    modifies fs
    ensures st' == st
    ensures old(fs.log) <= fs.log
    ensures Conforms(st, request, Since(fs.log, |old(fs.log)|))
    ensures resp == Response(st, request, Since(fs.log, |old(fs.log)|))
    ensures Replays(old(fs.Snapshot()), Since(fs.log, |old(fs.log)|))
    ensures fs.Snapshot() == AfterAll(old(fs.Snapshot()), Since(fs.log, |old(fs.log)|))
  {
    st' := st;
    ghost var before, store := fs.log, fs.Snapshot();
    match request
    case Failure(detail) =>
      resp := Fail("Invalid request format: " + detail);
      assert Since(fs.log, |before|) == [];
    case Success(req) =>
      match req.operation
      case "read-file" =>
        if !Granted(st, "read") {
          resp := Fail("Read permission denied");
        } else {
          var reply := fs.ReadFile(req.path);
          if reply.Content? {
            resp := Ok(Some(Text(reply.text)));
          } else {
            resp := Fail("Failed to read file: " + reply.message);
          }
        }
      case "list-files" =>
        if !Granted(st, "read") {
          resp := Fail("Read permission denied");
        } else {
          var reply := fs.ListFiles(req.path);
          if reply.Listing? {
            resp := Ok(Some(Entries(reply.names)));
          } else {
            resp := Fail("Failed to list files: " + reply.message);
          }
        }
      case "write-file" =>
        if !Granted(st, "write") {
          resp := Fail("Write permission denied");
        } else if req.content.Some? {
          var reply := fs.WriteFile(req.path, req.content.value);
          if reply.Done? {
            resp := Ok(None);
          } else {
            resp := Fail("Failed to write file: " + reply.message);
          }
        } else {
          resp := Fail("Content not provided");
        }
      case "create-dir" =>
        if !Granted(st, "write") {
          resp := Fail("Write permission denied");
        } else {
          var reply := fs.CreateDir(req.path);
          if reply.Done? {
            resp := Ok(None);
          } else {
            resp := Fail("Failed to create directory: " + reply.message);
          }
        }
      case "delete-dir" =>
        if !Granted(st, "delete") {
          resp := Fail("Delete permission denied");
        } else {
          var reply := fs.DeleteDir(req.path);
          if reply.Done? {
            resp := Ok(None);
          } else {
            resp := Fail("Failed to delete directory: " + reply.message);
          }
        }
      case "delete-file" =>
        if !Granted(st, "delete") {
          resp := Fail("Delete permission denied");
        } else {
          var reply := fs.DeleteFile(req.path);
          if reply.Done? {
            resp := Ok(None);
          } else {
            resp := Fail("Failed to delete file: " + reply.message);
          }
        }
      case "edit-file" =>
        if !Granted(st, "write") {
          resp := Fail("Write permission denied");
        } else {
          var reply := fs.ReadFile(req.path);
          if reply.Content? {
            var contentStr := reply.text;
            if req.oldText.Some? && req.newText.Some? {
              contentStr := ReplaceAll(contentStr, req.oldText.value, req.newText.value);
              ghost var afterRead := fs.log;
              var written := fs.WriteFile(req.path, contentStr);
              assert Since(fs.log, |before|) == [Call(Read(req.path), reply), Call(Write(req.path, contentStr), written)] by {
                assert afterRead == before + [Call(Read(req.path), reply)];
              }
              ghost var calls := Since(fs.log, |before|);
              assert calls[1..] == [calls[1]] && [calls[1]][1..] == [];
              assert After(store, calls[0]) == store;
              assert AfterAll(store, calls) == AfterAll(store, [calls[1]]) == After(store, calls[1]);
              if written.Done? {
                resp := Ok(None);
              } else {
                resp := Fail("Failed to write edited file: " + written.message);
              }
            } else {
              resp := Fail("Both old_text and new_text must be provided");
            }
          } else {
            resp := Fail("Failed to read file for editing: " + reply.message);
          }
        }
      case _ =>
        resp := Fail("Operation not supported for request type");
  }
}
