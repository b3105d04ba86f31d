/**
 * What `handle_request` promises, stated over its specification
 * (`Conforms`, `Response`) and over a store that answers its calls
 * (`Replays`, `AfterAll`). `HandleRequest` is proved to meet that
 * specification, so each lemma here is a property of the handler.
 */
module DispatcherProperties {
  import opened Wrappers
  import opened Session
  import opened Filesystem
  import opened TextReplace
  import opened Dispatcher

  /** Every operation's wire name selects that operation. */
  lemma NamesSelectTheirOperation(op: Operation)
    ensures OperationOf(Name(op)) == Some(op)
  {
  }

  /** The label each operation checks and the message its refusal carries. */
  lemma PermissionTable(op: Operation)
    ensures op in {ReadFile, ListFiles} <==> RequiredPermission(op) == "read" && DeniedError(op) == "Read permission denied"
    ensures op in {WriteFile, CreateDir, EditFile} <==> RequiredPermission(op) == "write" && DeniedError(op) == "Write permission denied"
    ensures op in {DeleteDir, DeleteFile} <==> RequiredPermission(op) == "delete" && DeniedError(op) == "Delete permission denied"
  {
  }

  /** An operation whose label is not granted is refused, and the filesystem is not called. */
  lemma DeniedWithoutCall(st: State, req: FsRequest, op: Operation, trace: seq<Call>)
    requires OperationOf(req.operation) == Some(op) && !Granted(st, RequiredPermission(op))
    requires Conforms(st, Success(req), trace)
    ensures trace == []
    ensures Response(st, Success(req), trace) == Fail(DeniedError(op))
  {
  }

  /** Conversely, any filesystem call is made for a recognised operation whose label is granted. */
  lemma CallsOnlyWhenGranted(st: State, request: Result<FsRequest, string>, trace: seq<Call>)
    requires Conforms(st, request, trace) && trace != []
    ensures request.Success? && OperationOf(request.value.operation).Some?
    ensures Granted(st, RequiredPermission(OperationOf(request.value.operation).value))
    ensures trace[0].op.path == request.value.path
  {
  }

  /** A request that did not parse is answered with the parser's message, without any call. */
  lemma MalformedWithoutCall(st: State, detail: string, trace: seq<Call>)
    requires Conforms(st, Failure(detail), trace)
    ensures trace == []
    ensures Response(st, Failure(detail), trace) == Fail("Invalid request format: " + detail)
  {
  }

  /** A name outside the seven is refused, without any call. */
  lemma UnsupportedWithoutCall(st: State, req: FsRequest, trace: seq<Call>)
    requires forall op: Operation :: Name(op) != req.operation
    requires Conforms(st, Success(req), trace)
    ensures trace == []
    ensures Response(st, Success(req), trace) == Fail("Operation not supported for request type")
  {
  }

  /** `read-file`: one read; success returns the stored text, failure the prefixed message; nothing changes. */
  lemma ReadFileResult(st: State, req: FsRequest, store: Store, trace: seq<Call>)
    requires req.operation == "read-file" && Granted(st, "read")
    requires Conforms(st, Success(req), trace) && Replays(store, trace)
    ensures |trace| == 1 && trace[0].op == Read(req.path)
    ensures var r := Response(st, Success(req), trace);
      && (r.success ==> req.path in store.files && r.data == Some(Text(store.files[req.path])))
      && (!r.success ==> trace[0].reply.Error? && r.error == Some("Failed to read file: " + trace[0].reply.message))
    ensures AfterAll(store, trace) == store
  {
  }

  /** `list-files`: one listing; success returns the stored entries, failure the prefixed message. */
  lemma ListFilesResult(st: State, req: FsRequest, store: Store, trace: seq<Call>)
    requires req.operation == "list-files" && Granted(st, "read")
    requires Conforms(st, Success(req), trace) && Replays(store, trace)
    ensures |trace| == 1 && trace[0].op == List(req.path)
    ensures var r := Response(st, Success(req), trace);
      && (r.success ==> req.path in store.dirs && r.data == Some(Entries(store.dirs[req.path])))
      && (!r.success ==> trace[0].reply.Error? && r.error == Some("Failed to list files: " + trace[0].reply.message))
    ensures AfterAll(store, trace) == store
  {
  }

  /** Reading or listing twice against the same store gives the same answer whenever both succeed. */
  lemma ReadsAreRepeatable(st: State, req: FsRequest, store: Store, trace1: seq<Call>, trace2: seq<Call>)
    requires req.operation in {"read-file", "list-files"}
    requires Conforms(st, Success(req), trace1) && Replays(store, trace1)
    requires Conforms(st, Success(req), trace2) && Replays(store, trace2)
    requires Response(st, Success(req), trace1).success && Response(st, Success(req), trace2).success
    ensures Response(st, Success(req), trace1) == Response(st, Success(req), trace2)
  {
    if req.operation == "read-file" {
      ReadFileResult(st, req, store, trace1);
      ReadFileResult(st, req, store, trace2);
    } else {
      ListFilesResult(st, req, store, trace1);
      ListFilesResult(st, req, store, trace2);
    }
  }

  /** `write-file` with content: one write of exactly that content to that path. */
  lemma WriteFileResult(st: State, req: FsRequest, store: Store, trace: seq<Call>)
    requires req.operation == "write-file" && Granted(st, "write") && req.content.Some?
    requires Conforms(st, Success(req), trace) && Replays(store, trace)
    ensures |trace| == 1 && trace[0].op == Write(req.path, req.content.value)
    ensures var r := Response(st, Success(req), trace);
      && (r.success <==> trace[0].reply.Done?)
      && (r.success ==> r.data.None? && AfterAll(store, trace) == store.(files := store.files[req.path := req.content.value]))
      && (!r.success ==> r.error == Some("Failed to write file: " + trace[0].reply.message) && AfterAll(store, trace) == store)
  {
  }

  /** `write-file` without content is refused before any call. */
  lemma WriteWithoutContent(st: State, req: FsRequest, trace: seq<Call>)
    requires req.operation == "write-file" && Granted(st, "write") && req.content.None?
    requires Conforms(st, Success(req), trace)
    ensures trace == []
    ensures Response(st, Success(req), trace) == Fail("Content not provided")
  {
  }

  /**
   * `create-dir`: one call; success adds the path as an empty directory unless it is
   * one already, and changes nothing else; failure changes nothing.
   */
  lemma CreateDirResult(st: State, req: FsRequest, store: Store, trace: seq<Call>)
    requires req.operation == "create-dir" && Granted(st, "write")
    requires Conforms(st, Success(req), trace) && Replays(store, trace)
    ensures |trace| == 1 && trace[0].op == MakeDir(req.path)
    ensures var r := Response(st, Success(req), trace);
      && (r.success <==> trace[0].reply.Done?)
      && (r.success ==> AfterAll(store, trace) == if req.path in store.dirs then store else store.(dirs := store.dirs[req.path := []]))
      && (!r.success ==> r.error == Some("Failed to create directory: " + trace[0].reply.message) && AfterAll(store, trace) == store)
  {
  }

  /** `delete-dir`: one call; success removes exactly that directory, failure changes nothing. */
  lemma DeleteDirResult(st: State, req: FsRequest, store: Store, trace: seq<Call>)
    requires req.operation == "delete-dir" && Granted(st, "delete")
    requires Conforms(st, Success(req), trace) && Replays(store, trace)
    ensures |trace| == 1 && trace[0].op == RemoveDir(req.path)
    ensures var r := Response(st, Success(req), trace);
      && (r.success <==> trace[0].reply.Done?)
      && (r.success ==> AfterAll(store, trace) == store.(dirs := store.dirs - {req.path}))
      && (!r.success ==> r.error == Some("Failed to delete directory: " + trace[0].reply.message) && AfterAll(store, trace) == store)
  {
  }

  /** `delete-file`: one call; success removes exactly that file, failure changes nothing. */
  lemma DeleteFileResult(st: State, req: FsRequest, store: Store, trace: seq<Call>)
    requires req.operation == "delete-file" && Granted(st, "delete")
    requires Conforms(st, Success(req), trace) && Replays(store, trace)
    ensures |trace| == 1 && trace[0].op == RemoveFile(req.path)
    ensures var r := Response(st, Success(req), trace);
      && (r.success <==> trace[0].reply.Done?)
      && (r.success ==> AfterAll(store, trace) == store.(files := store.files - {req.path}))
      && (!r.success ==> r.error == Some("Failed to delete file: " + trace[0].reply.message) && AfterAll(store, trace) == store)
  {
  }

  /**
   * `edit-file` with both texts, after a successful read: the stored text with every
   * occurrence of `old_text` replaced is written back to the same path, and the
   * request succeeds exactly when that write does.
   */
  lemma EditWritesReplacement(st: State, req: FsRequest, store: Store, trace: seq<Call>)
    requires req.operation == "edit-file" && Granted(st, "write")
    requires req.oldText.Some? && req.newText.Some?
    requires Conforms(st, Success(req), trace) && Replays(store, trace)
    requires trace[0].reply.Content?
    ensures req.path in store.files && trace[0].reply.text == store.files[req.path]
    ensures |trace| == 2 && trace[0].op == Read(req.path)
    ensures trace[1].op == Write(req.path, ReplaceAll(store.files[req.path], req.oldText.value, req.newText.value))
    ensures var r := Response(st, Success(req), trace);
      && (r.success <==> trace[1].reply.Done?)
      && (r.success ==> r == Ok(None))
      && (r.success ==> AfterAll(store, trace)
                          == store.(files := store.files[req.path := ReplaceAll(store.files[req.path], req.oldText.value, req.newText.value)]))
      && (!r.success ==> r.error == Some("Failed to write edited file: " + trace[1].reply.message) && AfterAll(store, trace) == store)
  {
    assert trace[1..] == [trace[1]] && [trace[1]][1..] == [];
    assert After(store, trace[0]) == store;
    calc {
      AfterAll(store, trace);
      AfterAll(After(store, trace[0]), trace[1..]);
      AfterAll(store, [trace[1]]);
      AfterAll(After(store, trace[1]), []);
    }
  }

  /** When `old_text` does not occur, `edit-file` still writes, and writes back the text unchanged. */
  lemma EditAbsentTextRewritesUnchanged(st: State, req: FsRequest, store: Store, trace: seq<Call>)
    requires req.operation == "edit-file" && Granted(st, "write")
    requires req.oldText.Some? && req.newText.Some?
    requires Conforms(st, Success(req), trace) && Replays(store, trace)
    requires trace[0].reply.Content? && !Occurs(req.oldText.value, trace[0].reply.text)
    ensures |trace| == 2 && trace[1].op == Write(req.path, trace[0].reply.text)
    ensures AfterAll(store, trace) == store
  {
    assert req.oldText.value != [] by { assert IsMatchAt(trace[0].reply.text, [], 0); }
    EditWritesReplacement(st, req, store, trace);
    ReplaceAllAbsent(trace[0].reply.text, req.oldText.value, req.newText.value);
    assert store.files[req.path := store.files[req.path]] == store.files;
  }

  /** A failed read in `edit-file` is reported first, and nothing is written. */
  lemma EditReadFailureFirst(st: State, req: FsRequest, store: Store, trace: seq<Call>)
    requires req.operation == "edit-file" && Granted(st, "write")
    requires Conforms(st, Success(req), trace) && Replays(store, trace)
    requires trace[0].reply.Error?
    ensures trace == [Call(Read(req.path), trace[0].reply)]
    ensures Response(st, Success(req), trace) == Fail("Failed to read file for editing: " + trace[0].reply.message)
    ensures AfterAll(store, trace) == store
  {
  }

  /** `edit-file` without both texts reads the file but never writes it. */
  lemma EditMissingTextsNeverWrites(st: State, req: FsRequest, store: Store, trace: seq<Call>)
    requires req.operation == "edit-file" && Granted(st, "write")
    requires req.oldText.None? || req.newText.None?
    requires Conforms(st, Success(req), trace) && Replays(store, trace)
    ensures |trace| == 1 && trace[0].op == Read(req.path)
    ensures trace[0].reply.Content? ==> Response(st, Success(req), trace) == Fail("Both old_text and new_text must be provided")
    ensures AfterAll(store, trace) == store
  {
  }

  /** The end-to-end case of a read-only session asking to write. */
  lemma ReadOnlySessionCannotWrite(trace: seq<Call>)
    requires Conforms(State(["read"]), Success(FsRequest("write-file", "/a.txt", Some("x"), None, None)), trace)
    ensures trace == []
    ensures Response(State(["read"]), Success(FsRequest("write-file", "/a.txt", Some("x"), None, None)), trace)
            == Fail("Write permission denied")
  {
  }

  /** The end-to-end edit of "hello world" to "hello there". */
  lemma EditHelloWorld(store: Store, trace: seq<Call>)
    requires "/a.txt" in store.files && store.files["/a.txt"] == "hello world"
    requires Conforms(State(["read", "write"]), Success(FsRequest("edit-file", "/a.txt", None, Some("world"), Some("there"))), trace)
    requires Replays(store, trace) && trace[0].reply.Content?
    ensures |trace| == 2 && trace[1].op == Write("/a.txt", "hello there")
    ensures var r := Response(State(["read", "write"]), Success(FsRequest("edit-file", "/a.txt", None, Some("world"), Some("there"))), trace);
      r.success ==> r == Ok(None) && "/a.txt" in AfterAll(store, trace).files && AfterAll(store, trace).files["/a.txt"] == "hello there"
  {
    var req := FsRequest("edit-file", "/a.txt", None, Some("world"), Some("there"));
    assert Granted(State(["read", "write"]), "write");
    EditWritesReplacement(State(["read", "write"]), req, store, trace);
    HelloWorldReplaced("hello world", "world", "there");
  }

  /** The end-to-end listing of a directory by a read-only session. */
  lemma ListDocs(store: Store, trace: seq<Call>)
    requires "/docs" in store.dirs && store.dirs["/docs"] == ["a.txt", "b.txt"]
    requires Conforms(State(["read"]), Success(FsRequest("list-files", "/docs", None, None, None)), trace)
    requires Replays(store, trace)
    ensures var r := Response(State(["read"]), Success(FsRequest("list-files", "/docs", None, None, None)), trace);
      r.success ==> r == Ok(Some(Entries(["a.txt", "b.txt"])))
  {
    assert Granted(State(["read"]), "read");
    ListFilesResult(State(["read"]), FsRequest("list-files", "/docs", None, None, None), store, trace);
  }

  /**
   * The text replacement behind `EditHelloWorld`: `"hello world".replace("world", "there")`.
   * The strings are parameters so that the solver does not unfold `ReplaceAll` on literals.
   */
  lemma HelloWorldReplaced(text: string, oldText: string, newText: string)
    requires text == "hello world" && oldText == "world" && newText == "there"
    ensures ReplaceAll(text, oldText, newText) == "hello there"
  {
    var lead := "hello ";
    assert ReplaceAll(oldText, oldText, newText) == newText by {
      assert oldText[..|oldText|] == oldText && oldText[|oldText|..] == [];
    }
    KeepsLeadingText(lead, oldText, oldText, newText);
    assert text == lead + oldText;
  }
}
