/**
 * The host filesystem the dispatcher calls (`read_file`, `write_file`,
 * `list_files`, `create_dir`, `delete_dir`, `delete_file` in src/lib.rs),
 * modelled at its boundary: each operation may fail with a message at any
 * time; when it succeeds, its answer agrees with the store and its effect
 * on the store is fixed. Every call is recorded in a ghost log, so the
 * dispatcher's contract can say which calls it made.
 */
module Filesystem {

  /** One request to the filesystem. */
  datatype FsOp =
    | Read(path: string)
    | List(path: string)
    | Write(path: string, text: string)
    | MakeDir(path: string)
    | RemoveDir(path: string)
    | RemoveFile(path: string)

  /** The filesystem's answer: file content, directory entries, plain success, or an error message. */
  datatype Reply = Content(text: string) | Listing(names: seq<string>) | Done | Error(message: string)

  /** One call as it appears in the log: what was asked and what came back. */
  datatype Call = Call(op: FsOp, reply: Reply)
  {
    /** The reply has the shape the operation returns. */
    predicate WellTyped()
    {
      match op
      case Read(_) => reply.Content? || reply.Error?
      case List(_) => reply.Listing? || reply.Error?
      case _ => reply.Done? || reply.Error?
    }
  }

  /** File contents by path, and directory entries by path. */
  datatype Store = Store(files: map<string, string>, dirs: map<string, seq<string>>)

  /** The reply is one the store could give: a read returns the stored content, a listing the stored entries. */
  predicate Answers(store: Store, c: Call)
  {
    && c.WellTyped()
    && (c.reply.Content? ==> c.op.path in store.files && store.files[c.op.path] == c.reply.text)
    && (c.reply.Listing? ==> c.op.path in store.dirs && store.dirs[c.op.path] == c.reply.names)
  }

  /** The store after a call: a failed call changes nothing, reads and listings change nothing. */
  function After(store: Store, c: Call): Store
  {
    if !c.reply.Done? then store
    else match c.op
      case Write(p, text) => store.(files := store.files[p := text])
      case MakeDir(p) => if p in store.dirs then store else store.(dirs := store.dirs[p := []])
      case RemoveDir(p) => store.(dirs := store.dirs - {p})
      case RemoveFile(p) => store.(files := store.files - {p})
      case _ => store
  }

  /** Every call of the trace is answered consistently with the store as it then is. */
  predicate Replays(store: Store, trace: seq<Call>)
    decreases |trace|
  {
    trace == [] || (Answers(store, trace[0]) && Replays(After(store, trace[0]), trace[1..]))
  }

  /** The store after the whole trace. */
  function AfterAll(store: Store, trace: seq<Call>): Store
    decreases |trace|
  {
    if trace == [] then store else AfterAll(After(store, trace[0]), trace[1..])
  }

  class FileSystem {
    var files: map<string, string>
    var dirs: map<string, seq<string>>
    ghost var log: seq<Call>

    function Snapshot(): Store
      reads this
    {
      Store(files, dirs)
    }

    constructor (files: map<string, string>, dirs: map<string, seq<string>>)
      ensures Snapshot() == Store(files, dirs) && log == []
    {
      this.files := files;
      this.dirs := dirs;
      log := [];
    }

    method ReadFile(path: string) returns (reply: Reply)
      modifies this
      ensures Answers(old(Snapshot()), Call(Read(path), reply))
      ensures Snapshot() == old(Snapshot())
      ensures log == old(log) + [Call(Read(path), reply)]
    {
      if path in files {
        reply := Content(files[path]);
      } else {
        reply := Error("file not found");
      }
      log := log + [Call(Read(path), reply)];
    }

    method ListFiles(path: string) returns (reply: Reply)
      modifies this
      ensures Answers(old(Snapshot()), Call(List(path), reply))
      ensures Snapshot() == old(Snapshot())
      ensures log == old(log) + [Call(List(path), reply)]
    {
      if path in dirs {
        reply := Listing(dirs[path]);
      } else {
        reply := Error("directory not found");
      }
      log := log + [Call(List(path), reply)];
    }

    method WriteFile(path: string, text: string) returns (reply: Reply)
      modifies this
      ensures Answers(old(Snapshot()), Call(Write(path, text), reply))
      ensures Snapshot() == After(old(Snapshot()), Call(Write(path, text), reply))
      ensures log == old(log) + [Call(Write(path, text), reply)]
    {
      files := files[path := text];
      reply := Done;
      log := log + [Call(Write(path, text), reply)];
    }

    method CreateDir(path: string) returns (reply: Reply)
      modifies this
      ensures Answers(old(Snapshot()), Call(MakeDir(path), reply))
      ensures Snapshot() == After(old(Snapshot()), Call(MakeDir(path), reply))
      ensures log == old(log) + [Call(MakeDir(path), reply)]
    {
      if path in dirs {
        reply := Error("directory already exists");
      } else {
        dirs := dirs[path := []];
        reply := Done;
      }
      log := log + [Call(MakeDir(path), reply)];
    }

    method DeleteDir(path: string) returns (reply: Reply)
      modifies this
      ensures Answers(old(Snapshot()), Call(RemoveDir(path), reply))
      ensures Snapshot() == After(old(Snapshot()), Call(RemoveDir(path), reply))
      ensures log == old(log) + [Call(RemoveDir(path), reply)]
    {
      if path in dirs {
        dirs := dirs - {path};
        reply := Done;
      } else {
        reply := Error("directory not found");
      }
      log := log + [Call(RemoveDir(path), reply)];
    }

    method DeleteFile(path: string) returns (reply: Reply)
      modifies this
      ensures Answers(old(Snapshot()), Call(RemoveFile(path), reply))
      ensures Snapshot() == After(old(Snapshot()), Call(RemoveFile(path), reply))
      ensures log == old(log) + [Call(RemoveFile(path), reply)]
    {
      if path in files {
        files := files - {path};
        reply := Done;
      } else {
        reply := Error("file not found");
      }
      log := log + [Call(RemoveFile(path), reply)];
    }
  }
}
