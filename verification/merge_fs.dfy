/** The store-backed merge file system: reads are cached, writes and deletes are buffered. */
module MergeFileSystem {
  import opened Prelude
  import opened Ordering
  import opened MergeKeys
  import opened MergeSpec

  /** The object store. Whether a call is answered is an input. */
  class FileStore {
    var files: Files

    constructor (files: Files)
      ensures this.files == files
    {
      this.files := files;
    }

    method Put(path: string, content: Bytes, fails: bool) returns (ok: bool)
      modifies this
      ensures ok == !fails && files == if ok then old(files)[path := content] else old(files)
    {
      ok := !fails;
      if ok { files := files[path := content]; }
    }

    method Remove(path: string, fails: bool)
      modifies this
      ensures files == if fails then old(files) else old(files) - {path}
    {
      if !fails { files := files - {path}; }
    }

    /** The paths under a prefix, in no particular order. */
    method List(prefix: string) returns (paths: seq<string>)
      ensures forall x :: x in paths <==> x in files && prefix <= x
    {
      paths := Elements(set x | x in files && prefix <= x);
    }
  }

  class S3MergeFs {
    const prefixes: Prefixes
    const fileStore: FileStore
    var readCache: Files
    var pendingWrites: Files
    var pendingDeletes: seq<string>

    ghost function State(): Fs
      reads this, fileStore
    {
      Fs(fileStore.files, readCache, pendingWrites, pendingDeletes)
    }

    ghost predicate Valid()
      reads this, fileStore
    {
      Tidy(State())
    }

    constructor (fileStore: FileStore, prefixes: Prefixes)
      ensures Valid() && State() == Start(fileStore.files)
      ensures this.fileStore == fileStore && this.prefixes == prefixes
    {
      this.fileStore, this.prefixes := fileStore, prefixes;
      readCache, pendingWrites, pendingDeletes := map[], map[], [];
    }

    method ReadFile(key: string, online: bool) returns (r: Result<Bytes, IoError>)
      requires Valid()
      modifies this
      ensures Valid()
      ensures Step(prefixes, old(State()), Read(key, online)) == (State(), Content(r))
    {
      StepTidy(prefixes, State(), Read(key, online));
      match S3Path(prefixes, key)
      case Err(e) => return Err(e);
      case Ok(path) =>
        if path in pendingWrites {
          return Ok(pendingWrites[path]);
        }
        if path in pendingDeletes {
          return Err(NotFound);
        }
        if path in readCache {
          return Ok(readCache[path]);
        }
        if !online || path !in fileStore.files {
          return Err(NotFound);
        }
        var content := fileStore.files[path];
        readCache := readCache[path := content];
        return Ok(content);
    }

    method WriteFile(key: string, content: Bytes) returns (r: Result<(), IoError>)
      requires Valid()
      modifies this
      ensures Valid()
      ensures Step(prefixes, old(State()), Write(key, content)) == (State(), Done(r))
    {
      StepTidy(prefixes, State(), Write(key, content));
      match S3Path(prefixes, key)
      case Err(e) => return Err(e);
      case Ok(path) =>
        pendingDeletes := Without(pendingDeletes, path);
        pendingWrites := pendingWrites[path := content];
        return Ok(());
    }

    method Exists(key: string, online: bool) returns (r: Result<bool, IoError>)
      requires Valid()
      ensures Step(prefixes, State(), MergeSpec.Exists(key, online)) == (State(), Found(r))
    {
      match S3Path(prefixes, key)
      case Err(e) => return Err(e);
      case Ok(path) =>
        if path in pendingWrites {
          return Ok(true);
        }
        if path in pendingDeletes {
          return Ok(false);
        }
        if path in readCache {
          return Ok(true);
        }
        return if online then Ok(path in fileStore.files) else Err(Other);
    }

    method DeleteFile(key: string) returns (r: Result<(), IoError>)
      requires Valid()
      modifies this
      ensures Valid()
      ensures Step(prefixes, old(State()), Delete(key)) == (State(), Done(r))
    {
      StepTidy(prefixes, State(), Delete(key));
      match S3Path(prefixes, key)
      case Err(e) => return Err(e);
      case Ok(path) =>
        pendingWrites := pendingWrites - {path};
        readCache := readCache - {path};
        if path !in pendingDeletes {
          pendingDeletes := pendingDeletes + [path];
        }
        return Ok(());
    }

    /** Adds the keys of `paths` that are under the prefix and not deleted, each once. */
    method Collect(paths: seq<string>, path: string, head: string, found: seq<string>)
      returns (keys: seq<string>)
      requires NoDuplicates(found)
      ensures NoDuplicates(keys)
      ensures forall k :: k in keys <==> k in found || exists x | x in paths ::
        x !in pendingDeletes && path <= x && k == head + x[|path|..]
    {
      keys := found;
      for i := 0 to |paths|
        invariant NoDuplicates(keys)
        invariant forall k :: k in keys <==> k in found || exists x | x in paths[..i] ::
          x !in pendingDeletes && path <= x && k == head + x[|path|..]
      {
        assert paths[..i + 1] == paths[..i] + [paths[i]];
        if paths[i] in pendingDeletes {
          continue;
        }
        if path <= paths[i] {
          var key := head + paths[i][|path|..];
          if key !in keys {
            keys := keys + [key];
          }
        }
      }
      assert paths[..|paths|] == paths;
    }

    method ListFiles(prefix: string, online: bool) returns (r: Result<seq<string>, IoError>)
      requires Valid()
      ensures Step(prefixes, State(), MergeSpec.List(prefix, online)) == (State(), Listed(r))
    {
      hide Leq, Sort, S3Prefix, Tidy;
      match S3Prefix(prefixes, prefix)
      case Err(e) => return Err(e);
      case Ok((path, head)) =>
        var stored := [];
        if online {
          stored := fileStore.List(path);
        }
        var pending := Elements(set x | x in pendingWrites && path <= x);
        var keys := Collect(stored, path, head, []);
        keys := Collect(pending, path, head, keys);
        SortIsStrict(keys);
        ghost var listed := Rekeyed(ListedPaths(State(), path, online), path, head);
        StrictlySortedUnique(Sort(keys, Leq), Sorted(listed));
        return Ok(Sort(keys, Leq));
    }

    /** Empties both buffers, then puts every buffered write, in the iteration order of the
        map, until one fails; deletes follow only if all puts succeeded, and their failures
        are ignored. */
    method FlushAll(putFails: set<string>, deleteFails: set<string>)
      returns (r: Result<(), IoError>, ghost order: seq<string>)
      requires Valid()
      modifies this, fileStore
      ensures Valid()
      ensures Enumerates(order, old(pendingWrites))
      ensures Step(prefixes, old(State()), Flush(order, putFails, deleteFails)) == (State(), Done(r))
    {
      hide Tidy, PutAll, NoDuplicates;
      var paths := Elements(pendingWrites.Keys);
      order := paths;
      StepTidy(prefixes, State(), Flush(order, putFails, deleteFails));
      var writes, deletes := pendingWrites, pendingDeletes;
      pendingWrites, pendingDeletes := map[], [];
      var ok := PutPending(writes, paths, putFails);
      if !ok {
        return Err(Other), order;
      }
      DeletePending(deletes, deleteFails);
      return Ok(()), order;
    }

    method PutPending(writes: Files, paths: seq<string>, putFails: set<string>) returns (ok: bool)
      requires forall x | x in paths :: x in writes
      modifies fileStore
      ensures PutAll(old(fileStore.files), writes, paths, putFails) == (fileStore.files, ok)
    {
      for i := 0 to |paths|
        invariant PutAll(old(fileStore.files), writes, paths, putFails)
               == PutAll(fileStore.files, writes, paths[i..], putFails)
      {
        assert paths[i..][0] == paths[i] && paths[i..][1..] == paths[i + 1..];
        ok := fileStore.Put(paths[i], writes[paths[i]], paths[i] in putFails);
        if !ok {
          return;
        }
      }
      ok := true;
    }

    method DeletePending(deletes: seq<string>, deleteFails: set<string>)
      modifies fileStore
      ensures fileStore.files == old(fileStore.files) - (Elems(deletes) - deleteFails)
    {
      for i := 0 to |deletes|
        invariant fileStore.files == old(fileStore.files) - (Elems(deletes[..i]) - deleteFails)
      {
        assert Elems(deletes[..i + 1]) == Elems(deletes[..i]) + {deletes[i]};
        fileStore.Remove(deletes[i], deletes[i] in deleteFails);
      }
      assert deletes[..|deletes|] == deletes;
    }
  }
}
