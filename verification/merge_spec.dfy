/**
 The write-back merge file system as a function of its four pieces of state,
 against the plain map it stands for.
 */
module MergeSpec {
  import opened Prelude
  import opened Ordering
  import opened MergeKeys

  /** The object store, the read cache, and the buffered writes and deletes, all by store path. */
  datatype Fs = Fs(store: Files, cache: Files, writes: Files, deletes: seq<string>)

  /** One call. `online` says whether the store answers; a flush is given the order in which
      the write buffer is iterated, and the paths whose put or delete the store refuses. */
  datatype Op =
    | Read(key: string, online: bool)
    | Write(key: string, content: Bytes)
    | Delete(key: string)
    | Exists(key: string, online: bool)
    | List(prefix: string, online: bool)
    | Flush(order: seq<string>, putFails: set<string>, deleteFails: set<string>)

  datatype Out =
    | Content(content: Result<Bytes, IoError>)
    | Done(done: Result<(), IoError>)
    | Found(found: Result<bool, IoError>)
    | Listed(listed: Result<seq<string>, IoError>)

  // ── The file system ─────────────────────────────────────────────────────

  function ReadAt(fs: Fs, path: string, online: bool): (Fs, Result<Bytes, IoError>) {
    if path in fs.writes then (fs, Ok(fs.writes[path]))
    else if path in fs.deletes then (fs, Err(NotFound))
    else if path in fs.cache then (fs, Ok(fs.cache[path]))
    else if online && path in fs.store then
      (fs.(cache := fs.cache[path := fs.store[path]]), Ok(fs.store[path]))
    else (fs, Err(NotFound))
  }

  function Without(s: seq<string>, x: string): seq<string> {
    if s == [] then []
    else if s[0] == x then Without(s[1..], x)
    else [s[0]] + Without(s[1..], x)
  }

  function WriteAt(fs: Fs, path: string, content: Bytes): Fs {
    fs.(deletes := Without(fs.deletes, path), writes := fs.writes[path := content])
  }

  function DeleteAt(fs: Fs, path: string): Fs {
    fs.(writes := fs.writes - {path}, cache := fs.cache - {path},
        deletes := if path in fs.deletes then fs.deletes else fs.deletes + [path])
  }

  function ExistsAt(fs: Fs, path: string, online: bool): Result<bool, IoError> {
    if path in fs.writes then Ok(true)
    else if path in fs.deletes then Ok(false)
    else if path in fs.cache then Ok(true)
    else if online then Ok(path in fs.store)
    else Err(Other)
  }

  /** The store paths of a listing; an unreachable store lists nothing. */
  function ListedPaths(fs: Fs, prefix: string, online: bool): set<string> {
    var known := (if online then fs.store.Keys else {}) + fs.writes.Keys;
    (set x | x in known && prefix <= x) - Elems(fs.deletes)
  }

  function Rekeyed(paths: set<string>, from: string, to: string): set<string>
    requires forall x | x in paths :: from <= x
  {
    set x | x in paths :: to + x[|from|..]
  }

  /** The puts of a flush, up to the first that fails. */
  function PutAll(store: Files, writes: Files, order: seq<string>, putFails: set<string>): (Files, bool)
    requires forall x | x in order :: x in writes
    decreases order
  {
    if order == [] then (store, true)
    else if order[0] in putFails then (store, false)
    else PutAll(store[order[0] := writes[order[0]]], writes, order[1..], putFails)
  }

  ghost predicate Enumerates(order: seq<string>, m: Files) {
    NoDuplicates(order) && forall x :: x in order <==> x in m
  }

  function FlushAt(fs: Fs, order: seq<string>, putFails: set<string>, deleteFails: set<string>): (Fs, bool)
    requires forall x | x in order :: x in fs.writes
  {
    var (store, ok) := PutAll(fs.store, fs.writes, order, putFails);
    (Fs(if ok then store - (Elems(fs.deletes) - deleteFails) else store, fs.cache, map[], []), ok)
  }

  /** A flush iterates exactly the write buffer. */
  ghost predicate Enabled(fs: Fs, op: Op) {
    op.Flush? ==> Enumerates(op.order, fs.writes)
  }

  ghost function Step(p: Prefixes, fs: Fs, op: Op): (Fs, Out)
    requires Enabled(fs, op)
  {
    match op
    case Read(key, online) =>
      (match S3Path(p, key)
       case Err(e) => (fs, Content(Err(e)))
       case Ok(path) => var (fs', r) := ReadAt(fs, path, online); (fs', Content(r)))
    case Write(key, content) =>
      (match S3Path(p, key)
       case Err(e) => (fs, Done(Err(e)))
       case Ok(path) => (WriteAt(fs, path, content), Done(Ok(()))))
    case Delete(key) =>
      (match S3Path(p, key)
       case Err(e) => (fs, Done(Err(e)))
       case Ok(path) => (DeleteAt(fs, path), Done(Ok(()))))
    case Exists(key, online) =>
      (match S3Path(p, key)
       case Err(e) => (fs, Found(Err(e)))
       case Ok(path) => (fs, Found(ExistsAt(fs, path, online))))
    case List(prefix, online) =>
      (match S3Prefix(p, prefix)
       case Err(e) => (fs, Listed(Err(e)))
       case Ok((path, key)) => (fs, Listed(Ok(Sorted(Rekeyed(ListedPaths(fs, path, online), path, key))))))
    case Flush(order, putFails, deleteFails) =>
      var (fs', ok) := FlushAt(fs, order, putFails, deleteFails);
      (fs', Done(if ok then Ok(()) else Err(Other)))
  }

  // ── The plain map ───────────────────────────────────────────────────────

  /** What the file system stands for. */
  function View(fs: Fs): Files { (fs.store - Elems(fs.deletes)) + fs.writes }

  ghost function PlainStep(p: Prefixes, m: Files, op: Op): (Files, Out) {
    match op
    case Read(key, _) =>
      (match S3Path(p, key)
       case Err(e) => (m, Content(Err(e)))
       case Ok(path) => (m, Content(if path in m then Ok(m[path]) else Err(NotFound))))
    case Write(key, content) =>
      (match S3Path(p, key)
       case Err(e) => (m, Done(Err(e)))
       case Ok(path) => (m[path := content], Done(Ok(()))))
    case Delete(key) =>
      (match S3Path(p, key)
       case Err(e) => (m, Done(Err(e)))
       case Ok(path) => (m - {path}, Done(Ok(()))))
    case Exists(key, _) =>
      (match S3Path(p, key)
       case Err(e) => (m, Found(Err(e)))
       case Ok(path) => (m, Found(Ok(path in m))))
    case List(prefix, _) =>
      (match S3Prefix(p, prefix)
       case Err(e) => (m, Listed(Err(e)))
       case Ok((path, key)) =>
         (m, Listed(Ok(Sorted(Rekeyed((set x | x in m && path <= x), path, key))))))
    case Flush(_, _, _) =>
      (m, Done(Ok(())))
  }

  // ── Invariants ──────────────────────────────────────────────────────────

  /** Kept by every call, failing flushes included. */
  ghost predicate Tidy(fs: Fs) {
    && fs.writes.Keys !! Elems(fs.deletes)
    && NoDuplicates(fs.deletes)
    && fs.cache.Keys !! Elems(fs.deletes)
    && fs.cache.Keys <= fs.store.Keys
  }

  /** The cache agrees with the store. Kept until a flush overwrites a cached path. */
  ghost predicate Coherent(fs: Fs) {
    forall x | x in fs.cache && x in fs.store :: fs.cache[x] == fs.store[x]
  }

  /** A read of `path` is answered from an outdated cache entry. */
  predicate Stale(fs: Fs, path: string) {
    && path !in fs.writes && path !in fs.deletes && path in fs.cache
    && (path in fs.store ==> fs.cache[path] != fs.store[path])
  }

  lemma {:induction false} WithoutElems(s: seq<string>, x: string)
    ensures Elems(Without(s, x)) == Elems(s) - {x}
    ensures NoDuplicates(s) ==> NoDuplicates(Without(s, x))
  {
    if s != [] {
      WithoutElems(s[1..], x);
      assert Elems(s) == {s[0]} + Elems(s[1..]);
      assert Elems([s[0]] + Without(s[1..], x)) == {s[0]} + Elems(Without(s[1..], x));
      assert NoDuplicates(s) ==> s[0] !in Elems(s[1..]);
      assert NoDuplicates(s) ==> s[0] !in Elems(Without(s[1..], x));
      assert forall y :: y in Without(s[1..], x) ==> y in Elems(Without(s[1..], x));
    }
  }

  lemma {:induction false} PutAllEffect(store: Files, writes: Files, order: seq<string>, putFails: set<string>)
    requires forall x | x in order :: x in writes
    requires NoDuplicates(order)
    ensures var (after, ok) := PutAll(store, writes, order, putFails);
      && store.Keys <= after.Keys <= store.Keys + Elems(order)
      && (forall x | x in store && x !in order :: after[x] == store[x])
      && (forall x | x in after && x in order :: after[x] == writes[x] || (x in store && after[x] == store[x]))
      && (ok <==> Elems(order) !! putFails)
      && (ok ==> forall x | x in order :: x in after && after[x] == writes[x])
    decreases order
  {
    if order != [] && order[0] !in putFails {
      assert forall x :: x in order <==> x == order[0] || x in order[1..];
      assert order[0] !in order[1..];
      assert Elems(order) == {order[0]} + Elems(order[1..]);
      PutAllEffect(store[order[0] := writes[order[0]]], writes, order[1..], putFails);
    } else if order != [] {
      assert order[0] in Elems(order);
    }
  }

  /** Every call keeps the bookkeeping in order. */
  lemma StepTidy(p: Prefixes, fs: Fs, op: Op)
    requires Tidy(fs) && Enabled(fs, op)
    ensures Tidy(Step(p, fs, op).0)
  {
    hide S3Path, S3Prefix;
    match op
    case Write(key, content) =>
      if S3Path(p, key).Ok? { WithoutElems(fs.deletes, S3Path(p, key).value); }
    case Delete(key) =>
      if S3Path(p, key).Ok? {
        var path := S3Path(p, key).value;
        assert Elems(fs.deletes + [path]) == Elems(fs.deletes) + {path};
      }
    case Flush(order, putFails, deleteFails) =>
      PutAllEffect(fs.store, fs.writes, order, putFails);
    case Read(_, _) =>
    case Exists(_, _) =>
    case List(_, _) =>
  }

  // ── One call ────────────────────────────────────────────────────────────

  predicate Online(op: Op) {
    match op
    case Read(_, online) => online
    case Exists(_, online) => online
    case List(_, online) => online
    case _ => true
  }

  lemma WriteRefines(fs: Fs, path: string, content: Bytes)
    requires Tidy(fs)
    ensures View(WriteAt(fs, path, content)) == View(fs)[path := content]
  {
    WithoutElems(fs.deletes, path);
  }

  lemma DeleteRefines(fs: Fs, path: string)
    requires Tidy(fs)
    ensures View(DeleteAt(fs, path)) == View(fs) - {path}
  {
  }

  lemma ReadRefines(fs: Fs, path: string)
    requires Tidy(fs)
    ensures var (fs', r) := ReadAt(fs, path, true);
      && View(fs') == View(fs)
      && (r == (if path in View(fs) then Ok(View(fs)[path]) else Err(NotFound)) <==> !Stale(fs, path))
  {
  }

  lemma ExistsRefines(fs: Fs, path: string)
    requires Tidy(fs)
    ensures ExistsAt(fs, path, true) == Ok(path in View(fs))
  {
  }

  lemma ListRefines(fs: Fs, prefix: string)
    requires Tidy(fs)
    ensures ListedPaths(fs, prefix, true) == set x | x in View(fs) && prefix <= x
  {
  }

  /** With the store reachable, a call other than a flush does to the view what the plain
      map does, leaves the store alone, and returns what the plain map returns; a read does
      so exactly when it is not answered from an outdated cache entry. */
  lemma StepRefines(p: Prefixes, fs: Fs, op: Op)
    requires Tidy(fs) && Enabled(fs, op) && Online(op) && !op.Flush?
    ensures var (fs', out) := Step(p, fs, op);
      var (m', plain) := PlainStep(p, View(fs), op);
      && View(fs') == m' && fs'.store == fs.store
      && (Coherent(fs) ==> Coherent(fs'))
      && (out == plain <==> !(op.Read? && S3Path(p, op.key).Ok? && Stale(fs, S3Path(p, op.key).value)))
  {
    hide S3Path, S3Prefix, View, Tidy, ListedPaths, Rekeyed, ExistsAt, Stale, Without;
    match op
    case Write(key, content) =>
      if S3Path(p, key).Ok? { WriteRefines(fs, S3Path(p, key).value, content); }
    case Delete(key) =>
      if S3Path(p, key).Ok? { DeleteRefines(fs, S3Path(p, key).value); }
    case Read(key, online) =>
      if S3Path(p, key).Ok? { ReadRefines(fs, S3Path(p, key).value); }
    case Exists(key, online) =>
      if S3Path(p, key).Ok? { ExistsRefines(fs, S3Path(p, key).value); }
    case List(prefix, online) =>
      if S3Prefix(p, prefix).Ok? { ListRefines(fs, S3Prefix(p, prefix).value.0); }
  }

  // ── Flushing ────────────────────────────────────────────────────────────

  /** No store refuses what this flush asks of it. */
  predicate Complete(fs: Fs, op: Op)
    requires op.Flush?
  {
    fs.writes.Keys !! op.putFails && (Elems(fs.deletes) * op.deleteFails) !! fs.store.Keys
  }

  /** No cached path is about to be overwritten with something else. */
  predicate FlushSafe(fs: Fs) {
    forall x | x in fs.cache && x in fs.writes :: fs.cache[x] == fs.writes[x]
  }

  lemma NothingBuffered(fs: Fs)
    requires fs.writes == map[] && fs.deletes == []
    ensures View(fs) == fs.store
  {
  }

  /** A flush succeeds when no put fails, in whatever order the buffer is iterated. The store
      then holds the view exactly when no delete of a stored path was refused; the buffers
      are empty either way. */
  lemma FlushExact(p: Prefixes, fs: Fs, op: Op)
    requires Tidy(fs) && Enabled(fs, op) && op.Flush?
    ensures var (fs', out) := Step(p, fs, op);
      && (out == Done(Ok(())) <==> fs.writes.Keys !! op.putFails)
      && fs'.writes == map[] && fs'.deletes == [] && fs'.cache == fs.cache
      && View(fs') == fs'.store
      && (out == Done(Ok(())) ==>
        (fs'.store == View(fs) <==> (Elems(fs.deletes) * op.deleteFails) !! fs.store.Keys))
  {
    hide PutAll, NoDuplicates;
    PutAllEffect(fs.store, fs.writes, op.order, op.putFails);
    var (store, ok) := PutAll(fs.store, fs.writes, op.order, op.putFails);
    assert Elems(op.order) == fs.writes.Keys;
    var fs' := Step(p, fs, op).0;
    NothingBuffered(fs');
    if ok {
      assert store.Keys == fs.store.Keys + fs.writes.Keys;
      assert store == fs.store + fs.writes;
      DeletesExactly(fs, op.deleteFails);
    }
  }

  lemma DeletesExactly(fs: Fs, deleteFails: set<string>)
    requires Tidy(fs)
    ensures (fs.store + fs.writes) - (Elems(fs.deletes) - deleteFails) == View(fs) <==>
      (Elems(fs.deletes) * deleteFails) !! fs.store.Keys
  {
    var left := (fs.store + fs.writes) - (Elems(fs.deletes) - deleteFails);
    if (Elems(fs.deletes) * deleteFails) !! fs.store.Keys {
      assert left == View(fs);
    } else {
      var x :| x in Elems(fs.deletes) * deleteFails && x in fs.store;
      assert x in left && x !in View(fs);
    }
  }

  /** A flush that fails half-way leaves each path with its old content, present or absent,
      or with its buffered write. It applies no delete, and it forgets the whole buffer. */
  lemma FailedFlush(p: Prefixes, fs: Fs, op: Op)
    requires Tidy(fs) && Enabled(fs, op) && op.Flush? && Step(p, fs, op).1 != Done(Ok(()))
    ensures var fs' := Step(p, fs, op).0;
      && fs.store.Keys <= fs'.store.Keys
      && (forall x | x in fs'.store ::
        (x in fs.writes && fs'.store[x] == fs.writes[x]) || (x in fs.store && fs'.store[x] == fs.store[x]))
      && View(fs') == fs'.store
    ensures forall again | Enabled(Step(p, fs, op).0, again) && again.Flush? ::
      Step(p, Step(p, fs, op).0, again) == (Step(p, fs, op).0, Done(Ok(())))
  {
    PutAllEffect(fs.store, fs.writes, op.order, op.putFails);
    FlushExact(p, fs, op);
    var fs' := Step(p, fs, op).0;
    forall again | Enabled(fs', again) && again.Flush? ensures Step(p, fs', again) == (fs', Done(Ok(()))) {
      assert forall x :: x !in again.order;
      NothingIn(again.order);
      assert fs'.store - (Elems([]) - again.deleteFails) == fs'.store;
    }
  }

  lemma NothingIn(s: seq<string>)
    ensures s == [] <==> Elems(s) == {}
  {
    if s != [] { assert s[0] in Elems(s); }
  }

  /** After a complete flush the cache agrees with the store exactly when no cached path
      was overwritten with different content. */
  lemma FlushCoherence(p: Prefixes, fs: Fs, op: Op)
    requires Tidy(fs) && Coherent(fs) && Enabled(fs, op) && op.Flush? && Complete(fs, op)
    ensures Coherent(Step(p, fs, op).0) <==> FlushSafe(fs)
    ensures forall path :: Stale(Step(p, fs, op).0, path) <==>
      path in fs.cache && path in fs.writes && fs.cache[path] != fs.writes[path]
  {
    FlushExact(p, fs, op);
    var fs' := Step(p, fs, op).0;
    assert fs'.store == View(fs);
    if Coherent(fs') {
      forall x | x in fs.cache && x in fs.writes ensures fs.cache[x] == fs.writes[x] {
        assert x in fs'.cache && x in fs'.store;
      }
    }
  }

  // ── Whole runs ──────────────────────────────────────────────────────────

  function Start(store: Files): Fs { Fs(store, map[], map[], []) }

  ghost predicate EnabledRun(p: Prefixes, fs: Fs, ops: seq<Op>)
    decreases |ops|
  {
    ops == [] || (Enabled(fs, ops[0]) && EnabledRun(p, Step(p, fs, ops[0]).0, ops[1..]))
  }

  ghost function Final(p: Prefixes, fs: Fs, ops: seq<Op>): Fs
    requires EnabledRun(p, fs, ops)
    decreases |ops|
  {
    if ops == [] then fs else Final(p, Step(p, fs, ops[0]).0, ops[1..])
  }

  ghost function Outs(p: Prefixes, fs: Fs, ops: seq<Op>): seq<Out>
    requires EnabledRun(p, fs, ops)
    decreases |ops|
  {
    if ops == [] then [] else [Step(p, fs, ops[0]).1] + Outs(p, Step(p, fs, ops[0]).0, ops[1..])
  }

  ghost function PlainFinal(p: Prefixes, m: Files, ops: seq<Op>): Files
    decreases |ops|
  {
    if ops == [] then m else PlainFinal(p, PlainStep(p, m, ops[0]).0, ops[1..])
  }

  ghost function PlainOuts(p: Prefixes, m: Files, ops: seq<Op>): seq<Out>
    decreases |ops|
  {
    if ops == [] then [] else [PlainStep(p, m, ops[0]).1] + PlainOuts(p, PlainStep(p, m, ops[0]).0, ops[1..])
  }

  /** The store is reachable throughout and refuses nothing. */
  ghost predicate Served(p: Prefixes, fs: Fs, ops: seq<Op>)
    requires EnabledRun(p, fs, ops)
    decreases |ops|
  {
    ops == [] || (
      && Online(ops[0]) && (ops[0].Flush? ==> Complete(fs, ops[0]))
      && Served(p, Step(p, fs, ops[0]).0, ops[1..]))
  }

  /** No read of the run meets an outdated cache entry. */
  ghost predicate NoStaleRead(p: Prefixes, fs: Fs, ops: seq<Op>)
    requires EnabledRun(p, fs, ops)
    decreases |ops|
  {
    ops == [] || (
      && !(ops[0].Read? && S3Path(p, ops[0].key).Ok? && Stale(fs, S3Path(p, ops[0].key).value))
      && NoStaleRead(p, Step(p, fs, ops[0]).0, ops[1..]))
  }

  /** No flush of the run overwrites a cached path with different content. */
  ghost predicate FlushesSafely(p: Prefixes, fs: Fs, ops: seq<Op>)
    requires EnabledRun(p, fs, ops)
    decreases |ops|
  {
    ops == [] || (
      && (ops[0].Flush? ==> FlushSafe(fs))
      && FlushesSafely(p, Step(p, fs, ops[0]).0, ops[1..]))
  }

  /** Over any run, flushes included, against a store that serves it: the view is always the
      plain map, and all results are those of the plain map exactly when no read meets an
      outdated cache entry. */
  lemma {:induction false} RunExact(p: Prefixes, fs: Fs, ops: seq<Op>)
    requires Tidy(fs) && EnabledRun(p, fs, ops) && Served(p, fs, ops)
    ensures Tidy(Final(p, fs, ops)) && View(Final(p, fs, ops)) == PlainFinal(p, View(fs), ops)
    ensures Outs(p, fs, ops) == PlainOuts(p, View(fs), ops) <==> NoStaleRead(p, fs, ops)
    decreases |ops|
  {
    hide Step, PlainStep, S3Path, View, Tidy, Stale;
    if ops != [] {
      var fs' := Step(p, fs, ops[0]).0;
      StepTidy(p, fs, ops[0]);
      if ops[0].Flush? {
        FlushExact(p, fs, ops[0]);
        PlainFlush(p, View(fs), ops[0]);
      } else {
        StepRefines(p, fs, ops[0]);
      }
      RunExact(p, fs', ops[1..]);
      var out, plain := Step(p, fs, ops[0]).1, PlainStep(p, View(fs), ops[0]).1;
      var rest, plainRest := Outs(p, fs', ops[1..]), PlainOuts(p, View(fs'), ops[1..]);
      assert ([out] + rest)[0] == out && ([out] + rest)[1..] == rest;
      assert ([plain] + plainRest)[0] == plain && ([plain] + plainRest)[1..] == plainRest;
    }
  }

  lemma PlainFlush(p: Prefixes, m: Files, op: Op)
    requires op.Flush?
    ensures PlainStep(p, m, op) == (m, Done(Ok(())))
  {
  }

  // ── What a caller knows of the cache ────────────────────────────────────

  /** What a caller can remember of one path: the content that it first read from the store
      since it last deleted the path, and whether it has written it since the last flush. */
  datatype Memory = Memory(seen: Option<Bytes>, buffered: bool)

  /** `m` is the plain map before the call. */
  function RememberAt(p: Prefixes, m: Files, mem: Memory, op: Op, path: string): Memory {
    match op
    case Read(key, _) =>
      if S3Path(p, key) == Ok(path) && !mem.buffered && mem.seen.None? && path in m
      then Memory(Some(m[path]), false) else mem
    case Write(key, _) => if S3Path(p, key) == Ok(path) then mem.(buffered := true) else mem
    case Delete(key) => if S3Path(p, key) == Ok(path) then Memory(None, false) else mem
    case Flush(_, _, _) => mem.(buffered := false)
    case _ => mem
  }

  /** The path was read, then written with other content, then flushed, and not deleted since. */
  predicate Outdated(m: Files, mem: Memory, path: string) {
    !mem.buffered && mem.seen.Some? && !(path in m && m[path] == mem.seen.value)
  }

  ghost predicate FreshByHistory(p: Prefixes, m: Files, mems: string -> Memory, ops: seq<Op>)
    decreases |ops|
  {
    ops == [] || (
      && !(ops[0].Read? && S3Path(p, ops[0].key).Ok? &&
           var path := S3Path(p, ops[0].key).value; Outdated(m, mems(path), path))
      && FreshByHistory(p, PlainStep(p, m, ops[0]).0, path => RememberAt(p, m, mems(path), ops[0], path), ops[1..]))
  }

  /** The caller's memory is the hidden state. */
  ghost predicate Remembered(fs: Fs, mem: Memory, path: string) {
    && (path in fs.writes <==> mem.buffered)
    && mem.seen == if path in fs.cache then Some(fs.cache[path]) else None
  }

  lemma StaleIsOutdated(fs: Fs, mem: Memory, path: string)
    requires Tidy(fs) && Remembered(fs, mem, path)
    ensures Stale(fs, path) <==> Outdated(View(fs), mem, path)
  {
  }

  lemma StepRemembers(p: Prefixes, fs: Fs, mem: Memory, op: Op, path: string)
    requires Tidy(fs) && Enabled(fs, op) && Online(op) && Remembered(fs, mem, path)
    ensures Remembered(Step(p, fs, op).0, RememberAt(p, View(fs), mem, op, path), path)
  {
    hide S3Path, S3Prefix, PutAll, ListedPaths, Rekeyed, Without;
  }

  lemma {:induction false} NoStaleReadByHistory(p: Prefixes, fs: Fs, mems: string -> Memory, ops: seq<Op>)
    requires Tidy(fs) && EnabledRun(p, fs, ops) && Served(p, fs, ops)
    requires forall path :: Remembered(fs, mems(path), path)
    ensures NoStaleRead(p, fs, ops) <==> FreshByHistory(p, View(fs), mems, ops)
    decreases |ops|
  {
    hide Step, PlainStep, S3Path, View, Tidy, Stale, Outdated, Remembered, RememberAt;
    if ops != [] {
      var op, fs' := ops[0], Step(p, fs, ops[0]).0;
      StepTidy(p, fs, op);
      if op.Flush? {
        FlushExact(p, fs, op);
        PlainFlush(p, View(fs), op);
      } else {
        StepRefines(p, fs, op);
      }
      forall path ensures Remembered(fs', RememberAt(p, View(fs), mems(path), op, path), path) {
        StepRemembers(p, fs, mems(path), op, path);
      }
      if op.Read? && S3Path(p, op.key).Ok? {
        var path := S3Path(p, op.key).value;
        StaleIsOutdated(fs, mems(path), path);
      }
      NoStaleReadByHistory(p, fs', path => RememberAt(p, View(fs), mems(path), op, path), ops[1..]);
    }
  }

  /** Over any run against a store that serves it, all results are those of the plain map exactly
      when no read asks for a path that the caller has read, then written with other content,
      then flushed, without deleting it or writing it again since. */
  lemma RunExactByHistory(p: Prefixes, store: Files, ops: seq<Op>)
    requires EnabledRun(p, Start(store), ops) && Served(p, Start(store), ops)
    ensures Outs(p, Start(store), ops) == PlainOuts(p, store, ops) <==>
      FreshByHistory(p, store, path => Memory(None, false), ops)
  {
    hide Step, PlainStep, S3Path;
    assert View(Start(store)) == store;
    RunExact(p, Start(store), ops);
    NoStaleReadByHistory(p, Start(store), path => Memory(None, false), ops);
  }

  lemma {:induction false} SafeRunsReadFresh(p: Prefixes, fs: Fs, ops: seq<Op>)
    requires Tidy(fs) && Coherent(fs) && EnabledRun(p, fs, ops) && Served(p, fs, ops) && FlushesSafely(p, fs, ops)
    ensures NoStaleRead(p, fs, ops) && Coherent(Final(p, fs, ops))
    decreases |ops|
  {
    hide Step, S3Path, View;
    if ops != [] {
      StepTidy(p, fs, ops[0]);
      if ops[0].Flush? { FlushCoherence(p, fs, ops[0]); } else { StepRefines(p, fs, ops[0]); }
      SafeRunsReadFresh(p, Step(p, fs, ops[0]).0, ops[1..]);
    }
  }

  /** From a fresh file system, a run whose flushes overwrite no cached path with different
      content, in particular any run before its first flush, is indistinguishable from a
      plain map that starts as the store. */
  lemma RunRefines(p: Prefixes, store: Files, ops: seq<Op>)
    requires EnabledRun(p, Start(store), ops) && Served(p, Start(store), ops)
    requires FlushesSafely(p, Start(store), ops)
    ensures Outs(p, Start(store), ops) == PlainOuts(p, store, ops)
    ensures View(Final(p, Start(store), ops)) == PlainFinal(p, store, ops)
  {
    hide Step, PlainStep, S3Path;
    assert View(Start(store)) == store;
    RunExact(p, Start(store), ops);
    SafeRunsReadFresh(p, Start(store), ops);
  }

  lemma {:induction false} BeforeFirstFlush(p: Prefixes, fs: Fs, ops: seq<Op>)
    requires Tidy(fs) && EnabledRun(p, fs, ops) && forall op | op in ops :: !op.Flush? && Online(op)
    ensures Served(p, fs, ops) && FlushesSafely(p, fs, ops)
    ensures Final(p, fs, ops).store == fs.store
    decreases |ops|
  {
    hide Step, S3Path, View;
    if ops != [] {
      assert ops[0] in ops && forall op | op in ops[1..] :: op in ops;
      StepTidy(p, fs, ops[0]);
      StepRefines(p, fs, ops[0]);
      BeforeFirstFlush(p, Step(p, fs, ops[0]).0, ops[1..]);
    }
  }

  /** Read, overwrite, flush, read again: the store has the second content, and the second
      read returns the first. */
  lemma StaleAfterFlush(p: Prefixes, rel: string)
    ensures var path, key := p.base + rel, BASE + rel;
      var fs1 := Step(p, Start(map[path := [1]]), Read(key, true)).0;
      var fs2 := Step(p, fs1, Write(key, [2])).0;
      && Enabled(fs2, Flush([path], {}, {}))
      && var fs3 := Step(p, fs2, Flush([path], {}, {})).0;
      && fs3.store == map[path := [2]] && Step(p, fs3, Read(key, true)).1 == Content(Ok([1]))
  {
    hide S3Path;
    PlainKeys(p, rel);
    var path := p.base + rel;
    assert [path][1..] == [];
    assert PutAll(map[path := [1]], map[path := [2]], [path], {}).0 == map[path := [2]];
    assert map[path := [2]] - (Elems([]) - {}) == map[path := [2]];
  }

  // ── Listings and keys ───────────────────────────────────────────────────

  /** A listing returns, strictly sorted, the keys under its prefix that `exists` confirms. */
  ghost predicate ListsWhatExists(p: Prefixes, fs: Fs, prefix: string)
    requires S3Prefix(p, prefix).Ok?
  {
    ListsUnder(p, fs, prefix, S3Prefix(p, prefix).value.1)
  }

  /** The same for the keys under `head`. */
  ghost predicate ListsUnder(p: Prefixes, fs: Fs, prefix: string, head: string) {
    var out := Step(p, fs, List(prefix, true)).1;
    && out.listed.Ok? && StrictlySorted(out.listed.value)
    && forall key :: key in out.listed.value <==>
      head <= key && Step(p, fs, Exists(key, true)).1 == Found(Ok(true))
  }

  lemma ListedKeys(p: Prefixes, fs: Fs, prefix: string, rel: string)
    requires S3Prefix(p, prefix).Ok?
    ensures var (path, head) := S3Prefix(p, prefix).value;
      head + rel in Step(p, fs, List(prefix, true)).1.listed.value <==> path + rel in ListedPaths(fs, path, true)
  {
    hide S3Path, S3Prefix;
    var (path, head) := S3Prefix(p, prefix).value;
    var paths := ListedPaths(fs, path, true);
    if head + rel in Rekeyed(paths, path, head) {
      var x :| x in paths && head + rel == head + x[|path|..];
      SameTail(head, rel, x[|path|..]);
      assert x == path + rel;
    }
    if path + rel in paths {
      assert (path + rel)[|path|..] == rel;
      assert head + rel in Rekeyed(paths, path, head);
    }
  }

  lemma ListedHeads(p: Prefixes, fs: Fs, prefix: string, key: string)
    requires S3Prefix(p, prefix).Ok?
    requires key in Step(p, fs, List(prefix, true)).1.listed.value
    ensures S3Prefix(p, prefix).value.1 <= key
  {
  }

  /** Listings and existence tests agree in every state exactly when the listing prefix is
      faithful; `SnapshotListingsFaithful` says when that is. */
  lemma ListingExact(p: Prefixes, prefix: string)
    requires S3Prefix(p, prefix).Ok?
    ensures Faithful(p, prefix) <==> forall fs | Tidy(fs) :: ListsWhatExists(p, fs, prefix)
  {
    hide S3Path, S3Prefix, Tidy;
    var (path, head) := S3Prefix(p, prefix).value;
    if Faithful(p, prefix) {
      forall fs | Tidy(fs) ensures ListsWhatExists(p, fs, prefix) { FaithfulLists(p, fs, prefix); }
    } else {
      var rel :| S3Path(p, head + rel) != Ok(path + rel);
      var fs := Start(map[path + rel := []]);
      assert Tidy(fs) by { TidyStart(map[path + rel := []]); }
      ListedKeys(p, fs, prefix, rel);
      assert path + rel in ListedPaths(fs, path, true);
      assert Step(p, fs, Exists(head + rel, true)).1 != Found(Ok(true));
      assert !ListsWhatExists(p, fs, prefix);
    }
  }

  lemma TidyStart(store: Files)
    ensures Tidy(Start(store)) && Coherent(Start(store))
  {
  }

  lemma FaithfulLists(p: Prefixes, fs: Fs, prefix: string)
    requires Tidy(fs) && S3Prefix(p, prefix).Ok? && Faithful(p, prefix)
    ensures ListsWhatExists(p, fs, prefix)
  {
    hide S3Path, S3Prefix;
    var (path, head) := S3Prefix(p, prefix).value;
    var keys := Step(p, fs, List(prefix, true)).1.listed.value;
    forall key
      ensures key in keys <==> head <= key && Step(p, fs, Exists(key, true)).1 == Found(Ok(true))
    {
      if key in keys { ListedHeads(p, fs, prefix, key); }
      if head <= key {
        var rel := key[|head|..];
        assert key == head + rel;
        ListedKeys(p, fs, prefix, rel);
        assert S3Path(p, key) == Ok(path + rel);
        assert path <= path + rel;
        assert ExistsAt(fs, path + rel, true) == Ok(true) <==> path + rel in ListedPaths(fs, path, true);
      }
    }
  }

  /** In every state, listing the overlay, the base, or the snapshot of a version without a
      slash, with or without slashes behind the name, returns exactly the keys under that name
      that exist. */
  lemma ListingsByName(p: Prefixes, fs: Fs, version: string, slashes: string)
    requires Tidy(fs) && version != "" && '/' !in version && forall c | c in slashes :: c == '/'
    ensures ListsUnder(p, fs, "overlay", "overlay/") && ListsUnder(p, fs, "overlay/", "overlay/")
    ensures ListsUnder(p, fs, "base", "base/") && ListsUnder(p, fs, "base/", "base/")
    ensures ListsUnder(p, fs, "snapshot/" + (version + slashes), "snapshot/" + version + "/")
  {
    hide S3Path, S3Prefix, Tidy, ListsUnder, Faithful;
    var prefix := "snapshot/" + (version + slashes);
    PrefixesByName(p, version, slashes);
    assert !(SNAPSHOT <= "overlay") && !(SNAPSHOT <= "overlay/") && !(SNAPSHOT <= "base") && !(SNAPSHOT <= "base/");
    PlainListingsFaithful(p, "overlay");
    PlainListingsFaithful(p, "overlay/");
    PlainListingsFaithful(p, "base");
    PlainListingsFaithful(p, "base/");
    FaithfulLists(p, fs, "overlay");
    FaithfulLists(p, fs, "overlay/");
    FaithfulLists(p, fs, "base");
    FaithfulLists(p, fs, "base/");
    assert SNAPSHOT <= prefix && prefix[|SNAPSHOT|..] == version + slashes;
    TrimsAll(version, slashes);
    NoSlash(version);
    SnapshotListingsFaithful(p, prefix);
    FaithfulLists(p, fs, prefix);
  }

  lemma NoSlash(version: string)
    requires '/' !in version
    ensures SlashAt(version) == |version|
  {
  }

  /** With prefixes that are apart, writing or deleting one key changes what no other key reads,
      in any state, one with outdated entries included. */
  lemma KeysAreIndependent(p: Prefixes, fs: Fs, op: Op, other: string, online: bool)
    requires Apart(p) && Enabled(fs, op) && (op.Write? || op.Delete?) && other != op.key
    ensures Step(p, Step(p, fs, op).0, Read(other, online)).1 == Step(p, fs, Read(other, online)).1
    ensures Step(p, Step(p, fs, op).0, Exists(other, online)).1 == Step(p, fs, Exists(other, online)).1
  {
    hide S3Path, Apart;
    if S3Path(p, op.key).Ok? && S3Path(p, other).Ok? {
      var path := S3Path(p, op.key).value;
      if S3Path(p, other) == S3Path(p, op.key) { ApartIsInjective(p, op.key, other); }
      WithoutElems(fs.deletes, path);
      assert forall x :: x in Without(fs.deletes, path) <==> x in Elems(Without(fs.deletes, path));
      assert forall x :: x in fs.deletes <==> x in Elems(fs.deletes);
    }
  }

  /** The files under a store prefix, by relative path. */
  function Namespace(m: Files, prefix: string): Files {
    var rels := set x | x in m && prefix <= x :: x[|prefix|..];
    map rel | rel in rels && prefix + rel in m :: m[prefix + rel]
  }

  lemma InNamespace(m: Files, prefix: string, rel: string)
    ensures rel in Namespace(m, prefix) <==> prefix + rel in m
  {
  }

  /** The calls that the diff engine makes, listing the overlay, testing and reading base and
      overlay files, see two plain maps of relative paths: the overlay and the base of the
      view. Only reads can differ, and only from an outdated cache entry. */
  lemma {:induction false} DiffSeesTwoMaps(p: Prefixes, fs: Fs, rel: string)
    requires Tidy(fs)
    ensures var overlay, base := Namespace(View(fs), p.overlay), Namespace(View(fs), p.base);
      && (OVERLAY + rel in Step(p, fs, List(OVERLAY, true)).1.listed.value <==> rel in overlay)
      && Step(p, fs, Exists(BASE + rel, true)).1 == Found(Ok(rel in base))
      && (rel in overlay && !Stale(fs, p.overlay + rel) ==>
        Step(p, fs, Read(OVERLAY + rel, true)).1 == Content(Ok(overlay[rel])))
      && (rel in base && !Stale(fs, p.base + rel) ==>
        Step(p, fs, Read(BASE + rel, true)).1 == Content(Ok(base[rel])))
  {
    hide S3Path, View, Tidy, Stale, Rekeyed, ListedPaths, ReadAt, ExistsAt;
    PlainKeys(p, rel);
    InNamespace(View(fs), p.overlay, rel);
    InNamespace(View(fs), p.base, rel);
    ListedKeys(p, fs, OVERLAY, rel);
    ListRefines(fs, p.overlay);
    assert p.overlay <= p.overlay + rel;
    ExistsRefines(fs, p.base + rel);
    ReadRefines(fs, p.overlay + rel);
    ReadRefines(fs, p.base + rel);
  }
}
