/**
 The server's fast-forward merge, carried out through the store-backed merge file
 system: what it leaves in the object store is what the protocol says of it.
 */
module ServerMerge {
  import opened Prelude
  import opened MergeKeys
  import opened MergeSpec
  import opened ServerModel

  predicate Asks(op: Op) { (op.Read? || op.Exists? || op.List?) && Online(op) }

  /** The calls of the diff before the merge, and of the graph after it: reads, tests and listings
      of any keys. */
  ghost function AskAll(p: Prefixes, fs: Fs, calls: seq<Op>): Fs
    requires forall op | op in calls :: Asks(op)
    decreases |calls|
  {
    if calls == [] then fs
    else
      assert Asks(calls[0]) && forall op | op in calls[1..] :: op in calls;
      AskAll(p, Step(p, fs, calls[0]).0, calls[1..])
  }

  /** Saves the base files that are about to change under the new version. */
  ghost function SaveAll(p: Prefixes, fs: Fs, version: string, rels: seq<string>): (Fs, bool)
    decreases |rels|
  {
    if rels == [] then (fs, true)
    else if Step(p, fs, Exists(BASE + rels[0], true)).1 != Found(Ok(true)) then SaveAll(p, fs, version, rels[1..])
    else
      var (read, out) := Step(p, fs, Read(BASE + rels[0], true));
      match out.content
      case Err(_) => (read, false)
      case Ok(content) =>
        SaveAll(p, Step(p, read, Write(SNAPSHOT + (version + "/" + rels[0]), content)).0, version, rels[1..])
  }

  /** Copies overlay files to the base, each as it is read. */
  ghost function ApplyAll(p: Prefixes, fs: Fs, rels: seq<string>): (Fs, bool)
    decreases |rels|
  {
    if rels == [] then (fs, true)
    else
      var (read, out) := Step(p, fs, Read(OVERLAY + rels[0], true));
      match out.content
      case Err(_) => (read, false)
      case Ok(content) => ApplyAll(p, Step(p, read, Write(BASE + rels[0], content)).0, rels[1..])
  }

  ghost function DeleteAll(p: Prefixes, fs: Fs, deleted: seq<string>): Fs
    decreases |deleted|
  {
    if deleted == [] then fs else DeleteAll(p, Step(p, fs, Delete(BASE + deleted[0])).0, deleted[1..])
  }

  /** Before the flush: the store is untouched and the cache agrees with it; behind the
      buffers there are the `base` files, and all other paths are as in `rest`. */
  ghost predicate Holding(p: Prefixes, fs: Fs, store: Files, rest: Files, base: Files) {
    && Tidy(fs) && Coherent(fs) && fs.store == store
    && Beside(View(fs), p.base, rest) && Shows(View(fs), p.base, base)
  }

  /** Two stores have the same files beside a prefix. */
  ghost predicate Beside(m: Files, prefix: string, n: Files) {
    forall x | !(prefix <= x) :: At(m, x) == At(n, x)
  }

  /** The files under a prefix are `files`: the same as `Namespace(m, prefix) == files`. */
  ghost predicate Shows(m: Files, prefix: string, files: Files) {
    (forall x :: x in files <==> prefix + x in m) && forall x | x in files :: files[x] == m[prefix + x]
  }

  // ── Namespaces ──────────────────────────────────────────────────────────

  lemma {:induction false} InMine(m: Files, mine: string, files: Files, rel: string, content: Bytes)
    requires Shows(m, mine, files)
    ensures Shows(m[mine + rel := content], mine, files[rel := content])
    ensures Shows(m - {mine + rel}, mine, files - {rel})
  {
    forall x ensures mine + x == mine + rel <==> x == rel {
      if mine + x == mine + rel { SameTail(mine, x, rel); }
    }
  }

  lemma NotInOther(m: Files, path: string, other: string, files: Files, content: Bytes)
    requires Shows(m, other, files) && forall x :: other + x != path
    ensures Shows(m[path := content], other, files) && Shows(m - {path}, other, files)
  {
  }

  lemma {:induction false} ShowsNamespace(m: Files, prefix: string, files: Files)
    ensures Shows(m, prefix, files) <==> Namespace(m, prefix) == files
  {
    NamespaceIs(m, prefix);
    hide Namespace;
  }

  lemma {:induction false} NamespaceIs(m: Files, prefix: string)
    ensures forall x :: x in Namespace(m, prefix) <==> prefix + x in m
    ensures forall x | x in Namespace(m, prefix) :: Namespace(m, prefix)[x] == m[prefix + x]
  {
    forall x ensures x in Namespace(m, prefix) <==> prefix + x in m { InNamespace(m, prefix, x); }
  }

  // ── Single calls ────────────────────────────────────────────────────────

  lemma {:induction false} ReadHeld(p: Prefixes, fs: Fs, store: Files, rest: Files, base: Files, rel: string)
    requires Apart(p) && Holding(p, fs, store, rest, base)
    ensures p.overlay + rel in rest ==>
      var (fs', out) := Step(p, fs, Read(OVERLAY + rel, true));
      out == Content(Ok(rest[p.overlay + rel])) && Holding(p, fs', store, rest, base)
    ensures Step(p, fs, Exists(BASE + rel, true)).1 == Found(Ok(rel in base))
    ensures rel in base ==>
      var (fs', out) := Step(p, fs, Read(BASE + rel, true));
      out == Content(Ok(base[rel])) && Holding(p, fs', store, rest, base)
  {
    assert !Comparable(p.base, p.overlay);
    hide S3Path, View, Tidy, Coherent, Namespace, Step, OutsideSnapshots, Comparable;
    PlainKeys(p, rel);
    BesideBase(p, p.overlay, rel);
    assert At(View(fs), p.overlay + rel) == At(rest, p.overlay + rel);
    ReadKeeps(p, fs, OVERLAY + rel);
    ReadKeeps(p, fs, BASE + rel);
    ExistsHeld(p, fs, BASE + rel);
  }

  lemma {:induction false} ExistsHeld(p: Prefixes, fs: Fs, key: string)
    requires Tidy(fs) && S3Path(p, key).Ok?
    ensures Step(p, fs, Exists(key, true)).1 == Found(Ok(S3Path(p, key).value in View(fs)))
  {
    hide S3Path, View, Tidy, ExistsAt;
    ExistsRefines(fs, S3Path(p, key).value);
  }

  lemma {:induction false} ReadKeeps(p: Prefixes, fs: Fs, key: string)
    requires Tidy(fs) && Coherent(fs) && S3Path(p, key).Ok?
    ensures var (fs', out) := Step(p, fs, Read(key, true));
      var path := S3Path(p, key).value;
      && Tidy(fs') && Coherent(fs') && fs'.store == fs.store && View(fs') == View(fs)
      && out == Content(if path in View(fs) then Ok(View(fs)[path]) else Err(NotFound))
  {
    assert !Stale(fs, S3Path(p, key).value);
    hide S3Path, View, Tidy, Coherent, Stale, ReadAt;
    StepTidy(p, fs, Read(key, true));
    StepRefines(p, fs, Read(key, true));
  }

  lemma {:induction false} WriteHeld(p: Prefixes, fs: Fs, store: Files, rest: Files, base: Files, rel: string, content: Bytes)
    requires Apart(p) && Holding(p, fs, store, rest, base)
    ensures Holding(p, Step(p, fs, Write(BASE + rel, content)).0, store, rest, base[rel := content])
    ensures Holding(p, Step(p, fs, Delete(BASE + rel)).0, store, rest, base - {rel})
  {
    hide S3Path, View, Tidy, Coherent, Shows, Step, Apart, Comparable;
    PlainKeys(p, rel);
    ChangeKeeps(p, fs, BASE + rel, content);
    InMine(View(fs), p.base, base, rel, content);
    assert p.base <= p.base + rel;
  }

  lemma {:induction false} ChangeKeeps(p: Prefixes, fs: Fs, key: string, content: Bytes)
    requires Tidy(fs) && Coherent(fs) && S3Path(p, key).Ok?
    ensures var fs' := Step(p, fs, Write(key, content)).0;
      Tidy(fs') && Coherent(fs') && fs'.store == fs.store && View(fs') == View(fs)[S3Path(p, key).value := content]
    ensures var fs' := Step(p, fs, Delete(key)).0;
      Tidy(fs') && Coherent(fs') && fs'.store == fs.store && View(fs') == View(fs) - {S3Path(p, key).value}
  {
    hide S3Path, View, Tidy, Coherent, WriteAt, DeleteAt;
    StepTidy(p, fs, Write(key, content));
    StepTidy(p, fs, Delete(key));
    StepRefines(p, fs, Write(key, content));
    StepRefines(p, fs, Delete(key));
  }

  lemma {:induction false} SnapshotHeld(p: Prefixes, fs: Fs, store: Files, rest: Files, base: Files, version: string, rel: string, content: Bytes)
    requires Apart(p) && '/' !in version && Holding(p, fs, store, rest, base)
    ensures var path := SnapshotPath(version, rel);
      && !(p.base <= path)
      && Holding(p, Step(p, fs, Write(SNAPSHOT + (version + "/" + rel), content)).0, store, rest[path := content], base)
  {
    hide S3Path, View, Tidy, Coherent, Shows, Step, OutsideSnapshots, Comparable, SnapshotPath;
    SnapshotKey(p, version, rel);
    ChangeKeeps(p, fs, SNAPSHOT + (version + "/" + rel), content);
    var path := SnapshotPath(version, rel);
    NeverSnapshot(p.base, version, rel);
    NotInOther(View(fs), path, p.base, base, content);
    BesideToo(View(fs), p.base, rest, path, content);
  }

  lemma BesideToo(m: Files, prefix: string, n: Files, path: string, content: Bytes)
    requires Beside(m, prefix, n)
    ensures Beside(m[path := content], prefix, n[path := content])
  {
    var m', n' := m[path := content], n[path := content];
    assert forall x | !(prefix <= x) && At(m, x) == At(n, x) :: At(m', x) == At(n', x);
  }

  lemma NeverSnapshot(q: string, version: string, rel: string)
    requires '/' !in version && OutsideSnapshots(q)
    ensures !(q <= SnapshotPath(version, rel)) && forall x :: q + x != SnapshotPath(version, rel)
  {
    hide OutsideSnapshots, SnapshotPath;
    var path := SnapshotPath(version, rel);
    if q <= path {
      Rejoin(q, path);
      OutsideMeansNever(q, path[|q|..], version, rel);
    }
    forall x ensures q + x != path {
      if q + x == path { OutsideMeansNever(q, x, version, rel); }
    }
  }

  lemma BesideBase(p: Prefixes, q: string, rel: string)
    requires !Comparable(p.base, q)
    ensures !(p.base <= q + rel)
  {
    if p.base <= q + rel {
      Rejoin(p.base, q + rel);
      CommonPath(p.base, (q + rel)[|p.base|..], q, rel);
    }
  }

  lemma {:induction false} AskHeld(p: Prefixes, fs: Fs, store: Files, rest: Files, base: Files, op: Op)
    requires Holding(p, fs, store, rest, base) && Asks(op)
    ensures Holding(p, Step(p, fs, op).0, store, rest, base)
  {
    AskKeeps(p, fs, op);
    hide Step, View, Tidy, Coherent, Shows;
  }

  lemma {:induction false} AskKeeps(p: Prefixes, fs: Fs, op: Op)
    requires Tidy(fs) && Coherent(fs) && Asks(op)
    ensures var fs' := Step(p, fs, op).0; Tidy(fs') && Coherent(fs') && fs'.store == fs.store && View(fs') == View(fs)
  {
    hide S3Path, S3Prefix, View, Tidy, Coherent, ReadAt, ListedPaths, Rekeyed;
    StepTidy(p, fs, op);
    StepRefines(p, fs, op);
  }

  // ── All calls ───────────────────────────────────────────────────────────

  lemma {:induction false} AskedHeld(p: Prefixes, fs: Fs, store: Files, rest: Files, base: Files, calls: seq<Op>)
    requires Holding(p, fs, store, rest, base) && forall op | op in calls :: Asks(op)
    ensures Holding(p, AskAll(p, fs, calls), store, rest, base)
    decreases |calls|
  {
    hide Step, Holding;
    if calls != [] {
      assert Asks(calls[0]) && Enabled(fs, calls[0]) && forall op | op in calls[1..] :: op in calls;
      hide Asks;
      AskHeld(p, fs, store, rest, base, calls[0]);
      AskedHeld(p, Step(p, fs, calls[0]).0, store, rest, base, calls[1..]);
    }
  }

  lemma {:induction false} SavedHeld(p: Prefixes, fs: Fs, store: Files, rest: Files, base: Files,
                                     version: string, rels: seq<string>)
    requires Apart(p) && '/' !in version && Holding(p, fs, store, rest, base)
    ensures var (fs', ok) := SaveAll(p, fs, version, rels);
      ok && Holding(p, fs', store, Kept(rest, base, version, rels), base)
    decreases |rels|
  {
    hide Step, Holding, Apart, SnapshotPath;
    if rels != [] {
      ReadHeld(p, fs, store, rest, base, rels[0]);
      if rels[0] in base {
        var read := Step(p, fs, Read(BASE + rels[0], true)).0;
        SnapshotHeld(p, read, store, rest, base, version, rels[0], base[rels[0]]);
        SavedHeld(p, Step(p, read, Write(SNAPSHOT + (version + "/" + rels[0]), base[rels[0]])).0,
                  store, rest[SnapshotPath(version, rels[0]) := base[rels[0]]], base, version, rels[1..]);
      } else {
        SavedHeld(p, fs, store, rest, base, version, rels[1..]);
      }
    }
  }

  /** The store with the base files among `rels` saved under a version. */
  function Kept(rest: Files, base: Files, version: string, rels: seq<string>): Files
    decreases |rels|
  {
    if rels == [] then rest
    else if rels[0] in base then
      Kept(rest[SnapshotPath(version, rels[0]) := base[rels[0]]], base, version, rels[1..])
    else Kept(rest, base, version, rels[1..])
  }

  /** Which paths that changes, and to what. */
  lemma {:induction false} KeptExactly(rest: Files, base: Files, version: string, rels: seq<string>)
    requires '/' !in version
    ensures forall rel | rel in rels && rel in base ::
      At(Kept(rest, base, version, rels), SnapshotPath(version, rel)) == Some(base[rel])
    ensures forall x | (forall rel | rel in rels && rel in base :: x != SnapshotPath(version, rel)) ::
      At(Kept(rest, base, version, rels), x) == At(rest, x)
    decreases |rels|
  {
    hide SnapshotPath;
    if rels != [] {
      var more := if rels[0] in base then rest[SnapshotPath(version, rels[0]) := base[rels[0]]] else rest;
      KeptExactly(more, base, version, rels[1..]);
      assert forall rel :: rel in rels <==> rel == rels[0] || rel in rels[1..];
      forall rel | rel in rels[1..] && rel in base && rels[0] in base
        ensures SnapshotPath(version, rel) == SnapshotPath(version, rels[0]) <==> rel == rels[0]
      {
        if SnapshotPath(version, rel) == SnapshotPath(version, rels[0]) {
          SnapshotPathsDiffer(version, rel, version, rels[0]);
        }
      }
    }
  }

  /** The overlay has no snapshots in it. */
  lemma {:induction false} KeptShows(prefix: string, rest: Files, base: Files, version: string, rels: seq<string>, files: Files)
    requires '/' !in version && OutsideSnapshots(prefix) && Shows(rest, prefix, files)
    ensures Shows(Kept(rest, base, version, rels), prefix, files)
    decreases |rels|
  {
    hide SnapshotPath, OutsideSnapshots;
    if rels != [] {
      NeverSnapshot(prefix, version, rels[0]);
      var more := if rels[0] in base then rest[SnapshotPath(version, rels[0]) := base[rels[0]]] else rest;
      KeptShows(prefix, more, base, version, rels[1..], files);
    }
  }

  function Copied(base: Files, staged: Files, rels: seq<string>): Files {
    base + map x | x in staged && x in rels :: staged[x]
  }

  lemma {:induction false} AppliedHeld(p: Prefixes, fs: Fs, store: Files, rest: Files, base: Files, staged: Files, rels: seq<string>)
    requires Apart(p) && Holding(p, fs, store, rest, base) && Shows(rest, p.overlay, staged)
    requires forall x | x in rels :: x in staged
    ensures var (fs', ok) := ApplyAll(p, fs, rels); ok && Holding(p, fs', store, rest, Copied(base, staged, rels))
    decreases |rels|
  {
    hide Step, Holding, Apart, Copied;
    if rels == [] {
      CopiedNone(base, staged);
    } else {
      var rel := rels[0];
      ReadHeld(p, fs, store, rest, base, rel);
      var read := Step(p, fs, Read(OVERLAY + rel, true)).0;
      WriteHeld(p, read, store, rest, base, rel, staged[rel]);
      CopiedStep(base, staged, rels);
      AppliedHeld(p, Step(p, read, Write(BASE + rel, staged[rel])).0, store, rest, base[rel := staged[rel]], staged, rels[1..]);
    }
  }

  lemma CopiedNone(base: Files, staged: Files)
    ensures Copied(base, staged, []) == base
  {
  }

  lemma {:induction false} CopiedStep(base: Files, staged: Files, rels: seq<string>)
    requires rels != [] && rels[0] in staged
    ensures Copied(base[rels[0] := staged[rels[0]]], staged, rels[1..]) == Copied(base, staged, rels)
    ensures forall x | x in rels[1..] :: x in rels
  {
    assert forall x :: x in rels <==> x == rels[0] || x in rels[1..];
  }

  lemma {:induction false} DeletedHeld(p: Prefixes, fs: Fs, store: Files, rest: Files, base: Files, deleted: seq<string>)
    requires Apart(p) && Holding(p, fs, store, rest, base)
    ensures Holding(p, DeleteAll(p, fs, deleted), store, rest, base - Elems(deleted))
    decreases |deleted|
  {
    hide Step, Holding, Apart;
    if deleted == [] {
      assert base - Elems([]) == base;
    } else {
      WriteHeld(p, fs, store, rest, base, deleted[0], []);
      DeletedHeld(p, Step(p, fs, Delete(BASE + deleted[0])).0, store, rest, base - {deleted[0]}, deleted[1..]);
      assert forall x :: x in deleted <==> x == deleted[0] || x in deleted[1..];
      assert base - {deleted[0]} - Elems(deleted[1..]) == base - Elems(deleted);
    }
  }

  /** A merge up to its flush: the calls of the diff, the saved files, the copied overlay, the
      deletions, and the calls of the graph. */
  datatype Merge = Merge(
    before: seq<Op>, version: string, saved: seq<string>, copied: seq<string>, deleted: seq<string>, after: seq<Op>)
  {
    predicate Valid() {
      '/' !in version && (forall op | op in before :: Asks(op)) && (forall op | op in after :: Asks(op))
    }
  }

  ghost function Buffered(p: Prefixes, store: Files, m: Merge): Fs
    requires m.Valid()
  {
    var asked := AskAll(p, Start(store), m.before);
    var applied := ApplyAll(p, SaveAll(p, asked, m.version, m.saved).0, m.copied).0;
    AskAll(p, DeleteAll(p, applied, m.deleted), m.after)
  }

  lemma {:induction false} BufferedHolds(p: Prefixes, store: Files, m: Merge)
    requires Apart(p) && m.Valid() && Enumerates(m.copied, Namespace(store, p.overlay))
    ensures var staged, base := Namespace(store, p.overlay), Namespace(store, p.base);
      Holding(p, Buffered(p, store, m), store, Kept(store, base, m.version, m.saved), (base + staged) - Elems(m.deleted))
  {
    hide Holding, Namespace, Enumerates, Step, SaveAll, ApplyAll, DeleteAll, AskAll, Asks, Kept, Shows;
    var staged, base := Namespace(store, p.overlay), Namespace(store, p.base);
    var rest := Kept(store, base, m.version, m.saved);
    StartHolds(p, store);
    KeptShows(p.overlay, store, base, m.version, m.saved, staged);
    hide Apart;
    var asked := AskAll(p, Start(store), m.before);
    AskedHeld(p, Start(store), store, store, base, m.before);
    SavedHeld(p, asked, store, store, base, m.version, m.saved);
    var saved := SaveAll(p, asked, m.version, m.saved).0;
    CopiedAll(base, staged, m.copied);
    AppliedHeld(p, saved, store, rest, base, staged, m.copied);
    var applied := ApplyAll(p, saved, m.copied).0;
    DeletedHeld(p, applied, store, rest, base + staged, m.deleted);
    AskedHeld(p, DeleteAll(p, applied, m.deleted), store, rest, (base + staged) - Elems(m.deleted), m.after);
  }

  lemma {:induction false} StartHolds(p: Prefixes, store: Files)
    ensures Holding(p, Start(store), store, store, Namespace(store, p.base))
    ensures Shows(store, p.overlay, Namespace(store, p.overlay))
  {
    assert View(Start(store)) == store;
    TidyStart(store);
    hide Namespace, Shows, View, Tidy, Coherent;
    ShowsNamespace(store, p.overlay, Namespace(store, p.overlay));
    ShowsNamespace(store, p.base, Namespace(store, p.base));
  }

  lemma CopiedAll(base: Files, staged: Files, rels: seq<string>)
    requires Enumerates(rels, staged)
    ensures Copied(base, staged, rels) == base + staged && forall x | x in rels :: x in staged
  {
  }

  // ── The flush ───────────────────────────────────────────────────────────

  /** What a flush that fails leaves. */
  lemma {:induction false} CutFlush(p: Prefixes, fs: Fs, flush: Op, store: Files, rest: Files, base: Files)
    requires Holding(p, fs, store, rest, base) && Enabled(fs, flush) && flush.Flush?
    requires Step(p, fs, flush).1 != Done(Ok(()))
    ensures var after := Step(p, fs, flush).0.store;
      && (forall x | !(p.base <= x) :: At(after, x) == At(store, x) || At(after, x) == At(rest, x))
      && Namespace(store, p.base).Keys <= Namespace(after, p.base).Keys
      && forall x | x in Namespace(after, p.base) ::
        || (x in base && Namespace(after, p.base)[x] == base[x])
        || (x in Namespace(store, p.base) && Namespace(after, p.base)[x] == Namespace(store, p.base)[x])
  {
    WritesInView(fs);
    hide Step, Namespace, View, Tidy, Coherent;
    FailedFlush(p, fs, flush);
    var after := Step(p, fs, flush).0.store;
    NamespaceIs(after, p.base);
    NamespaceIs(store, p.base);
  }

  lemma WritesInView(fs: Fs)
    ensures forall x | x in fs.writes :: x in View(fs) && View(fs)[x] == fs.writes[x]
  {
  }

  /** The server's fast-forward merge of a workspace registered at the head: whatever is asked
      of the file system before and after, and whatever the order of the writes, a flush whose
      writes succeed leaves the head's files as the protocol says, with those put back whose
      delete the store refused, and a flush that fails leaves them as one that was interrupted.
      The files that are saved are under the new version as the head had them, all of them or,
      when the flush fails, some. All other paths, the staged ones among them, are as before. */
  lemma {:induction false} FastForwardMerge(p: Prefixes, store: Files, s: Server, stage: Stage, m: Merge, flush: Op, merge: Merger)
    requires Apart(p) && m.Valid()
    requires s.files == Namespace(store, p.base) && stage.files == Namespace(store, p.overlay)
    requires stage.base == s.head && Elems(m.deleted) == stage.deleted && Enumerates(m.copied, stage.files)
    requires Enabled(Buffered(p, store, m), flush) && flush.Flush?
    ensures var fs := Buffered(p, store, m);
      var (fs', out) := Step(p, fs, flush);
      && Namespace(fs'.store, p.overlay) == stage.files
      && (out == Done(Ok(())) <==> fs.writes.Keys !! flush.putFails)
      && (out == Done(Ok(())) ==>
        && Namespace(fs'.store, p.base) == MergedFiles(s, stage, merge) + Refused(p, s.files, stage, flush)
        && forall rel | rel in m.saved && rel in s.files ::
            At(fs'.store, SnapshotPath(m.version, rel)) == Some(s.files[rel]))
      && (out != Done(Ok(())) ==>
        && (exists written :: Namespace(fs'.store, p.base) == Interrupted(s, stage, merge, written))
        && forall rel | rel in m.saved && rel in s.files ::
            var path := SnapshotPath(m.version, rel);
            At(fs'.store, path) == At(store, path) || At(fs'.store, path) == Some(s.files[rel]))
      && forall x | !(p.base <= x) && (forall rel | rel in m.saved && rel in s.files :: x != SnapshotPath(m.version, rel)) ::
          At(fs'.store, x) == At(store, x)
  {
    var fs := Buffered(p, store, m);
    var base := (s.files + stage.files) - stage.deleted;
    var rest := Kept(store, s.files, m.version, m.saved);
    forall rel ensures !(p.base <= SnapshotPath(m.version, rel)) { NeverSnapshot(p.base, m.version, rel); }
    KeptExactly(store, s.files, m.version, m.saved);
    BufferedHolds(p, store, m);
    hide *;
    hide Namespace, Step, Holding, Buffered, Refused, At, SnapshotPath, Kept;
    HeldFlush(p, fs, flush, store, rest, s.files, base);
    AtHead(s, stage, merge);
    var (fs', out) := Step(p, fs, flush);
    if out != Done(Ok(())) {
      CutFlush(p, fs, flush, store, rest, base);
      InterruptedBy(s, stage, merge, Namespace(fs'.store, p.base));
    } else {
      RefusedBy(p, s, stage, flush, Namespace(fs'.store, p.base));
    }
    OverlayKept(p, m.version, store, fs'.store);
  }

  lemma {:induction false} OverlayKept(p: Prefixes, version: string, store: Files, after: Files)
    requires Apart(p) && '/' !in version
    requires forall x | !(p.base <= x) && (forall rel :: x != SnapshotPath(version, rel)) :: At(after, x) == At(store, x)
    ensures Namespace(after, p.overlay) == Namespace(store, p.overlay)
  {
    forall rel ensures At(after, p.overlay + rel) == At(store, p.overlay + rel) {
      hide SnapshotPath, OutsideSnapshots, Comparable;
      BesideBase(p, p.overlay, rel);
      forall r ensures p.overlay + rel != SnapshotPath(version, r) { NeverSnapshot(p.overlay, version, r); }
    }
    NamespaceIs(after, p.overlay);
    NamespaceIs(store, p.overlay);
    hide Namespace;
    forall rel | rel in Namespace(after, p.overlay) || rel in Namespace(store, p.overlay)
      ensures At(Namespace(after, p.overlay), rel) == At(Namespace(store, p.overlay), rel)
    {
      assert At(after, p.overlay + rel) == At(store, p.overlay + rel);
    }
    SameFiles(Namespace(after, p.overlay), Namespace(store, p.overlay));
  }

  lemma SameFiles(m: Files, n: Files)
    requires forall x | x in m || x in n :: At(m, x) == At(n, x)
    ensures m == n
  {
    assert forall x :: (x in m <==> x in n) by {
      forall x ensures x in m <==> x in n { if x in m || x in n { assert At(m, x) == At(n, x); } }
    }
    forall x | x in m ensures m[x] == n[x] { assert At(m, x) == At(n, x); }
  }

  /** The deleted files of the head whose delete the store refuses. */
  function Refused(p: Prefixes, head: Files, stage: Stage, flush: Op): Files
    requires flush.Flush?
  {
    map x | x in head && x in stage.deleted && p.base + x in flush.deleteFails :: head[x]
  }

  /** A flush whose writes succeed leaves what the buffers hold, and of what they hide, that
      whose delete is refused. */
  lemma {:induction false} HeldFlush(p: Prefixes, fs: Fs, flush: Op, store: Files, rest: Files, head: Files, base: Files)
    requires Holding(p, fs, store, rest, base) && Enabled(fs, flush) && flush.Flush?
    requires Namespace(store, p.base) == head && forall x | x in store && !(p.base <= x) :: At(rest, x).Some?
    ensures var (fs', out) := Step(p, fs, flush);
      && (out == Done(Ok(())) <==> fs.writes.Keys !! flush.putFails)
      && (out == Done(Ok(())) ==>
        var after := Namespace(fs'.store, p.base);
        && (forall x | !(p.base <= x) :: At(fs'.store, x) == At(rest, x))
        && (forall x :: x in after <==> x in base || (x in head && p.base + x in flush.deleteFails))
        && (forall x | x in after :: after[x] == if x in base then base[x] else head[x]))
  {
    FlushExact(p, fs, flush);
    if fs.writes.Keys !! flush.putFails {
      FlushedStore(p, fs, flush);
      hide *;
      hide Namespace, Step, View, Shows;
      FlushedFiles(p.base, Step(p, fs, flush).0.store, View(fs), base, store, flush.deleteFails);
    }
  }

  /** The same for the files under one prefix. */
  lemma {:induction false} FlushedFiles(prefix: string, after: Files, view: Files, files: Files, store: Files,
                                        refused: set<string>)
    requires forall x :: x in after <==> x in view || (x in store && x in refused)
    requires forall x | x in after :: after[x] == if x in view then view[x] else store[x]
    requires Shows(view, prefix, files)
    ensures var r, head := Namespace(after, prefix), Namespace(store, prefix);
      && (forall x :: x in r <==> x in files || (x in head && prefix + x in refused))
      && (forall x | x in r :: r[x] == if x in files then files[x] else head[x])
  {
    NamespaceIs(after, prefix);
    NamespaceIs(store, prefix);
    hide Namespace;
  }

  lemma {:induction false} FlushedStore(p: Prefixes, fs: Fs, flush: Op)
    requires Tidy(fs) && Enabled(fs, flush) && flush.Flush? && fs.writes.Keys !! flush.putFails
    ensures var after := Step(p, fs, flush).0.store;
      && (forall x :: x in after <==> x in View(fs) || (x in fs.store && x in flush.deleteFails))
      && (forall x | x in after :: after[x] == if x in View(fs) then View(fs)[x] else fs.store[x])
  {
    hide PutAll, NoDuplicates;
    PutAllEffect(fs.store, fs.writes, flush.order, flush.putFails);
    assert Elems(flush.order) == fs.writes.Keys;
  }

  lemma RefusedBy(p: Prefixes, s: Server, stage: Stage, flush: Op, after: Files)
    requires flush.Flush?
    requires var base := (s.files + stage.files) - stage.deleted;
      && (forall x :: x in after <==> x in base || (x in s.files && p.base + x in flush.deleteFails))
      && (forall x | x in after :: after[x] == if x in base then base[x] else s.files[x])
    ensures after == ((s.files + stage.files) - stage.deleted) + Refused(p, s.files, stage, flush)
  {
  }

  lemma AtHead(s: Server, stage: Stage, merge: Merger)
    requires stage.base == s.head
    ensures MergedFiles(s, stage, merge) == (s.files + stage.files) - stage.deleted
  {
  }

  lemma {:induction false} InterruptedBy(s: Server, stage: Stage, merge: Merger, after: Files)
    requires stage.base == s.head && s.files.Keys <= after.Keys
    requires var base := (s.files + stage.files) - stage.deleted;
      forall x | x in after :: (x in base && after[x] == base[x]) || (x in s.files && after[x] == s.files[x])
    ensures exists written :: after == Interrupted(s, stage, merge, written)
  {
    var base := (s.files + stage.files) - stage.deleted;
    var written := set x | x in after && x in base && after[x] == base[x];
    var r := Interrupted(s, stage, merge, written);
    assert after.Keys == r.Keys;
    assert after == r;
  }
}
