/**
 What the server knows about its own past: each merge saves the files it is about to
 change under its version, and a workspace behind the head is merged with what these
 snapshots give for its base.
 */
module ServerHistory {
  import opened Prelude
  import opened MergeKeys
  import opened MergeSpec
  import opened ServerModel
  import opened ServerMerge

  // ── Collecting ──────────────────────────────────────────────────────────

  /** Reads listed keys; of a path that is there already, the earlier content stays. */
  ghost function ReadKeys(p: Prefixes, fs: Fs, prefix: string, keys: seq<string>, found: Files): (Fs, Option<Files>)
    requires forall key | key in keys :: prefix <= key
    decreases |keys|
  {
    if keys == [] then (fs, Some(found))
    else
      var (fs', out) := Step(p, fs, Read(keys[0], true));
      match out.content
      case Err(_) => (fs', None)
      case Ok(content) =>
        assert keys[0] in keys && forall key | key in keys[1..] :: key in keys;
        var rel := keys[0][|prefix|..];
        ReadKeys(p, fs', prefix, keys[1..], if rel in found then found else found[rel := content])
  }

  /** The files saved by the merges that made `versions`, the earliest content of each. */
  ghost function Collect(p: Prefixes, fs: Fs, versions: seq<string>, found: Files): (Fs, Option<Files>)
    decreases |versions|
  {
    if versions == [] then (fs, Some(found))
    else
      var prefix := "snapshot/" + versions[0] + "/";
      var listed := Step(p, fs, List(prefix, true)).1.listed;
      if listed.Err? || exists key | key in listed.value :: !(prefix <= key) then (fs, None)
      else
        var (fs', more) := ReadKeys(p, fs, prefix, listed.value, found);
        if more.None? then (fs', None) else Collect(p, fs', versions[1..], more.value)
  }

  /** What the earliest of the snapshots that have a path holds for it. */
  function FirstSaved(store: Files, versions: seq<string>, rel: string): Option<Bytes>
    decreases |versions|
  {
    if versions == [] then None
    else if SnapshotPath(versions[0], rel) in store then Some(store[SnapshotPath(versions[0], rel)])
    else FirstSaved(store, versions[1..], rel)
  }

  predicate Versions(versions: seq<string>) { forall v | v in versions :: v != "" && '/' !in v }

  lemma SnapshotText(v: string, rel: string)
    ensures "snapshot/" + v + "/" + rel == SNAPSHOT + (v + "/" + rel)
  {
  }

  lemma {:induction false} ReadAllKeys(p: Prefixes, fs: Fs, v: string, keys: seq<string>, found: Files)
    requires Tidy(fs) && Coherent(fs) && '/' !in v
    requires forall key | key in keys ::
      "snapshot/" + v + "/" <= key && SnapshotPath(v, key[|"snapshot/" + v + "/"|..]) in View(fs)
    ensures var (fs', more) := ReadKeys(p, fs, "snapshot/" + v + "/", keys, found);
      && Tidy(fs') && Coherent(fs') && View(fs') == View(fs) && more.Some?
      && (forall rel | rel in found :: At(more.value, rel) == Some(found[rel]))
      && (forall rel | rel !in found && "snapshot/" + v + "/" + rel in keys ::
        At(more.value, rel) == At(View(fs), SnapshotPath(v, rel)))
      && (forall rel | rel !in found && "snapshot/" + v + "/" + rel !in keys :: rel !in more.value)
    decreases |keys|
  {
    var prefix := "snapshot/" + v + "/";
    if keys != [] {
      var key := keys[0];
      assert key in keys && forall k | k in keys[1..] :: k in keys;
      var rel := key[|prefix|..];
      assert key == prefix + rel;
      SnapshotText(v, rel);
      SnapshotKey(p, v, rel);
      ReadKeeps(p, fs, key);
      var fs' := Step(p, fs, Read(key, true)).0;
      var more := if rel in found then found else found[rel := View(fs)[SnapshotPath(v, rel)]];
      hide *;
      hide View, Step, SnapshotPath;
      ReadAllKeys(p, fs', v, keys[1..], more);
      forall r ensures prefix + r in keys <==> r == rel || prefix + r in keys[1..] {
        if prefix + r == key { SameTail(prefix, r, rel); }
      }
    }
  }

  /** Through the merge file system, collecting finds for each path the earliest snapshot's content,
      and never fails. */
  lemma {:induction false} CollectExactly(p: Prefixes, fs: Fs, versions: seq<string>, found: Files)
    requires Tidy(fs) && Coherent(fs) && Versions(versions)
    ensures var (fs', all) := Collect(p, fs, versions, found);
      && Tidy(fs') && Coherent(fs') && View(fs') == View(fs) && all.Some?
      && (forall rel | rel in found :: At(all.value, rel) == Some(found[rel]))
      && (forall rel | rel !in found :: At(all.value, rel) == FirstSaved(View(fs), versions, rel))
    decreases |versions|
  {
    if versions != [] {
      var v := versions[0];
      var prefix := "snapshot/" + v + "/";
      assert v in versions && forall w | w in versions[1..] :: w in versions;
      var keys := SnapshotKeys(p, fs, v);
      ReadAllKeys(p, fs, v, keys, found);
      var (fs', more) := ReadKeys(p, fs, prefix, keys, found);
      hide *;
      hide Step, View, SnapshotPath;
      CollectExactly(p, fs', versions[1..], more.value);
    }
  }

  /** The keys of a snapshot are those of its files. */
  lemma SnapshotKeys(p: Prefixes, fs: Fs, v: string) returns (keys: seq<string>)
    requires Tidy(fs) && v != "" && '/' !in v
    ensures Step(p, fs, List("snapshot/" + v + "/", true)).1 == Listed(Ok(keys))
    ensures forall key | key in keys ::
      "snapshot/" + v + "/" <= key && SnapshotPath(v, key[|"snapshot/" + v + "/"|..]) in View(fs)
    ensures forall rel :: "snapshot/" + v + "/" + rel in keys <==> SnapshotPath(v, rel) in View(fs)
  {
    hide S3Path, View, Tidy, SnapshotPath, ExistsAt;
    var prefix := "snapshot/" + v + "/";
    ListingsByName(p, fs, v, "/");
    assert "snapshot/" + (v + "/") == prefix;
    keys := Step(p, fs, List(prefix, true)).1.listed.value;
    forall rel ensures prefix + rel in keys <==> SnapshotPath(v, rel) in View(fs) {
      SnapshotText(v, rel);
      SnapshotKey(p, v, rel);
      ExistsHeld(p, fs, prefix + rel);
      assert prefix <= prefix + rel;
    }
    forall key | key in keys ensures prefix <= key && SnapshotPath(v, key[|prefix|..]) in View(fs) {
      assert key == prefix + key[|prefix|..];
    }
  }

  // ── A history of merges ─────────────────────────────────────────────────

  /** What a merge that made `version` does to the store: the files it saves are under that version
      as they were, it changes no others, and the snapshots of other versions stay. What else
      happens until the next merge, as uploads, is beside both. */
  ghost predicate Follows(base: string, before: Files, after: Files, version: string, saved: set<string>) {
    && (forall rel | rel in saved && base + rel in before ::
      At(after, SnapshotPath(version, rel)) == Some(before[base + rel]))
    && (forall rel | !(rel in saved && base + rel in before) ::
      At(after, SnapshotPath(version, rel)) == At(before, SnapshotPath(version, rel)))
    && (forall rel | rel !in saved :: At(after, base + rel) == At(before, base + rel))
    && (forall v, rel | '/' !in v && v != version :: At(after, SnapshotPath(v, rel)) == At(before, SnapshotPath(v, rel)))
  }

  /** `stores` are those before each merge and after the last one. */
  ghost predicate History(base: string, stores: seq<Files>, versions: seq<string>, saves: seq<set<string>>) {
    && |stores| == |versions| + 1 && |saves| == |versions| && Versions(versions) && NoDuplicates(versions)
    && (forall i | 0 <= i < |versions| :: Follows(base, stores[i], stores[i + 1], versions[i], saves[i]))
    && forall v, rel | v in versions :: SnapshotPath(v, rel) !in stores[0]
  }

  /** A fast-forward merge whose writes succeed, and that saves all it changes, is such a step. */
  lemma {:induction false} MergeFollows(p: Prefixes, store: Files, s: Server, stage: Stage, m: Merge, flush: Op, merge: Merger)
    requires Apart(p) && m.Valid()
    requires s.files == Namespace(store, p.base) && stage.files == Namespace(store, p.overlay)
    requires stage.base == s.head && Elems(m.deleted) == stage.deleted && Enumerates(m.copied, stage.files)
    requires Enabled(Buffered(p, store, m), flush) && flush.Flush?
    requires Step(p, Buffered(p, store, m), flush).1 == Done(Ok(()))
    requires forall rel | rel in stage.files || (rel in stage.deleted && rel in s.files) :: rel in m.saved
    ensures Follows(p.base, store, Step(p, Buffered(p, store, m), flush).0.store, m.version, Elems(m.saved))
  {
    hide *;
    hide Step, Buffered, MergedFiles, Enumerates, Enabled, SnapshotPath, Namespace, Refused, At, NoDuplicates;
    var after := Step(p, Buffered(p, store, m), flush).0.store;
    MergedStore(p, store, s, stage, m, flush, merge, after);
    MergeLeaves(p, s, stage, m.saved, flush);
    SameBeside(p.base, store, after, m.saved);
    assert OutsideSnapshots(p.base) by { ApartBase(p); }
    assert '/' !in m.version by { MergeVersion(m); }
    OtherSnapshots(p.base, store, after, m.version, m.saved);
    FollowsFrom(p.base, store, after, m.version, m.saved);
  }

  lemma {:induction false} MergedStore(p: Prefixes, store: Files, s: Server, stage: Stage, m: Merge, flush: Op, merge: Merger,
                                       after: Files)
    requires Apart(p) && m.Valid()
    requires s.files == Namespace(store, p.base) && stage.files == Namespace(store, p.overlay)
    requires stage.base == s.head && Elems(m.deleted) == stage.deleted && Enumerates(m.copied, stage.files)
    requires Enabled(Buffered(p, store, m), flush) && flush.Flush?
    requires Step(p, Buffered(p, store, m), flush).1 == Done(Ok(())) && Step(p, Buffered(p, store, m), flush).0.store == after
    ensures Namespace(after, p.base) == ((s.files + stage.files) - stage.deleted) + Refused(p, s.files, stage, flush)
    ensures forall rel | rel in m.saved && rel in s.files :: At(after, SnapshotPath(m.version, rel)) == Some(s.files[rel])
    ensures forall x | !(p.base <= x) &&
      (forall rel | rel in m.saved && rel in s.files :: x != SnapshotPath(m.version, rel)) :: At(after, x) == At(store, x)
  {
    hide *;
    hide Step, Buffered, MergedFiles, Enumerates, Enabled, SnapshotPath, Namespace, Refused, At;
    FastForwardMerge(p, store, s, stage, m, flush, merge);
    AtHead(s, stage, merge);
  }

  lemma ApartBase(p: Prefixes)
    requires Apart(p)
    ensures OutsideSnapshots(p.base)
  {
  }

  lemma MergeVersion(m: Merge)
    requires m.Valid()
    ensures '/' !in m.version
  {
  }

  lemma MergeLeaves(p: Prefixes, s: Server, stage: Stage, saved: seq<string>, flush: Op)
    requires flush.Flush?
    requires forall rel | rel in stage.files || (rel in stage.deleted && rel in s.files) :: rel in saved
    ensures forall rel | rel !in saved ::
      At(((s.files + stage.files) - stage.deleted) + Refused(p, s.files, stage, flush), rel) == At(s.files, rel)
  {
  }

  lemma {:induction false} FollowsFrom(base: string, store: Files, after: Files, version: string, saved: seq<string>)
    requires '/' !in version
    requires forall rel | rel in saved && rel in Namespace(store, base) ::
      At(after, SnapshotPath(version, rel)) == Some(Namespace(store, base)[rel])
    requires forall rel | rel !in saved :: At(after, base + rel) == At(store, base + rel)
    requires forall v, rel | '/' !in v && !(v == version && rel in saved && base + rel in store) ::
      At(after, SnapshotPath(v, rel)) == At(store, SnapshotPath(v, rel))
    ensures Follows(base, store, after, version, Elems(saved))
  {
    NamespaceIs(store, base);
    hide SnapshotPath, Namespace, At;
    assert forall rel :: rel in Elems(saved) <==> rel in saved;
  }

  lemma {:induction false} SameBeside(base: string, store: Files, after: Files, saved: seq<string>)
    requires forall rel | rel !in saved :: At(Namespace(after, base), rel) == At(Namespace(store, base), rel)
    ensures forall rel | rel !in saved :: At(after, base + rel) == At(store, base + rel)
  {
    NamespaceIs(store, base);
    NamespaceIs(after, base);
    hide Namespace;
    forall rel | rel !in saved ensures At(after, base + rel) == At(store, base + rel) {
      assert At(Namespace(after, base), rel) == At(Namespace(store, base), rel);
    }
  }

  lemma {:induction false} OtherSnapshots(base: string, store: Files, after: Files, version: string, saved: seq<string>)
    requires '/' !in version && OutsideSnapshots(base)
    requires forall x | !(base <= x) &&
      (forall rel | rel in saved && rel in Namespace(store, base) :: x != SnapshotPath(version, rel)) :: At(after, x) == At(store, x)
    ensures forall v, rel | '/' !in v && !(v == version && rel in saved && base + rel in store) ::
      At(after, SnapshotPath(v, rel)) == At(store, SnapshotPath(v, rel))
  {
    NamespaceIs(store, base);
    hide SnapshotPath, Namespace, OutsideSnapshots, At;
    forall v, rel | '/' !in v && !(v == version && rel in saved && base + rel in store)
      ensures At(after, SnapshotPath(v, rel)) == At(store, SnapshotPath(v, rel))
    {
      NeverSnapshot(base, v, rel);
      forall r | r in saved && r in Namespace(store, base) ensures SnapshotPath(v, rel) != SnapshotPath(version, r) {
        if SnapshotPath(v, rel) == SnapshotPath(version, r) { SnapshotPathsDiffer(v, rel, version, r); }
      }
    }
  }

  /** Any store begins a history, and one more merge, of a version not used before, continues it. */
  lemma HistoryGrows(base: string, stores: seq<Files>, versions: seq<string>, saves: seq<set<string>>,
                     after: Files, version: string, saved: set<string>)
    requires History(base, stores, versions, saves) && Follows(base, stores[|versions|], after, version, saved)
    requires version != "" && '/' !in version && version !in versions && forall rel :: SnapshotPath(version, rel) !in stores[0]
    ensures History(base, stores + [after], versions + [version], saves + [saved])
    ensures forall store :: History(base, [store], [], [])
  {
    hide SnapshotPath, Follows;
    var n, longer := |versions|, versions + [version];
    assert forall v | v in longer :: v in versions || v == version;
    forall i | 0 <= i <= n
      ensures Follows(base, (stores + [after])[i], (stores + [after])[i + 1], longer[i], (saves + [saved])[i])
    {
      if i < n { assert Follows(base, stores[i], stores[i + 1], versions[i], saves[i]); }
    }
  }

  lemma HistoryTail(base: string, stores: seq<Files>, versions: seq<string>, saves: seq<set<string>>)
    requires History(base, stores, versions, saves) && versions != []
    ensures History(base, stores[1..], versions[1..], saves[1..])
  {
    hide SnapshotPath;
    assert forall v | v in versions[1..] :: v in versions;
    forall i | 0 <= i < |versions| - 1
      ensures Follows(base, stores[1..][i], stores[1..][i + 1], versions[1..][i], saves[1..][i])
    {
      assert Follows(base, stores[i + 1], stores[i + 2], versions[i + 1], saves[i + 1]);
    }
    assert Follows(base, stores[0], stores[1], versions[0], saves[0]);
    forall v, rel | v in versions[1..] ensures SnapshotPath(v, rel) !in stores[1] {
      assert v != versions[0];
      assert At(stores[1], SnapshotPath(v, rel)) == At(stores[0], SnapshotPath(v, rel));
    }
  }

  /** Later merges leave an earlier snapshot alone. */
  lemma {:induction false} SnapshotStays(base: string, stores: seq<Files>, versions: seq<string>, saves: seq<set<string>>,
                                         v: string, rel: string)
    requires History(base, stores, versions, saves) && v !in versions && '/' !in v
    ensures At(stores[|versions|], SnapshotPath(v, rel)) == At(stores[0], SnapshotPath(v, rel))
    decreases |versions|
  {
    hide SnapshotPath;
    if versions != [] {
      HistoryTail(base, stores, versions, saves);
      assert Follows(base, stores[0], stores[1], versions[0], saves[0]);
      SnapshotStays(base, stores[1..], versions[1..], saves[1..], v, rel);
    }
  }

  /** The merge with number `i` saves the path. */
  ghost predicate TouchedAt(base: string, stores: seq<Files>, saves: seq<set<string>>, rel: string, i: nat) {
    i < |saves| && i < |stores| && rel in saves[i] && base + rel in stores[i]
  }

  /** The first merge that saves the path has this number. */
  ghost predicate FirstTouch(base: string, stores: seq<Files>, saves: seq<set<string>>, rel: string, i: nat) {
    TouchedAt(base, stores, saves, rel, i) && forall j: nat | j < i :: !TouchedAt(base, stores, saves, rel, j)
  }

  /** What a workspace based on the first of these stores is told after the last: the content that a
      path had when a merge first saved it, and nothing if none did. Of a path that its base has,
      that is the base's content, and nothing means that the head still has it. */
  lemma {:induction false} HeadChangesExactly(base: string, stores: seq<Files>, versions: seq<string>,
                                              saves: seq<set<string>>, rel: string)
    requires History(base, stores, versions, saves)
    ensures var now, told := stores[|versions|], FirstSaved(stores[|versions|], versions, rel);
      && (told.None? <==> forall i: nat :: !TouchedAt(base, stores, saves, rel, i))
      && (told.Some? ==> exists i :: FirstTouch(base, stores, saves, rel, i))
      && (forall i: nat | FirstTouch(base, stores, saves, rel, i) :: told == At(stores[i], base + rel))
      && (base + rel in stores[0] ==> told == None || told == Some(stores[0][base + rel]))
      && (base + rel in stores[0] && told == None ==> At(now, base + rel) == At(stores[0], base + rel))
    decreases |versions|
  {
    hide SnapshotPath;
    if versions != [] {
      HistoryTail(base, stores, versions, saves);
      assert Follows(base, stores[0], stores[1], versions[0], saves[0]);
      HeadChangesExactly(base, stores[1..], versions[1..], saves[1..], rel);
      assert versions[0] in versions;
      SnapshotStays(base, stores[1..], versions[1..], saves[1..], versions[0], rel);
      assert SnapshotPath(versions[0], rel) !in stores[0];
      TouchedStep(base, stores, saves, rel);
      var now := stores[|versions|];
      assert stores[1..][|versions| - 1] == now;
      forall i: nat | FirstTouch(base, stores, saves, rel, i)
        ensures FirstSaved(now, versions, rel) == At(stores[i], base + rel)
      {
        if i > 0 { assert stores[1..][i - 1] == stores[i]; }
      }
      if TouchedAt(base, stores, saves, rel, 0) {
        assert FirstTouch(base, stores, saves, rel, 0);
      } else if i: nat :| FirstTouch(base, stores[1..], saves[1..], rel, i) {
        FirstLater(base, stores, saves, rel, i);
      }
      hide TouchedAt, FirstTouch, History;
    }
  }

  lemma FirstLater(base: string, stores: seq<Files>, saves: seq<set<string>>, rel: string, i: nat)
    requires |saves| < |stores| && saves != [] && !TouchedAt(base, stores, saves, rel, 0)
    requires FirstTouch(base, stores[1..], saves[1..], rel, i)
    ensures FirstTouch(base, stores, saves, rel, i + 1)
  {
    TouchedStep(base, stores, saves, rel);
    hide TouchedAt;
    forall j: nat | j < i + 1 ensures !TouchedAt(base, stores, saves, rel, j) {
      if j > 0 { assert !TouchedAt(base, stores[1..], saves[1..], rel, j - 1); }
    }
  }

  lemma TouchedStep(base: string, stores: seq<Files>, saves: seq<set<string>>, rel: string)
    requires |saves| < |stores| && saves != []
    ensures forall i: nat :: TouchedAt(base, stores, saves, rel, i + 1) <==> TouchedAt(base, stores[1..], saves[1..], rel, i)
    ensures forall i: nat | i > 0 :: TouchedAt(base, stores, saves, rel, i) <==> TouchedAt(base, stores[1..], saves[1..], rel, i - 1)
    ensures TouchedAt(base, stores, saves, rel, 0) <==> rel in saves[0] && base + rel in stores[0]
    ensures forall i: nat | FirstTouch(base, stores, saves, rel, i) ::
      if i == 0 then TouchedAt(base, stores, saves, rel, 0)
      else !TouchedAt(base, stores, saves, rel, 0) && FirstTouch(base, stores[1..], saves[1..], rel, i - 1)
  {
  }

  // ── Merging with it ─────────────────────────────────────────────────────

  /** How a file is merged, given the contents at the base, at the head, and ours. */
  type Merge3 = (string, Bytes, Bytes, Bytes) -> Option<Bytes>

  /** A file with a snapshot is merged with that as its base, any other is taken as it is. */
  function MergerOf(found: Files, three: Merge3): Merger {
    (path: string, head: Option<Bytes>, ours: Bytes) => if path in found then three(path, found[path], head.GetOr([]), ours) else Some(ours)
  }

  /** With what has been collected, a workspace behind the head merges every file that its base has
      and the head has touched with the base's own content; a file that the base has and the
      head has not touched is still the base's. A file that the head has added since is replaced
      by ours without a merge, unless the head has touched it again; then it is merged as if the
      content that it first had at the head had been the base's. */
  lemma {:induction false} BehindMergeExactly(p: Prefixes, stores: seq<Files>, versions: seq<string>, saves: seq<set<string>>,
                                              fs: Fs, three: Merge3, rel: string, ours: Bytes)
    requires History(p.base, stores, versions, saves)
    requires Tidy(fs) && Coherent(fs) && View(fs) == stores[|versions|]
    ensures Collect(p, fs, versions, map[]).1.Some?
    ensures var found, base := Collect(p, fs, versions, map[]).1.value, p.base;
      var was, now := At(stores[0], base + rel), At(stores[|versions|], base + rel);
      var merged := MergerOf(found, three)(rel, now, ours);
      if forall i: nat :: !TouchedAt(base, stores, saves, rel, i) then
        merged == Some(ours) && (was.Some? ==> now == was)
      else
        && (was.Some? ==> merged == three(rel, was.value, now.GetOr([]), ours))
        && (forall i: nat | FirstTouch(base, stores, saves, rel, i) ::
          merged == three(rel, stores[i][base + rel], now.GetOr([]), ours))
  {
    HeadChangesExactly(p.base, stores, versions, saves, rel);
    CollectExactly(p, fs, versions, map[]);
    hide History, FirstSaved, Collect, View, Tidy, Coherent;
  }
}
