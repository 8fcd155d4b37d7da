/**
 The server's side of a submit: what arrives in a tarball, how an upload is
 staged for its workspace, and how the staged files are merged into the head.
 */
module ServerModel {
  import opened Prelude
  import opened MergeKeys

  /** Version `vn` by its number; the next version is numbered one more. */
  type Version = nat

  datatype Server = Server(head: Version, files: Files)

  /** The server's record of one workspace: the head when it was registered, and what was
      uploaded for it. A new record is empty. */
  datatype Stage = Stage(base: Version, files: Files, deleted: set<string>) {
    predicate Fresh() { files == map[] && deleted == {} }
  }

  // ── What arrives ────────────────────────────────────────────────────────

  const IGNORED := {".vai", ".git", "target", "node_modules"}

  /** Some directory on the path is one that the tarball walk skips. */
  predicate Skipped(path: string) {
    var k := SlashAt(path);
    k < |path| && (path[..k] in IGNORED || Skipped(path[k + 1..]))
  }

  /** Skipped by the walk, or filtered out by the server. */
  predicate Dropped(path: string) { Skipped(path) || path == ".vai" || path == ".git" }

  predicate NoneDropped(files: Files) { forall x | x in files :: !Dropped(x) }

  /** The files of a directory that arrive at the server. */
  function Packed(files: Files): Files { map x | x in files && !Dropped(x) :: files[x] }

  datatype Upload = Full(files: Files) | Delta(files: Files, deleted: seq<string>)

  // ── Staging ─────────────────────────────────────────────────────────────

  function NonEmpty(paths: seq<string>): seq<string> {
    if paths == [] then []
    else (if paths[0] == "" then [] else [paths[0]]) + NonEmpty(paths[1..])
  }

  /** The uploaded files that are not as at the head. */
  function Changed(head: Files, u: Upload): Files {
    map x | x in u.files && !(x in head && head[x] == u.files[x]) :: u.files[x]
  }

  /** A full snapshot deletes what it does not hold, a delta what it lists. */
  function Doomed(head: Files, u: Upload): set<string> {
    match u
    case Full(f) => head.Keys - f.Keys
    case Delta(_, deleted) => Elems(NonEmpty(deleted))
  }

  /** The number of elements, counted one by one. */
  ghost function Size(s: set<string>): nat {
    if s == {} then 0
    else
      var x :| x in s;
      1 + Size(s - {x})
  }

  ghost function DoomedCount(head: Files, u: Upload): nat {
    match u
    case Full(f) => Size(head.Keys - f.Keys)
    case Delta(_, deleted) => |NonEmpty(deleted)|
  }

  /** The safety rail: more than half of the head's files would go. */
  ghost predicate Destructive(head: Files, u: Upload) {
    Size(head.Keys) >= 3 && DoomedCount(head, u) * 2 > Size(head.Keys)
  }

  /** Changed files are stored before the rail is checked, deletions after it. Nothing that an
      earlier upload stored is taken back. */
  ghost function Uploaded(head: Files, stage: Stage, u: Upload): Stage {
    stage.(files := stage.files + Changed(head, u),
           deleted := if Destructive(head, u) then stage.deleted else stage.deleted + Doomed(head, u))
  }

  /** An upload that stops after storing those of its changed files that are in `stored`. */
  function CutShort(head: Files, stage: Stage, u: Upload, stored: set<string>): Stage {
    stage.(files := stage.files + map x | x in Changed(head, u) && x in stored :: u.files[x])
  }

  // ── Merging ─────────────────────────────────────────────────────────────

  /** Staged files count as changes whatever their content, deletions only of existing files. */
  predicate Unchanged(head: Files, stage: Stage) {
    stage.files == map[] && stage.deleted !! head.Keys
  }

  /** What merging makes of a path in a workspace that is behind the head, given what the head
      has there and what was uploaded; nothing if the two conflict. What they have in common is
      read from the snapshots of earlier versions, which no merge changes. */
  type Merger = (string, Option<Bytes>, Bytes) -> Option<Bytes>

  function At(files: Files, path: string): Option<Bytes> { if path in files then Some(files[path]) else None }

  /** Some uploaded file conflicts with the head's. */
  predicate Conflicts(s: Server, stage: Stage, merge: Merger) {
    exists x | x in stage.files :: merge(x, At(s.files, x), stage.files[x]).None?
  }

  /** A merge of a workspace that is behind the head fails on conflicts. It also reads the staged
      content of every changed path, of deleted paths too. */
  predicate Unmergeable(s: Server, stage: Stage, merge: Merger) {
    stage.base != s.head && (
      || (exists x | x in stage.deleted :: x in s.files && x !in stage.files)
      || Conflicts(s, stage, merge))
  }

  /** What is written for the staged paths: their content, or, when the workspace is behind the
      head, what merging makes of them. */
  function Contents(s: Server, stage: Stage, merge: Merger): Files {
    if stage.base == s.head then stage.files
    else map x | x in stage.files :: merge(x, At(s.files, x), stage.files[x]).GetOr(stage.files[x])
  }

  /** Files are written first, then the deletions are applied. */
  function MergedFiles(s: Server, stage: Stage, merge: Merger): Files {
    (s.files + Contents(s, stage, merge)) - stage.deleted
  }

  /** A flush that fails has written some of the files, none that would be deleted, and applied
      no deletion. */
  function Interrupted(s: Server, stage: Stage, merge: Merger, written: set<string>): Files {
    var contents := Contents(s, stage, merge);
    s.files + map x | x in contents && x in written && x !in stage.deleted :: contents[x]
  }

  // ── Properties ──────────────────────────────────────────────────────────

  lemma {:induction false} NonEmptyElems(paths: seq<string>)
    ensures Elems(NonEmpty(paths)) == Elems(paths) - {""}
    ensures |Elems(NonEmpty(paths))| <= |NonEmpty(paths)|
  {
    NonEmptyIn(paths);
    ElemsSize(NonEmpty(paths));
  }

  lemma {:induction false} NonEmptyIn(paths: seq<string>)
    ensures forall x :: x in NonEmpty(paths) <==> x in paths && x != ""
  {
    if paths != [] {
      NonEmptyIn(paths[1..]);
      assert forall x :: x in paths <==> x == paths[0] || x in paths[1..];
    }
  }

  lemma {:induction false} ElemsSize(xs: seq<string>)
    ensures |Elems(xs)| <= |xs|
  {
    if xs == [] {
      assert Elems([]) == {};
    } else {
      ElemsSize(xs[1..]);
      ElemsCons(xs[0], xs[1..]);
      assert xs == [xs[0]] + xs[1..];
    }
  }

  lemma {:induction false} ElemsCons(x: string, xs: seq<string>)
    ensures Elems([x] + xs) == {x} + Elems(xs)
  {
    forall y ensures y in Elems([x] + xs) <==> y in {x} + Elems(xs) {
      assert y in [x] + xs <==> y == x || y in xs;
    }
  }

  /** A component of the path that is not the last is one of the four. */
  predicate NamedAt(path: string, i: nat, j: nat) {
    i <= j < |path| && path[j] == '/' && (i == 0 || path[i - 1] == '/') && IsTool(path[i..j])
  }

  predicate IsTool(name: string) { name == ".vai" || name == ".git" || name == "target" || name == "node_modules" }

  lemma {:induction false} SkippedExactly(path: string)
    ensures Skipped(path) <==> exists i: nat, j: nat :: NamedAt(path, i, j)
  {
    hide NamedAt;
    var k := SlashAt(path);
    if k < |path| {
      SkippedExactly(path[k + 1..]);
      FirstNamed(path);
      if Skipped(path[k + 1..]) {
        var i: nat, j: nat :| NamedAt(path[k + 1..], i, j);
        NamedOrder(path[k + 1..], i, j);
        NamedBehind(path, k, i, j);
      }
      if i: nat, j: nat :| NamedAt(path, i, j) {
        SlashBounds(path, i, j);
        if i > k { NamedBehind(path, k, i - k - 1, j - k - 1); }
      }
    } else {
      forall i: nat, j: nat ensures !NamedAt(path, i, j) {
        if NamedAt(path, i, j) { SlashBounds(path, i, j); }
      }
    }
  }

  lemma NamedOrder(path: string, i: nat, j: nat)
    requires NamedAt(path, i, j)
    ensures i <= j
  {
  }

  lemma FirstNamed(path: string)
    requires SlashAt(path) < |path|
    ensures NamedAt(path, 0, SlashAt(path)) <==> path[..SlashAt(path)] in IGNORED
  {
    assert path[0..SlashAt(path)] == path[..SlashAt(path)];
    Ignored(path[..SlashAt(path)]);
    hide IsTool;
  }

  lemma Ignored(name: string)
    ensures name in IGNORED <==> IsTool(name)
  {
  }

  lemma NamedBehind(path: string, k: nat, i: nat, j: nat)
    requires k < |path| && path[k] == '/' && i <= j
    ensures NamedAt(path[k + 1..], i, j) <==> NamedAt(path, i + k + 1, j + k + 1)
  {
    hide IsTool;
    var rest := path[k + 1..];
    if j < |rest| {
      assert path[i + k + 1..j + k + 1] == rest[i..j];
      assert i > 0 ==> rest[i - 1] == path[i + k];
    }
  }

  /** A directory's name ends at the first slash, or starts behind it. None of the four has one. */
  lemma SlashBounds(path: string, i: nat, j: nat)
    requires NamedAt(path, i, j)
    ensures var k := SlashAt(path); i <= j && k < |path| && ((j == k && i == 0) || i > k)
  {
    var k := SlashAt(path);
    ToolsHaveNoSlash(path[i..j]);
    hide *;
    assert forall m | 0 <= m < k :: path[m] == path[..k][m];
    assert forall m | i <= m < j :: path[m] == path[i..j][m - i];
  }

  lemma ToolsHaveNoSlash(name: string)
    requires IsTool(name)
    ensures '/' !in name
  {
  }

  lemma {:induction false} SkippedUnder(dir: string, rest: string)
    requires '/' !in dir && dir in IGNORED
    ensures Skipped(dir + "/" + rest)
  {
    SlashOf(dir, rest);
  }

  lemma {:induction false} SizeIs(s: set<string>)
    ensures Size(s) == |s|
  {
    if s != {} {
      var x :| x in s && Size(s) == 1 + Size(s - {x});
      SizeIs(s - {x});
    }
  }

  lemma {:induction false} NonEmptyCount(paths: seq<string>)
    ensures |NonEmpty(paths)| == |paths| - multiset(paths)[""]
  {
    if paths != [] {
      NonEmptyCount(paths[1..]);
      assert paths == [paths[0]] + paths[1..];
    }
  }

  /** The safety rail: with three files or more at the head, an upload may delete at most half as
      many. A full snapshot deletes the files it lacks; a delta deletes as many as it lists, an
      empty path aside, whether they are there or not. */
  lemma {:induction false} RailExactly(head: Files, u: Upload)
    ensures var count := if u.Full? then |head.Keys - u.files.Keys| else |u.deleted| - multiset(u.deleted)[""];
      Destructive(head, u) <==> |head| >= 3 && count * 2 > |head|
  {
    SizeIs(head.Keys);
    match u
    case Full(f) => SizeIs(head.Keys - f.Keys);
    case Delta(_, deleted) => NonEmptyCount(deleted);
  }

  /** What an upload leaves staged: the earlier files under those that differ from the head's,
      and, unless the rail stops it, the earlier deletions and its own. */
  lemma {:induction false} UploadStages(head: Files, stage: Stage, u: Upload)
    ensures var after := Uploaded(head, stage, u);
      && after.base == stage.base
      && (forall x | x in u.files && At(head, x) != Some(u.files[x]) :: At(after.files, x) == Some(u.files[x]))
      && (forall x | !(x in u.files && At(head, x) != Some(u.files[x])) :: At(after.files, x) == At(stage.files, x))
      && (Destructive(head, u) ==> after.deleted == stage.deleted)
      && (!Destructive(head, u) && u.Full? ==>
        forall x :: x in after.deleted <==> x in stage.deleted || (x in head && x !in u.files))
      && (!Destructive(head, u) && u.Delta? ==>
        forall x :: x in after.deleted <==> x in stage.deleted || (x in u.deleted && x != ""))
  {
    hide Destructive;
    if u.Delta? { NonEmptyIn(u.deleted); }
  }

  lemma {:induction false} SubsetSize<T>(a: set<T>, b: set<T>)
    requires a <= b
    ensures |a| <= |b|
  {
    assert b == a + (b - a);
  }

  /** A single upload cannot cost a workspace's first merge more than half of the head's files
      once there are three of them. */
  lemma {:induction false} HalfSurvives(s: Server, stage: Stage, u: Upload, merge: Merger)
    requires stage.Fresh() && !Destructive(s.files, u) && |s.files| >= 3
    ensures |s.files.Keys - MergedFiles(s, Uploaded(s.files, stage, u), merge).Keys| * 2 <= |s.files|
  {
    hide Destructive, Changed, NonEmpty;
    var lost := s.files.Keys - MergedFiles(s, Uploaded(s.files, stage, u), merge).Keys;
    assert lost <= Doomed(s.files, u);
    SubsetSize(lost, Doomed(s.files, u));
    DoomedAtMostHalf(s.files, u);
  }

  lemma {:induction false} DoomedAtMostHalf(head: Files, u: Upload)
    requires !Destructive(head, u) && |head| >= 3
    ensures |Doomed(head, u)| * 2 <= |head|
  {
    SizeIs(head.Keys);
    match u
    case Full(f) => SizeIs(head.Keys - f.Keys);
    case Delta(_, deleted) => NonEmptyElems(deleted);
  }

  /** Staging only adds up: a second upload of the same files after a first that was cut
      short, or not heard of, leaves what a single one would have. */
  lemma {:induction false} UploadAgain(head: Files, stage: Stage, u: Upload, stored: set<string>)
    ensures Uploaded(head, CutShort(head, stage, u, stored), u) == Uploaded(head, stage, u)
    ensures Uploaded(head, Uploaded(head, stage, u), u) == Uploaded(head, stage, u)
  {
    var changed := Changed(head, u);
    assert forall x | x in changed :: changed[x] == u.files[x];
    hide Doomed, Destructive, Changed;
    var some := map x | x in changed && x in stored :: u.files[x];
    assert stage.files + some + changed == stage.files + changed;
    assert stage.files + changed + changed == stage.files + changed;
  }
}
