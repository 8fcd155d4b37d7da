/**
 The directory walk that measures a tree to choose the upload mode, stopping
 early, and the walk that packs the tree.
 */
module TreeSize {
  import opened Prelude
  import opened MergeKeys
  import opened ServerModel

  datatype Node = File(name: string, size: nat) | Dir(name: string, children: seq<Node>)

  const DELTA_THRESHOLD_BYTES: nat := 500 * 1024

  /** The size of all files that are not under a skipped directory. */
  function Total(nodes: seq<Node>): nat {
    if nodes == [] then 0
    else
      (match nodes[0]
       case File(_, size) => size
       case Dir(name, children) => if name in IGNORED then 0 else Total(children)) + Total(nodes[1..])
  }

  /** What the walk adds up to. A directory that exceeds the threshold in one of its files
      stops there, but the directories around it go on with their next entries. */
  function Walked(nodes: seq<Node>, total: nat, threshold: nat): nat {
    if nodes == [] then total
    else
      match nodes[0]
      case Dir(name, children) =>
        Walked(nodes[1..], if name in IGNORED then total else Walked(children, total, threshold), threshold)
      case File(_, size) =>
        if total + size > threshold then total + size else Walked(nodes[1..], total + size, threshold)
  }

  method DirSizeInner(nodes: seq<Node>, total: nat, threshold: nat) returns (t: nat)
    ensures t == Walked(nodes, total, threshold)
    decreases nodes
  {
    t := total;
    for i := 0 to |nodes|
      invariant Walked(nodes, total, threshold) == Walked(nodes[i..], t, threshold)
    {
      assert nodes[i..][0] == nodes[i] && nodes[i..][1..] == nodes[i + 1..];
      match nodes[i] {
        case Dir(name, children) =>
          if name in IGNORED {
            continue;
          }
          t := DirSizeInner(children, t, threshold);
        case File(_, size) =>
          t := t + size;
          if t > threshold {
            return;
          }
      }
    }
  }

  /** The early exit never overstates the total, is exact within the threshold, and is over
      the threshold exactly when the true total is. */
  lemma {:induction false} WalkBounds(nodes: seq<Node>, total: nat, threshold: nat)
    ensures total <= Walked(nodes, total, threshold) <= total + Total(nodes)
    ensures total + Total(nodes) <= threshold ==> Walked(nodes, total, threshold) == total + Total(nodes)
    ensures Walked(nodes, total, threshold) > threshold <==> total + Total(nodes) > threshold
  {
    if nodes != [] {
      match nodes[0]
      case Dir(name, children) =>
        if name !in IGNORED { WalkBounds(children, total, threshold); }
        WalkBounds(nodes[1..], if name in IGNORED then total else Walked(children, total, threshold), threshold);
      case File(_, size) =>
        WalkBounds(nodes[1..], total + size, threshold);
    }
  }

  /** Whether a snapshot of the tree goes as a delta: the choice does not depend on the
      early exit. The default threshold can be overridden from outside. */
  method UseDelta(root: seq<Node>, setting: Option<nat>) returns (large: bool)
    ensures large <==> Total(root) > setting.GetOr(DELTA_THRESHOLD_BYTES)
  {
    var threshold := setting.GetOr(DELTA_THRESHOLD_BYTES);
    var size := DirSizeInner(root, 0, threshold);
    WalkBounds(root, 0, threshold);
    large := size > threshold;
  }

  // ── What is packed ──────────────────────────────────────────────────────

  function Under(dir: string, paths: seq<string>): seq<string> {
    if paths == [] then [] else [dir + "/" + paths[0]] + Under(dir, paths[1..])
  }

  /** Every file of the tree, as the plan lists it. */
  function AllPaths(nodes: seq<Node>): seq<string> {
    if nodes == [] then []
    else
      (match nodes[0]
       case File(name, _) => [name]
       case Dir(name, children) => Under(name, AllPaths(children))) + AllPaths(nodes[1..])
  }

  /** The files that the tarball walk appends. */
  function TarPaths(nodes: seq<Node>): seq<string> {
    if nodes == [] then []
    else
      (match nodes[0]
       case File(name, _) => [name]
       case Dir(name, children) => if name in IGNORED then [] else Under(name, TarPaths(children))) + TarPaths(nodes[1..])
  }

  function Unskipped(paths: seq<string>): seq<string> {
    if paths == [] then []
    else (if Skipped(paths[0]) then [] else [paths[0]]) + Unskipped(paths[1..])
  }

  /** File names have no slash in them. */
  predicate Named(nodes: seq<Node>) {
    forall n | n in nodes :: '/' !in n.name && (n.Dir? ==> Named(n.children))
  }

  lemma {:induction false} UnskippedAppend(a: seq<string>, b: seq<string>)
    ensures Unskipped(a + b) == Unskipped(a) + Unskipped(b)
  {
    hide Skipped;
    if a == [] {
      assert a + b == b;
    } else {
      assert (a + b)[1..] == a[1..] + b;
      UnskippedAppend(a[1..], b);
    }
  }

  lemma SkippedIn(dir: string, path: string)
    requires '/' !in dir
    ensures Skipped(dir + "/" + path) <==> dir in IGNORED || Skipped(path)
  {
    SlashOf(dir, path);
  }

  lemma {:induction false} UnskippedUnder(dir: string, paths: seq<string>)
    requires '/' !in dir
    ensures Unskipped(Under(dir, paths)) == if dir in IGNORED then [] else Under(dir, Unskipped(paths))
  {
    hide Skipped;
    if paths != [] {
      SkippedIn(dir, paths[0]);
      UnskippedUnder(dir, paths[1..]);
      assert Under(dir, paths)[1..] == Under(dir, paths[1..]);
      assert [] + Unskipped(paths[1..]) == Unskipped(paths[1..]);
      assert [] + Unskipped(Under(dir, paths[1..])) == Unskipped(Under(dir, paths[1..]));
      assert ([paths[0]] + Unskipped(paths[1..]))[1..] == Unskipped(paths[1..]);
      assert Under(dir, [paths[0]] + Unskipped(paths[1..])) == [dir + "/" + paths[0]] + Under(dir, Unskipped(paths[1..]));
    }
  }

  /** The tarball holds exactly the listed files that have no skipped directory on their path. */
  lemma {:induction false} TarIsUnskipped(nodes: seq<Node>)
    requires Named(nodes)
    ensures TarPaths(nodes) == Unskipped(AllPaths(nodes))
  {
    hide Skipped;
    if nodes != [] {
      var n := nodes[0];
      assert n in nodes && forall m | m in nodes[1..] :: m in nodes;
      TarIsUnskipped(nodes[1..]);
      match n
      case File(name, _) =>
        NameNotSkipped(name);
        UnskippedAppend([name], AllPaths(nodes[1..]));
        assert [name][1..] == [];
      case Dir(name, children) =>
        TarIsUnskipped(children);
        UnskippedUnder(name, AllPaths(children));
        UnskippedAppend(Under(name, AllPaths(children)), AllPaths(nodes[1..]));
    }
  }

  lemma {:induction false} UnskippedIn(paths: seq<string>, x: string)
    ensures x in Unskipped(paths) <==> x in paths && !Skipped(x)
  {
    hide Skipped;
    if paths != [] { UnskippedIn(paths[1..], x); }
  }

  /** What arrives at the server is what the tarball walk appends, without files in its place that
      are named like the two directories of the tools. */
  lemma PackedIsTar(nodes: seq<Node>, files: Files)
    requires Named(nodes) && files.Keys == Elems(AllPaths(nodes))
    ensures Packed(files).Keys == Elems(TarPaths(nodes)) - {".vai", ".git"}
    ensures forall x | x in Packed(files) :: Packed(files)[x] == files[x]
  {
    hide Skipped;
    TarIsUnskipped(nodes);
    forall x ensures x in Packed(files) <==> x in Elems(TarPaths(nodes)) - {".vai", ".git"} {
      UnskippedIn(AllPaths(nodes), x);
    }
  }

  lemma NameNotSkipped(name: string)
    requires '/' !in name
    ensures !Skipped(name)
  {
  }
}
