/**
 Two independently written comparisons of the local files with the server's:
 the status check (two loops, then a sort) and the remote diff (a sorted union,
 then a match).
 */
module Status {
  import opened Prelude
  import opened Ordering

  datatype Kind = Modified | Untracked | Missing

  datatype Entry = Entry(path: string, kind: Kind)

  /** Content hashes by path. */
  type Hashes = map<string, string>

  predicate ByPath(a: Entry, b: Entry) { Leq(a.path, b.path) }

  predicate Differs(e: Entry, local: Hashes, server: Hashes) {
    match e.kind
    case Modified => e.path in local && e.path in server && local[e.path] != server[e.path]
    case Untracked => e.path in local && e.path !in server
    case Missing => e.path !in local && e.path in server
  }

  /** Every difference once, strictly sorted by path. */
  ghost predicate IsReport(r: seq<Entry>, local: Hashes, server: Hashes) {
    && (forall i, j | 0 <= i < j < |r| :: Leq(r[i].path, r[j].path) && r[i].path != r[j].path)
    && (forall e :: e in r <==> Differs(e, local, server))
  }

  lemma {:induction false} ByPathIsTotalPreorder()
    ensures TotalPreorder(ByPath)
  {
    hide Leq;
    LeqIsTotalPreorder();
  }

  lemma {:induction false} SortReport(found: seq<Entry>, local: Hashes, server: Hashes)
    requires forall i, j | 0 <= i < j < |found| :: found[i].path != found[j].path
    requires forall e :: e in found <==> Differs(e, local, server)
    ensures IsReport(Sort(found, ByPath), local, server)
  {
    hide Leq, Sort;
    ByPathIsTotalPreorder();
    SortSorts(found, ByPath);
    SortElements(found, ByPath);
    var r := Sort(found, ByPath);
    forall i, j | 0 <= i < j < |r| ensures r[i].path != r[j].path {
      if r[i].path == r[j].path {
        assert r[i] in r && r[j] in r;
        assert r[i].kind == r[j].kind;
        RepeatedCount(r, i, j);
        assert NoDuplicates(found);
        DistinctCount(found, r[i]);
      }
    }
  }

  method CheckStatus(local: Hashes, server: Hashes) returns (files: seq<Entry>)
    ensures IsReport(files, local, server)
  {
    hide Leq;
    var found: seq<Entry> := [];
    var localPaths := Elements(local.Keys);
    for i := 0 to |localPaths|
      invariant forall a, b | 0 <= a < b < |found| :: found[a].path != found[b].path
      invariant forall e :: e in found <==> e.path in localPaths[..i] && !e.kind.Missing? && Differs(e, local, server)
    {
      var path := localPaths[i];
      assert localPaths[..i + 1] == localPaths[..i] + [path];
      assert path !in localPaths[..i] && path in localPaths;
      if path in server {
        if server[path] != local[path] {
          found := found + [Entry(path, Modified)];
        }
      } else {
        found := found + [Entry(path, Untracked)];
      }
    }
    assert localPaths[..|localPaths|] == localPaths;
    ghost var first := found;
    var serverPaths := Elements(server.Keys);
    for i := 0 to |serverPaths|
      invariant forall a, b | 0 <= a < b < |found| :: found[a].path != found[b].path
      invariant forall e :: e in found <==>
        || e in first
        || (e.path in serverPaths[..i] && e.kind.Missing? && Differs(e, local, server))
    {
      var path := serverPaths[i];
      assert serverPaths[..i + 1] == serverPaths[..i] + [path];
      assert path !in serverPaths[..i] && path in serverPaths;
      if path !in local {
        found := found + [Entry(path, Missing)];
      }
    }
    assert serverPaths[..|serverPaths|] == serverPaths;
    SortReport(found, local, server);
    files := Sort(found, ByPath);
  }

  /** The match of the remote diff on one path. */
  function Compared(path: string, local: Hashes, server: Hashes): seq<Entry> {
    if path in local && path in server then
      if local[path] == server[path] then [] else [Entry(path, Modified)]
    else if path in local then [Entry(path, Untracked)]
    else if path in server then [Entry(path, Missing)]
    else []
  }

  lemma ComparedExactly(path: string, local: Hashes, server: Hashes)
    ensures |Compared(path, local, server)| <= 1
    ensures forall e :: e in Compared(path, local, server) <==> e.path == path && Differs(e, local, server)
  {
  }

  /** The entries for strictly sorted paths are strictly sorted. */
  method DiffPaths(paths: seq<string>, local: Hashes, server: Hashes) returns (entries: seq<Entry>)
    requires StrictlySorted(paths)
    ensures |entries| <= |paths|
    ensures forall i, j | 0 <= i < j < |entries| ::
      Leq(entries[i].path, entries[j].path) && entries[i].path != entries[j].path
    ensures forall e :: e in entries <==> e.path in paths && Differs(e, local, server)
  {
    hide Leq, Compared, Differs;
    entries := [];
    for i := 0 to |paths|
      invariant |entries| <= i
      invariant forall a, b | 0 <= a < b < |entries| ::
        Leq(entries[a].path, entries[b].path) && entries[a].path != entries[b].path
      invariant forall e :: e in entries <==> e.path in paths[..i] && Differs(e, local, server)
    {
      var path := paths[i];
      assert paths[..i + 1] == paths[..i] + [path];
      ComparedExactly(path, local, server);
      forall a | 0 <= a < |entries| ensures Leq(entries[a].path, path) && entries[a].path != path {
        assert entries[a] in entries;
        var k :| 0 <= k < i && paths[k] == entries[a].path;
      }
      forall e | e in Compared(path, local, server) ensures e.path == path {}
      entries := entries + Compared(path, local, server);
    }
    assert paths[..|paths|] == paths;
  }

  /** With a path filter, only that path is looked at. */
  method ComputeDiff(local: Hashes, server: Hashes, filter: Option<string>) returns (entries: seq<Entry>)
    ensures filter.None? ==> IsReport(entries, local, server)
    ensures filter.Some? ==> |entries| <= 1
    ensures filter.Some? ==> forall e ::
      e in entries <==> e.path == filter.value && Differs(e, local, server)
  {
    hide Leq, Sort;
    if filter.Some? {
      entries := DiffPaths([filter.value], local, server);
    } else {
      var all := Elements(local.Keys + server.Keys);
      SortIsStrict(all);
      entries := DiffPaths(Sort(all, Leq), local, server);
    }
  }

  /** There is only one report, so the two computations agree for all pairs of maps. */
  lemma {:induction false} ReportsAgree(r: seq<Entry>, s: seq<Entry>, local: Hashes, server: Hashes)
    requires IsReport(r, local, server) && IsReport(s, local, server)
    ensures r == s
  {
    hide Differs, Leq;
    SortedEntriesUnique(r, s);
  }

  lemma {:induction false} SortedEntriesUnique(r: seq<Entry>, s: seq<Entry>)
    requires forall i, j | 0 <= i < j < |r| :: Leq(r[i].path, r[j].path) && r[i].path != r[j].path
    requires forall i, j | 0 <= i < j < |s| :: Leq(s[i].path, s[j].path) && s[i].path != s[j].path
    requires forall e :: e in r <==> e in s
    ensures r == s
  {
    hide Leq;
    assert s != [] ==> s[0] in r;
    if r != [] {
      assert r[0] in s;
      if r[0] != s[0] { LeqAntisymmetric(r[0].path, s[0].path); }
      assert r == [r[0]] + r[1..] && s == [s[0]] + s[1..];
      forall e ensures e in r[1..] <==> e in s[1..] {
        assert e in r <==> e == r[0] || e in r[1..];
        assert e in s <==> e == s[0] || e in s[1..];
      }
      SortedEntriesUnique(r[1..], s[1..]);
    }
  }

  /** Nothing is reported exactly when the local files are the server's. */
  lemma CleanExactly(r: seq<Entry>, local: Hashes, server: Hashes)
    requires IsReport(r, local, server)
    ensures r == [] <==> local == server
  {
    if r != [] { assert r[0] in r && Differs(r[0], local, server); }
    if r == [] {
      forall x | x in local ensures x in server && local[x] == server[x] {
        assert !Differs(Entry(x, Untracked), local, server) && !Differs(Entry(x, Modified), local, server);
      }
      forall x | x in server ensures x in local { assert !Differs(Entry(x, Missing), local, server); }
    }
  }
}
