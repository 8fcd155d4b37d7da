/**
 Logical keys of the merge file system (`overlay/…`, `base/…`,
 `snapshot/{version}/…`) and the object-store paths they stand for.
 */
module MergeKeys {
  import opened Prelude

  datatype IoError = NotFound | InvalidInput | Other

  const OVERLAY := "overlay/"
  const BASE := "base/"
  const SNAPSHOT := "snapshot/"
  const VERSIONS := "versions/"
  const IN_VERSION := "/snapshot/"

  /** The store prefixes that a file system is opened with. */
  datatype Prefixes = Prefixes(overlay: string, base: string)

  /** Position of the first slash, or the length if there is none. */
  function SlashAt(s: string): (k: nat)
    ensures k <= |s| && '/' !in s[..k]
    ensures k < |s| ==> s[k] == '/'
  {
    if s == "" || s[0] == '/' then 0
    else
      var k := SlashAt(s[1..]);
      assert s[..k + 1] == [s[0]] + s[1..][..k];
      k + 1
  }

  function TrimSlashes(s: string): string {
    if s != "" && s[|s| - 1] == '/' then TrimSlashes(s[..|s| - 1]) else s
  }

  function SnapshotPath(version: string, rel: string): string {
    VERSIONS + version + IN_VERSION + rel
  }

  /** The store path of a key. */
  function S3Path(p: Prefixes, key: string): Result<string, IoError> {
    if OVERLAY <= key then Ok(p.overlay + key[|OVERLAY|..])
    else if BASE <= key then Ok(p.base + key[|BASE|..])
    else if SNAPSHOT <= key then
      var rest := key[|SNAPSHOT|..];
      var k := SlashAt(rest);
      if k == |rest| then Err(InvalidInput) else Ok(SnapshotPath(rest[..k], rest[k + 1..]))
    else Err(InvalidInput)
  }

  /** The store prefix of a listing prefix, and the key prefix of what the listing returns. */
  function S3Prefix(p: Prefixes, prefix: string): Result<(string, string), IoError> {
    if prefix == OVERLAY || prefix == "overlay" then Ok((p.overlay, OVERLAY))
    else if prefix == BASE || prefix == "base" then Ok((p.base, BASE))
    else if SNAPSHOT <= prefix then
      var version := TrimSlashes(prefix[|SNAPSHOT|..]);
      if version == "" then Err(InvalidInput)
      else Ok((SnapshotPath(version, ""), SNAPSHOT + version + "/"))
    else Err(InvalidInput)
  }

  // ── Distinct keys, distinct paths ───────────────────────────────────────

  ghost predicate Injective(p: Prefixes) {
    forall k, l | S3Path(p, k).Ok? && S3Path(p, k) == S3Path(p, l) :: k == l
  }

  predicate Comparable(s: string, t: string) { s <= t || t <= s }

  /** No path under `q` can be the path of a snapshot file. */
  predicate OutsideSnapshots(q: string) {
    && !(q <= VERSIONS)
    && (VERSIONS <= q ==>
      var rest := q[|VERSIONS|..];
      var k := SlashAt(rest);
      k < |rest| && !Comparable(rest[k + 1..], SNAPSHOT))
  }

  predicate Apart(p: Prefixes) {
    !Comparable(p.overlay, p.base) && OutsideSnapshots(p.overlay) && OutsideSnapshots(p.base)
  }

  lemma SlashOf(v: string, rest: string)
    requires '/' !in v
    ensures SlashAt(v + "/" + rest) == |v|
    ensures (v + "/" + rest)[..|v|] == v && (v + "/" + rest)[|v| + 1..] == rest
  {
    var s := v + "/" + rest;
    var k := SlashAt(s);
    forall i | 0 <= i < |v| ensures s[i] != '/' { assert s[i] == v[i]; }
    forall i | 0 <= i < k ensures s[i] != '/' { assert s[i] == s[..k][i]; }
    assert s[|v|] == '/';
  }

  lemma SameTail(q: string, a: string, b: string)
    requires q + a == q + b
    ensures a == b
  {
    assert a == (q + a)[|q|..] && b == (q + b)[|q|..];
  }

  lemma CommonPath(s: string, a: string, t: string, b: string)
    requires s + a == t + b
    ensures Comparable(s, t)
  {
    var u := s + a;
    assert s == u[..|s|] && t == u[..|t|];
    if |s| <= |t| { assert s == t[..|s|]; } else { assert t == s[..|t|]; }
  }

  lemma SnapshotShape(v: string, r: string)
    ensures SnapshotPath(v, r) == VERSIONS + (v + "/" + (SNAPSHOT + r))
  {
  }

  lemma SnapshotPathsDiffer(v: string, r: string, w: string, s: string)
    requires '/' !in v && '/' !in w && SnapshotPath(v, r) == SnapshotPath(w, s)
    ensures v == w && r == s
  {
    SnapshotShape(v, r);
    SnapshotShape(w, s);
    SameTail(VERSIONS, v + "/" + (SNAPSHOT + r), w + "/" + (SNAPSHOT + s));
    SlashOf(v, SNAPSHOT + r);
    SlashOf(w, SNAPSHOT + s);
    SameTail(SNAPSHOT, r, s);
  }

  /** Some path under `q` is the path of a snapshot file. */
  ghost predicate MeetsSnapshots(q: string) {
    exists rel, v, r :: '/' !in v && q + rel == SnapshotPath(v, r)
  }

  lemma OutsideMeansNever(q: string, rel: string, v: string, r: string)
    requires '/' !in v && q + rel == SnapshotPath(v, r)
    ensures !OutsideSnapshots(q)
  {
    hide SnapshotPath;
    SnapshotShape(v, r);
    CommonPath(q, rel, VERSIONS, v + "/" + (SNAPSHOT + r));
    if VERSIONS <= q {
      var rest := q[|VERSIONS|..];
      var k := SlashAt(rest);
      assert q == VERSIONS + rest;
      SameTail(VERSIONS, rest + rel, v + "/" + (SNAPSHOT + r)) by {
        assert VERSIONS + (rest + rel) == q + rel;
      }
      if k < |rest| {
        assert rest == rest[..k] + "/" + rest[k + 1..];
        assert rest + rel == rest[..k] + "/" + (rest[k + 1..] + rel);
        SlashOf(rest[..k], rest[k + 1..] + rel);
        SlashOf(v, SNAPSHOT + r);
        CommonPath(rest[k + 1..], rel, SNAPSHOT, r);
      }
    }
  }

  lemma Assoc(a: string, b: string, c: string)
    ensures (a + b) + c == a + (b + c)
  {
  }

  lemma Rejoin(s: string, t: string)
    requires s <= t
    ensures s + t[|s|..] == t
  {
  }

  lemma InsideMeets(q: string)
    requires !OutsideSnapshots(q)
    ensures MeetsSnapshots(q)
  {
    if q <= VERSIONS {
      ShortPrefixMeets(q);
    } else {
      var rest := q[|VERSIONS|..];
      Rejoin(VERSIONS, q);
      var k := SlashAt(rest);
      if k == |rest| {
        assert rest[..k] == rest;
        assert q + IN_VERSION == SnapshotPath(rest, "");
      } else {
        var v, t := rest[..k], rest[k + 1..];
        assert rest == v + "/" + t;
        VersionPrefixMeets(v, t);
      }
    }
  }

  lemma ShortPrefixMeets(q: string)
    requires q <= VERSIONS
    ensures MeetsSnapshots(q)
  {
    var rel := VERSIONS[|q|..] + IN_VERSION;
    Rejoin(q, VERSIONS);
    Assoc(q, VERSIONS[|q|..], IN_VERSION);
    assert SnapshotPath("", "") == VERSIONS + IN_VERSION;
    assert q + rel == SnapshotPath("", "");
  }

  lemma VersionPrefixMeets(v: string, t: string)
    requires '/' !in v && Comparable(t, SNAPSHOT)
    ensures MeetsSnapshots(VERSIONS + (v + "/" + t))
  {
    var q := VERSIONS + (v + "/" + t);
    var rel := if t <= SNAPSHOT then SNAPSHOT[|t|..] else "";
    var r := if t <= SNAPSHOT then "" else t[|SNAPSHOT|..];
    assert t + rel == SNAPSHOT + r by {
      if t <= SNAPSHOT { Rejoin(t, SNAPSHOT); } else { Rejoin(SNAPSHOT, t); }
    }
    SnapshotShape(v, r);
    Assoc(VERSIONS, v + "/" + t, rel);
    Assoc(v + "/", t, rel);
    assert q + rel == SnapshotPath(v, r);
  }

  lemma SnapshotKey(p: Prefixes, v: string, r: string)
    requires '/' !in v
    ensures S3Path(p, SNAPSHOT + (v + "/" + r)) == Ok(SnapshotPath(v, r))
  {
    var key := SNAPSHOT + (v + "/" + r);
    assert key[0] == 's' && !(OVERLAY <= key) && !(BASE <= key);
    assert key[|SNAPSHOT|..] == v + "/" + r;
    SlashOf(v, r);
  }

  lemma PlainKeys(p: Prefixes, rel: string)
    ensures S3Path(p, OVERLAY + rel) == Ok(p.overlay + rel)
    ensures S3Path(p, BASE + rel) == Ok(p.base + rel)
  {
    assert (OVERLAY + rel)[|OVERLAY|..] == rel && (BASE + rel)[|BASE|..] == rel;
    assert (BASE + rel)[0] == 'b';
  }

  /** The store path of every key, by name; no other key has one. */
  lemma PathsByName(p: Prefixes, key: string)
    ensures forall rel | key == "overlay/" + rel :: S3Path(p, key) == Ok(p.overlay + rel)
    ensures forall rel | key == "base/" + rel :: S3Path(p, key) == Ok(p.base + rel)
    ensures forall v, rel | '/' !in v && key == "snapshot/" + (v + "/" + rel) ::
      S3Path(p, key) == Ok("versions/" + (v + "/snapshot/" + rel))
    ensures S3Path(p, key).Err? ==> S3Path(p, key) == Err(InvalidInput)
    ensures S3Path(p, key).Ok? && !("overlay/" <= key) && !("base/" <= key) ==>
      exists v, rel :: '/' !in v && key == "snapshot/" + (v + "/" + rel)
  {
    hide S3Path, SlashAt;
    forall rel { PlainKeys(p, rel); }
    forall v, rel | '/' !in v && key == "snapshot/" + (v + "/" + rel)
      ensures S3Path(p, key) == Ok("versions/" + (v + "/snapshot/" + rel))
    {
      SnapshotKey(p, v, rel);
      assert SnapshotPath(v, rel) == "versions/" + (v + "/snapshot/" + rel);
    }
    KeyRefused(p, key);
    if S3Path(p, key).Ok? {
      var (n, rel, v, rest) := Dissect(p, key);
      if n == 2 { assert key == "snapshot/" + (v + "/" + rest); }
    }
  }

  lemma KeyRefused(p: Prefixes, key: string)
    ensures S3Path(p, key).Err? ==> S3Path(p, key) == Err(InvalidInput)
  {
  }

  lemma ApartIsInjective(p: Prefixes, k: string, l: string)
    requires Apart(p) && S3Path(p, k).Ok? && S3Path(p, k) == S3Path(p, l)
    ensures k == l
  {
    hide SnapshotPath, OutsideSnapshots, Comparable;
    var (nk, rk, vk, tk) := Dissect(p, k);
    var (nl, rl, vl, tl) := Dissect(p, l);
    if nk == 0 && nl == 0 { SameTail(p.overlay, rk, rl); }
    if nk == 1 && nl == 1 { SameTail(p.base, rk, rl); }
    if nk == 0 && nl == 1 { CommonPath(p.overlay, rk, p.base, rl); }
    if nk == 1 && nl == 0 { CommonPath(p.overlay, rl, p.base, rk); }
    if nk == 2 && nl == 2 { SnapshotPathsDiffer(vk, tk, vl, tl); }
    if nk == 2 && nl == 0 { OutsideMeansNever(p.overlay, rl, vk, tk); }
    if nk == 2 && nl == 1 { OutsideMeansNever(p.base, rl, vk, tk); }
    if nk == 0 && nl == 2 { OutsideMeansNever(p.overlay, rk, vl, tl); }
    if nk == 1 && nl == 2 { OutsideMeansNever(p.base, rk, vl, tl); }
  }

  /** Namespace of a key that has a path, with its relative path, or version and rest. */
  function Dissect(p: Prefixes, key: string): (d: (nat, string, string, string))
    requires S3Path(p, key).Ok?
    ensures d.0 <= 2
    ensures d.0 == 0 ==> key == OVERLAY + d.1 && S3Path(p, key) == Ok(p.overlay + d.1)
    ensures d.0 == 1 ==> key == BASE + d.1 && S3Path(p, key) == Ok(p.base + d.1)
    ensures d.0 == 2 ==> '/' !in d.2 && key == SNAPSHOT + (d.2 + "/" + d.3)
    ensures d.0 == 2 ==> S3Path(p, key) == Ok(SnapshotPath(d.2, d.3))
  {
    if OVERLAY <= key then
      assert key == OVERLAY + key[|OVERLAY|..];
      (0, key[|OVERLAY|..], "", "")
    else if BASE <= key then
      assert key == BASE + key[|BASE|..];
      (1, key[|BASE|..], "", "")
    else
      var rest := key[|SNAPSHOT|..];
      var k := SlashAt(rest);
      assert key == SNAPSHOT + rest && rest == rest[..k] + "/" + rest[k + 1..];
      (2, "", rest[..k], rest[k + 1..])
  }

  lemma NamespacesDiffer(a: string, b: string)
    ensures OVERLAY + a != BASE + b && OVERLAY + a != SNAPSHOT + b && BASE + a != SNAPSHOT + b
  {
    assert (OVERLAY + a)[0] == 'o' && (BASE + b)[0] == 'b' && (BASE + a)[0] == 'b' && (SNAPSHOT + b)[0] == 's';
  }

  /** Distinct keys have distinct store paths exactly when the two prefixes are apart from
      each other and from the snapshots. */
  lemma KeysExact(p: Prefixes)
    ensures Injective(p) <==> Apart(p)
  {
    hide S3Path, SnapshotPath, OutsideSnapshots;
    if Apart(p) {
      forall k, l | S3Path(p, k).Ok? && S3Path(p, k) == S3Path(p, l) ensures k == l {
        ApartIsInjective(p, k, l);
      }
    } else if Comparable(p.overlay, p.base) {
      var s := if p.overlay <= p.base then p.base[|p.overlay|..] else "";
      var t := if p.overlay <= p.base then "" else p.overlay[|p.base|..];
      assert p.overlay + s == p.base + t;
      PlainKeys(p, s);
      PlainKeys(p, t);
      NamespacesDiffer(s, t);
    } else if !OutsideSnapshots(p.overlay) {
      InsideMeets(p.overlay);
      var rel, v, r :| '/' !in v && p.overlay + rel == SnapshotPath(v, r);
      PlainKeys(p, rel);
      SnapshotKey(p, v, r);
      NamespacesDiffer(rel, v + "/" + r);
    } else {
      InsideMeets(p.base);
      var rel, v, r :| '/' !in v && p.base + rel == SnapshotPath(v, r);
      PlainKeys(p, rel);
      SnapshotKey(p, v, r);
      NamespacesDiffer(rel, v + "/" + r);
    }
  }

  /** The prefixes in use, `workspaces/{id}/` and `current/`, are apart. */
  lemma UsualPrefixesApart(workspace: string)
    ensures Apart(Prefixes("workspaces/" + workspace + "/", "current/"))
  {
    var o := "workspaces/" + workspace + "/";
    assert o[0] == 'w' && VERSIONS[0] == 'v' && "current/"[0] == 'c';
  }

  // ── Listing prefixes ────────────────────────────────────────────────────

  /** A key under the listing's key prefix stands for the path under its store prefix. */
  ghost predicate Faithful(p: Prefixes, prefix: string)
    requires S3Prefix(p, prefix).Ok?
  {
    var (path, key) := S3Prefix(p, prefix).value;
    forall rel :: S3Path(p, key + rel) == Ok(path + rel)
  }

  /** Swapping `w` and `snapshot` makes no difference. */
  predicate Commutes(w: string) { w + "/" + SNAPSHOT == SNAPSHOT + w + "/" }

  lemma PlainListingsFaithful(p: Prefixes, prefix: string)
    requires S3Prefix(p, prefix).Ok? && !(SNAPSHOT <= prefix)
    ensures Faithful(p, prefix)
  {
    forall rel { PlainKeys(p, rel); }
  }

  /** Trimming takes all slashes from the end. */
  lemma {:induction false} TrimsAll(v: string, slashes: string)
    requires v == "" || v[|v| - 1] != '/'
    requires forall c | c in slashes :: c == '/'
    ensures TrimSlashes(v + slashes) == v
  {
    if slashes != "" {
      var s := v + slashes;
      assert s[|s| - 1] == slashes[|slashes| - 1] && slashes[|slashes| - 1] in slashes;
      assert s[..|s| - 1] == v + slashes[..|slashes| - 1];
      var fewer := slashes[..|slashes| - 1];
      forall c | c in fewer ensures c == '/' { assert c in slashes; }
      TrimsAll(v, fewer);
    } else {
      assert v + slashes == v;
    }
  }

  /** The listings by name. A snapshot may be given with any number of slashes behind it, and
      not without a version. */
  lemma PrefixesByName(p: Prefixes, version: string, slashes: string)
    requires version == "" || version[|version| - 1] != '/'
    requires forall c | c in slashes :: c == '/'
    ensures S3Prefix(p, "overlay") == S3Prefix(p, "overlay/") == Ok((p.overlay, "overlay/"))
    ensures S3Prefix(p, "base") == S3Prefix(p, "base/") == Ok((p.base, "base/"))
    ensures S3Prefix(p, "snapshot/" + (version + slashes)) ==
      if version == "" then Err(InvalidInput)
      else Ok(("versions/" + version + "/snapshot/", "snapshot/" + version + "/"))
  {
    var prefix := "snapshot/" + (version + slashes);
    assert prefix[0] == 's' && SNAPSHOT <= prefix;
    assert prefix[|SNAPSHOT|..] == version + slashes;
    TrimsAll(version, slashes);
    assert SnapshotPath(version, "") == "versions/" + version + "/snapshot/";
  }

  lemma {:induction false} SnapshotListing(p: Prefixes, version: string, rel: string)
    ensures var k := SlashAt(version);
      S3Path(p, SNAPSHOT + version + "/" + rel) == Ok(
        if k == |version| then SnapshotPath(version, rel)
        else SnapshotPath(version[..k], version[k + 1..] + "/" + rel))
  {
    hide SnapshotPath, S3Path, SlashAt;
    var k := SlashAt(version);
    if k == |version| {
      assert version[..k] == version;
      Regroup(SNAPSHOT, version, rel);
      SnapshotKey(p, version, rel);
    } else {
      var v, w := version[..k], version[k + 1..];
      assert version == v + "/" + w;
      Regroup(SNAPSHOT, version, rel);
      RegroupVersion(v, w, rel);
      SnapshotKey(p, v, w + "/" + rel);
    }
  }

  lemma Regroup(a: string, b: string, c: string)
    ensures a + b + "/" + c == a + (b + "/" + c)
  {
  }

  lemma RegroupVersion(v: string, w: string, c: string)
    ensures v + "/" + w + "/" + c == v + "/" + (w + "/" + c)
  {
  }

  lemma SameMiddle(head: string, a: string, b: string, tail: string)
    requires |a| == |b|
    ensures head + a + tail == head + b + tail <==> a == b
  {
    if head + a + tail == head + b + tail {
      Assoc(head, a, tail);
      Assoc(head, b, tail);
      SameTail(head, a + tail, b + tail);
      assert a == (a + tail)[..|a|] && b == (b + tail)[..|b|];
    }
  }

  lemma SlashedVersion(v: string, w: string, rel: string)
    ensures SnapshotPath(v + "/" + w, rel) == SnapshotPath(v, w + "/" + rel) <==> Commutes(w)
  {
    var head := VERSIONS + v + "/";
    Assoc(VERSIONS, v + "/", w);
    Assoc(VERSIONS, v, "/");
    assert VERSIONS + (v + "/" + w) == head + w;
    Assoc(head, w, IN_VERSION);
    assert w + IN_VERSION == w + "/" + SNAPSHOT;
    assert SnapshotPath(v + "/" + w, rel) == head + (w + "/" + SNAPSHOT) + rel;
    assert VERSIONS + v + IN_VERSION == head + SNAPSHOT;
    Assoc(w, "/", rel);
    Assoc(SNAPSHOT, w, "/");
    Assoc(head, SNAPSHOT, w + "/" + rel);
    assert SnapshotPath(v, w + "/" + rel) == head + (SNAPSHOT + w + "/") + rel;
    SameMiddle(head, w + "/" + SNAPSHOT, SNAPSHOT + w + "/", rel);
  }

  /** A snapshot listing is faithful exactly when its version has no slash in it, or what
      follows the first slash reads the same before and after `snapshot`. */
  lemma SnapshotListingsFaithful(p: Prefixes, prefix: string)
    requires SNAPSHOT <= prefix && S3Prefix(p, prefix).Ok?
    ensures var version := TrimSlashes(prefix[|SNAPSHOT|..]);
      var k := SlashAt(version);
      Faithful(p, prefix) <==> k == |version| || Commutes(version[k + 1..])
  {
    hide S3Path, TrimSlashes, Commutes, SnapshotPath;
    assert prefix[0] == 's';
    var version := TrimSlashes(prefix[|SNAPSHOT|..]);
    var k := SlashAt(version);
    var (path, key) := S3Prefix(p, prefix).value;
    forall rel
      ensures S3Path(p, key + rel) == Ok(path + rel) <==> k == |version| || Commutes(version[k + 1..])
    {
      SnapshotListing(p, version, rel);
      EmptyRel(version, rel);
      if k < |version| {
        assert version == version[..k] + "/" + version[k + 1..];
        SlashedVersion(version[..k], version[k + 1..], rel);
      }
    }
    assert S3Path(p, key + "") == Ok(path + "") <==> k == |version| || Commutes(version[k + 1..]);
  }

  lemma EmptyRel(version: string, rel: string)
    ensures SnapshotPath(version, "") + rel == SnapshotPath(version, rel)
  {
  }
}
