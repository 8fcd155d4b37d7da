/**
 The workspace diff: file changes between an overlay and its base, entity changes
 between the two versions of a source file, and the events recorded for them.
 The parser and the hash are parameters.
 */
module Diff {
  import opened Prelude

  datatype FileChange = Added | Modified | Deleted

  datatype FileDiff = FileDiff(path: string, change: FileChange, lines: nat, hash: string)

  datatype Entity = Entity(
    id: string, kind: string, qualifiedName: string, bytes: (nat, nat), lines: (nat, nat))

  datatype EntityChangeType = NewEntity | ChangedEntity | RemovedEntity

  datatype EntityChange = EntityChange(
    id: string, qualifiedName: string, kind: string, file: string,
    change: EntityChangeType, lines: Option<(nat, nat)>)

  datatype Tools = Tools(parse: (string, Bytes) -> Option<seq<Entity>>, hash: Bytes -> string)

  // ── Deleted paths ───────────────────────────────────────────────────────

  /** The elements of `s` at their first occurrences. */
  function Firsts(s: seq<string>): seq<string> {
    if s == [] then []
    else
      var before := Firsts(s[..|s| - 1]);
      if s[|s| - 1] in before then before else before + [s[|s| - 1]]
  }

  lemma {:induction false} FirstsKeep(s: seq<string>)
    ensures NoDuplicates(Firsts(s)) && forall x :: x in Firsts(s) <==> x in s
  {
    if s != [] {
      FirstsKeep(s[..|s| - 1]);
      assert s == s[..|s| - 1] + [s[|s| - 1]];
    }
  }

  /** Merges the deletion manifest with the paths in the workspace's metadata. */
  method MergeDeletedPaths(manifest: seq<string>, meta: seq<string>) returns (paths: seq<string>)
    ensures paths == Firsts(manifest + meta) && NoDuplicates(paths)
    ensures forall x :: x in paths <==> x in manifest || x in meta
  {
    var all := manifest + meta;
    var seen := {};
    paths := [];
    for i := 0 to |all|
      invariant paths == Firsts(all[..i]) && forall x :: x in seen <==> x in paths
    {
      assert all[..i + 1][..i] == all[..i];
      if all[i] !in seen {
        seen := seen + {all[i]};
        paths := paths + [all[i]];
      }
    }
    assert all[..|all|] == all;
    FirstsKeep(all);
  }

  // ── Entities of one file ────────────────────────────────────────────────

  /** Entities by id; of two with the same id the later one counts. */
  function TableOf(es: seq<Entity>): (t: map<string, Entity>)
    ensures forall id | id in t :: t[id].id == id
  {
    if es == [] then map[] else TableOf(es[..|es| - 1])[es[|es| - 1].id := es[|es| - 1]]
  }

  /** The table has the ids of the list and no others, each with the last entity of that id. */
  lemma {:induction false} TableExactly(es: seq<Entity>, i: nat)
    requires i < |es| && forall j | i < j < |es| :: es[j].id != es[i].id
    ensures es[i].id in TableOf(es) && TableOf(es)[es[i].id] == es[i]
    ensures forall id :: id in TableOf(es) <==> exists e | e in es :: e.id == id
  {
    var n := |es| - 1;
    TableIds(es);
    if i < n {
      assert forall j | i < j < n :: es[..n][j].id == es[j].id;
      TableExactly(es[..n], i);
    }
  }

  lemma {:induction false} TableIds(es: seq<Entity>)
    ensures forall id :: id in TableOf(es) <==> exists e | e in es :: e.id == id
  {
    if es != [] {
      var n := |es| - 1;
      TableIds(es[..n]);
      assert forall e :: e in es <==> e in es[..n] || e == es[n];
    }
  }

  function Min(a: nat, b: nat): nat { if a < b then a else b }

  /** The bytes an entity covers, clipped to the file; none if its range is out of order. */
  function Span(e: Entity, content: Bytes): Bytes {
    var end := Min(e.bytes.1, |content|);
    if e.bytes.0 <= end then content[e.bytes.0..end] else []
  }

  /** A span holds the bytes of the content from its start to its end, as far as there are any. */
  lemma SpanExactly(e: Entity, content: Bytes, k: nat)
    ensures k < |Span(e, content)| <==> e.bytes.0 + k < e.bytes.1 && e.bytes.0 + k < |content|
    ensures k < |Span(e, content)| ==> Span(e, content)[k] == content[e.bytes.0 + k]
  {
  }

  function Spans(t: map<string, Entity>, content: Bytes): map<string, Bytes> {
    map id | id in t :: Span(t[id], content)
  }

  function ChangeOf(e: Entity, file: string, change: EntityChangeType): EntityChange {
    EntityChange(e.id, e.qualifiedName, e.kind, file, change,
                 if change.RemovedEntity? then None else Some(e.lines))
  }

  /** `delta` reports, in some order and each once, the entities that differ between two tables. */
  ghost predicate IsEntityDelta(delta: seq<EntityChange>, file: string, was: map<string, Entity>, old_: Bytes,
                                is_: map<string, Entity>, new_: Bytes) {
    && (forall i, j | 0 <= i < j < |delta| :: delta[i].id != delta[j].id)
    && (forall x :: x in delta <==>
      || (x.id in is_ && x.id !in was && x == ChangeOf(is_[x.id], file, NewEntity))
      || (x.id in is_ && x.id in was && Span(was[x.id], old_) != Span(is_[x.id], new_)
          && x == ChangeOf(is_[x.id], file, ChangedEntity))
      || (x.id !in is_ && x.id in was && x == ChangeOf(was[x.id], file, RemovedEntity)))
  }

  /** Applies entity changes one after the other, taking new contents from `target`. */
  function ReplayEntities(delta: seq<EntityChange>, t: map<string, Bytes>, target: map<string, Bytes>): map<string, Bytes> {
    if delta == [] then t
    else
      var x := delta[0];
      var t' := if x.change.RemovedEntity? then t - {x.id}
                else if x.id in target then t[x.id := target[x.id]] else t;
      ReplayEntities(delta[1..], t', target)
  }

  lemma {:induction false} ReplayEntitiesAt(delta: seq<EntityChange>, t: map<string, Bytes>, target: map<string, Bytes>, id: string)
    requires forall i, j | 0 <= i < j < |delta| :: delta[i].id != delta[j].id
    requires forall x | x in delta :: x.change.RemovedEntity? <==> x.id !in target
    ensures var r := ReplayEntities(delta, t, target);
      if exists x | x in delta :: x.id == id
      then (id in r <==> id in target) && (id in r ==> r[id] == target[id])
      else (id in r <==> id in t) && (id in r ==> r[id] == t[id])
  {
    if delta != [] {
      var x := delta[0];
      assert x in delta && forall y | y in delta[1..] :: y in delta;
      var t' := if x.change.RemovedEntity? then t - {x.id}
                else if x.id in target then t[x.id := target[x.id]] else t;
      ReplayEntitiesAt(delta[1..], t', target, id);
      assert forall y | y in delta :: y == x || y in delta[1..];
      forall y | y in delta[1..] ensures y.id != x.id {
        var j :| 0 <= j < |delta[1..]| && delta[1..][j] == y;
        assert delta[j + 1] == y;
      }
    }
  }

  /** Replaying the entity changes of a file turns its base table into its overlay table;
      a common entity goes unreported exactly when its bytes are the same. */
  lemma EntityDeltaReplays(delta: seq<EntityChange>, file: string, was: map<string, Entity>, old_: Bytes,
                           is_: map<string, Entity>, new_: Bytes)
    requires forall id | id in was :: was[id].id == id
    requires forall id | id in is_ :: is_[id].id == id
    requires IsEntityDelta(delta, file, was, old_, is_, new_)
    ensures ReplayEntities(delta, Spans(was, old_), Spans(is_, new_)) == Spans(is_, new_)
    ensures forall id | id in was && id in is_ ::
      (exists x | x in delta :: x.id == id) <==> Span(was[id], old_) != Span(is_[id], new_)
  {
    hide Span;
    var s, t := Spans(was, old_), Spans(is_, new_);
    var r := ReplayEntities(delta, s, t);
    forall id | id in was && id in is_
      ensures (exists x | x in delta :: x.id == id) <==> Span(was[id], old_) != Span(is_[id], new_)
    {
      if Span(was[id], old_) != Span(is_[id], new_) { assert ChangeOf(is_[id], file, ChangedEntity) in delta; }
    }
    forall id ensures (id in r <==> id in t) && (id in r ==> r[id] == t[id]) {
      ReplayEntitiesAt(delta, s, t, id);
      if id in is_ && id !in was { assert ChangeOf(is_[id], file, NewEntity) in delta; }
      if id in was && id !in is_ { assert ChangeOf(was[id], file, RemovedEntity) in delta; }
    }
    assert r.Keys == t.Keys;
  }

  /** Pushes the new and the changed entities of the overlay. */
  method PushPresent(path: string, overlayTable: map<string, Entity>, overlay: Bytes,
                     baseTable: map<string, Entity>, base: Bytes, changes: seq<EntityChange>)
    returns (result: seq<EntityChange>, ghost delta: seq<EntityChange>)
    requires forall id | id in overlayTable :: overlayTable[id].id == id
    ensures result == changes + delta
    ensures forall a, b | 0 <= a < b < |delta| :: delta[a].id != delta[b].id
    ensures forall x :: x in delta <==>
      || (x.id in overlayTable && x.id !in baseTable && x == ChangeOf(overlayTable[x.id], path, NewEntity))
      || (x.id in overlayTable && x.id in baseTable && Span(baseTable[x.id], base) != Span(overlayTable[x.id], overlay)
          && x == ChangeOf(overlayTable[x.id], path, ChangedEntity))
  {
    hide Span;
    result, delta := changes, [];
    var ids := Elements(overlayTable.Keys);
    for i := 0 to |ids|
      invariant result == changes + delta
      invariant forall a, b | 0 <= a < b < |delta| :: delta[a].id != delta[b].id
      invariant forall x :: x in delta <==>
        || (x.id in ids[..i] && x.id !in baseTable && x == ChangeOf(overlayTable[x.id], path, NewEntity))
        || (x.id in ids[..i] && x.id in baseTable
            && Span(baseTable[x.id], base) != Span(overlayTable[x.id], overlay)
            && x == ChangeOf(overlayTable[x.id], path, ChangedEntity))
    {
      var id := ids[i];
      assert ids[..i + 1] == ids[..i] + [id];
      assert id !in ids[..i];
      var entity := overlayTable[id];
      if id in baseTable {
        if Span(baseTable[id], base) != Span(entity, overlay) {
          result := result + [ChangeOf(entity, path, ChangedEntity)];
          delta := delta + [ChangeOf(entity, path, ChangedEntity)];
        }
      } else {
        result := result + [ChangeOf(entity, path, NewEntity)];
        delta := delta + [ChangeOf(entity, path, NewEntity)];
      }
    }
    assert ids[..|ids|] == ids;
  }

  /** Pushes the entities of the base that the overlay no longer has. */
  method PushRemoved(path: string, overlayTable: map<string, Entity>, baseTable: map<string, Entity>,
                     changes: seq<EntityChange>)
    returns (result: seq<EntityChange>, ghost delta: seq<EntityChange>)
    requires forall id | id in baseTable :: baseTable[id].id == id
    ensures result == changes + delta
    ensures forall a, b | 0 <= a < b < |delta| :: delta[a].id != delta[b].id
    ensures forall x :: x in delta <==>
      x.id in baseTable && x.id !in overlayTable && x == ChangeOf(baseTable[x.id], path, RemovedEntity)
  {
    result, delta := changes, [];
    var ids := Elements(baseTable.Keys);
    for i := 0 to |ids|
      invariant result == changes + delta
      invariant forall a, b | 0 <= a < b < |delta| :: delta[a].id != delta[b].id
      invariant forall x :: x in delta <==>
        x.id in ids[..i] && x.id !in overlayTable && x == ChangeOf(baseTable[x.id], path, RemovedEntity)
    {
      var id := ids[i];
      assert ids[..i + 1] == ids[..i] + [id];
      assert id !in ids[..i];
      if id !in overlayTable {
        result := result + [ChangeOf(baseTable[id], path, RemovedEntity)];
        delta := delta + [ChangeOf(baseTable[id], path, RemovedEntity)];
      }
    }
    assert ids[..|ids|] == ids;
  }

  /** Pushes the changes of one file. A file without a base has only new entities. */
  method ComputeEntityDiff(tools: Tools, path: string, overlay: Bytes, base: Option<Bytes>, changes: seq<EntityChange>)
    returns (r: Option<seq<EntityChange>>, ghost delta: seq<EntityChange>)
    ensures r.None? <==> tools.parse(path, overlay).None? || (base.Some? && tools.parse(path, base.value).None?)
    ensures r.Some? ==> r.value == changes + delta && IsEntityDelta(delta, path,
      if base.Some? then TableOf(tools.parse(path, base.value).value) else map[], base.GetOr([]),
      TableOf(tools.parse(path, overlay).value), overlay)
  {
    hide Span;
    delta := [];
    var parsed := tools.parse(path, overlay);
    if parsed.None? {
      return None, delta;
    }
    var overlayTable := TableOf(parsed.value);
    var baseTable: map<string, Entity> := map[];
    var baseContent: Bytes := [];
    if base.Some? {
      var parsedBase := tools.parse(path, base.value);
      if parsedBase.None? {
        return None, delta;
      }
      baseTable, baseContent := TableOf(parsedBase.value), base.value;
    }
    var present, first := PushPresent(path, overlayTable, overlay, baseTable, baseContent, changes);
    var result, second := PushRemoved(path, overlayTable, baseTable, present);
    delta := first + second;
    assert changes + first + second == changes + delta;
    forall i, j | 0 <= i < j < |delta| ensures delta[i].id != delta[j].id {
      if i < |first| <= j { assert delta[i] in first && delta[j] in second; }
    }
    return Some(result), delta;
  }

  // ── All files ───────────────────────────────────────────────────────────

  datatype WorkspaceDiff = WorkspaceDiff(fileDiffs: seq<FileDiff>, entityChanges: seq<EntityChange>)

  function Newlines(c: Bytes): nat {
    if c == [] then 0 else Newlines(c[1..]) + (if c[0] == 10 then 1 else 0)
  }

  function CountLines(c: Bytes): nat { if c == [] then 0 else Newlines(c) + 1 }

  /** Every newline counts, and one more for what follows the last; nothing has no lines. */
  lemma {:induction false} LinesCounted(a: Bytes, b: Bytes)
    ensures CountLines([]) == 0
    ensures 10 !in b ==> CountLines(a + [10] + b) == if a == [] then 2 else CountLines(a) + 1
    ensures 10 !in a && a != [] ==> CountLines(a) == 1
  {
    NewlinesAppend(a + [10], b);
    NewlinesAppend(a, [10]);
    assert Newlines([10]) == 1 by { assert [10 as bv8][1..] == []; }
    if 10 !in a { NoNewlines(a); }
    if 10 !in b { NoNewlines(b); }
  }

  lemma {:induction false} NewlinesAppend(a: Bytes, b: Bytes)
    ensures Newlines(a + b) == Newlines(a) + Newlines(b)
  {
    if a == [] {
      assert a + b == b;
    } else {
      assert (a + b)[1..] == a[1..] + b;
      NewlinesAppend(a[1..], b);
    }
  }

  lemma {:induction false} NoNewlines(a: Bytes)
    requires 10 !in a
    ensures Newlines(a) == 0
  {
    if a != [] { NoNewlines(a[1..]); }
  }

  /** An overlay file counts as modified whenever the base has a file of that name, even one
      with the same content. */
  function OverlayDiff(path: string, base: Files, content: Bytes, tools: Tools): FileDiff {
    FileDiff(path, if path in base then Modified else Added, CountLines(content), tools.hash(content))
  }

  /** `part` has one entry for every overlay file, in some order. */
  ghost predicate IsOverlayPart(part: seq<FileDiff>, base: Files, overlay: Files, tools: Tools) {
    && (forall i, j | 0 <= i < j < |part| :: part[i].path != part[j].path)
    && (forall d :: d in part <==> d.path in overlay && d == OverlayDiff(d.path, base, overlay[d.path], tools))
  }

  function DeletedDiff(path: string, base: Files): seq<FileDiff> {
    if path in base then [FileDiff(path, Deleted, 0, "")] else []
  }

  function DeletedPart(deleted: seq<string>, base: Files): seq<FileDiff> {
    if deleted == [] then [] else DeletedDiff(deleted[0], base) + DeletedPart(deleted[1..], base)
  }

  function Hashes(files: Files, tools: Tools): map<string, string> {
    map x | x in files :: tools.hash(files[x])
  }

  /** Applies file diffs one after the other to a table of content hashes. */
  function ReplayFiles(diffs: seq<FileDiff>, m: map<string, string>): map<string, string> {
    if diffs == [] then m
    else
      var d := diffs[0];
      ReplayFiles(diffs[1..], if d.change.Deleted? then m - {d.path} else m[d.path := d.hash])
  }

  lemma {:induction false} ReplayAppend(a: seq<FileDiff>, b: seq<FileDiff>, m: map<string, string>)
    ensures ReplayFiles(a + b, m) == ReplayFiles(b, ReplayFiles(a, m))
  {
    if a == [] {
      assert a + b == b;
    } else {
      assert (a + b)[1..] == a[1..] + b;
      var d := a[0];
      ReplayAppend(a[1..], b, if d.change.Deleted? then m - {d.path} else m[d.path := d.hash]);
    }
  }

  lemma {:induction false} ReplayOverlayAt(part: seq<FileDiff>, m: map<string, string>, x: string)
    requires forall i, j | 0 <= i < j < |part| :: part[i].path != part[j].path
    requires forall d | d in part :: !d.change.Deleted?
    ensures var r := ReplayFiles(part, m);
      && (x in r <==> x in m || exists d | d in part :: d.path == x)
      && (forall d | d in part && d.path == x :: x in r && r[x] == d.hash)
      && (x in m && (forall d | d in part :: d.path != x) ==> r[x] == m[x])
  {
    if part != [] {
      var d := part[0];
      assert d in part && forall e :: e in part <==> e == d || e in part[1..];
      ReplayOverlayAt(part[1..], m[d.path := d.hash], x);
      forall e | e in part[1..] ensures e.path != d.path {
        var j :| 0 <= j < |part[1..]| && part[1..][j] == e;
        assert part[j + 1] == e;
      }
    }
  }

  lemma {:induction false} ReplayDeleted(deleted: seq<string>, base: Files, m: map<string, string>)
    ensures ReplayFiles(DeletedPart(deleted, base), m) == m - (set x | x in deleted && x in base)
  {
    if deleted != [] {
      var x, rest := deleted[0], DeletedPart(deleted[1..], base);
      GoneStep(deleted, base, m);
      hide ReplayFiles;
      if x in base {
        ReplayAppend([FileDiff(x, Deleted, 0, "")], rest, m);
        ReplayOne(x, m);
        ReplayDeleted(deleted[1..], base, m - {x});
      } else {
        assert [] + rest == rest;
        ReplayDeleted(deleted[1..], base, m);
      }
    }
  }

  lemma ReplayOne(x: string, m: map<string, string>)
    ensures ReplayFiles([FileDiff(x, Deleted, 0, "")], m) == m - {x}
  {
    assert [FileDiff(x, Deleted, 0, "")][1..] == [];
  }

  lemma GoneStep(deleted: seq<string>, base: Files, m: map<string, string>)
    requires deleted != []
    ensures m - (set y | y in deleted && y in base) ==
      (if deleted[0] in base then m - {deleted[0]} else m) - (set y | y in deleted[1..] && y in base)
  {
    assert forall y :: y in deleted <==> y == deleted[0] || y in deleted[1..];
  }

  /** Replaying the file diffs over the base gives the base overwritten by the overlay,
      without the deleted paths that were in the base: a path that is both in the overlay
      and deleted is gone if the base has it, and stays if it is new. */
  lemma FileDiffsReplay(part: seq<FileDiff>, base: Files, overlay: Files, deleted: seq<string>, tools: Tools)
    requires IsOverlayPart(part, base, overlay, tools)
    ensures ReplayFiles(part + DeletedPart(deleted, base), Hashes(base, tools))
         == Hashes((base + overlay) - (set x | x in deleted && x in base), tools)
  {
    ReplayAppend(part, DeletedPart(deleted, base), Hashes(base, tools));
    OverlayPartReplays(part, base, overlay, tools);
    var gone := set x | x in deleted && x in base;
    ReplayDeleted(deleted, base, Hashes(base + overlay, tools));
    assert Hashes(base + overlay, tools) - gone == Hashes((base + overlay) - gone, tools);
  }

  lemma OverlayPartReplays(part: seq<FileDiff>, base: Files, overlay: Files, tools: Tools)
    requires IsOverlayPart(part, base, overlay, tools)
    ensures ReplayFiles(part, Hashes(base, tools)) == Hashes(base + overlay, tools)
  {
    hide CountLines, ReplayFiles;
    var m := Hashes(base, tools);
    var r, whole := ReplayFiles(part, m), Hashes(base + overlay, tools);
    forall x ensures (x in r <==> x in whole) && (x in r ==> r[x] == whole[x]) {
      ReplayOverlayAt(part, m, x);
      if x in overlay {
        var d := OverlayDiff(x, base, overlay[x], tools);
        assert d in part && d.path == x;
      }
    }
    assert r.Keys == whole.Keys;
  }

  // ── Entities of all files ───────────────────────────────────────────────

  predicate IsRust(path: string) { |path| >= 3 && path[|path| - 3..] == ".rs" }

  /** The entity changes that one file diff brings with it. The parse of a deleted file may
      fail without consequence. */
  ghost predicate IsPiece(piece: seq<EntityChange>, d: FileDiff, base: Files, overlay: Files, tools: Tools) {
    if !IsRust(d.path) then piece == []
    else if d.change.Deleted? then
      d.path in base && piece == match tools.parse(d.path, base[d.path])
        case None => []
        case Some(es) => seq(|es|, i requires 0 <= i < |es| => ChangeOf(es[i], d.path, RemovedEntity))
    else
      && d.path in overlay && tools.parse(d.path, overlay[d.path]).Some?
      && (d.path in base ==> tools.parse(d.path, base[d.path]).Some?)
      && IsEntityDelta(piece, d.path,
        if d.path in base then TableOf(tools.parse(d.path, base[d.path]).value) else map[],
        if d.path in base then base[d.path] else [],
        TableOf(tools.parse(d.path, overlay[d.path]).value), overlay[d.path])
  }

  function Concat(pieces: seq<seq<EntityChange>>): seq<EntityChange> {
    if pieces == [] then [] else Concat(pieces[..|pieces| - 1]) + pieces[|pieces| - 1]
  }

  /** The overlay files that make the diff fail. */
  predicate Unparsable(path: string, base: Files, overlay: Files, tools: Tools)
    requires path in overlay
  {
    IsRust(path) && (
      || tools.parse(path, overlay[path]).None?
      || (path in base && tools.parse(path, base[path]).None?))
  }

  ghost predicate PiecesFit(pieces: seq<seq<EntityChange>>, diffs: seq<FileDiff>, base: Files, overlay: Files, tools: Tools) {
    |pieces| == |diffs| && forall i | 0 <= i < |diffs| :: IsPiece(pieces[i], diffs[i], base, overlay, tools)
  }

  /** The overlay part of the diff after the files in `done`. */
  ghost predicate PartOf(part: seq<FileDiff>, done: seq<string>, base: Files, overlay: Files, tools: Tools) {
    && (forall i, j | 0 <= i < j < |part| :: part[i].path != part[j].path)
    && (forall d :: d in part <==>
      d.path in done && d.path in overlay && d == OverlayDiff(d.path, base, overlay[d.path], tools))
  }

  lemma PartSnoc(part: seq<FileDiff>, done: seq<string>, path: string, base: Files, overlay: Files, tools: Tools)
    requires PartOf(part, done, base, overlay, tools) && path !in done && path in overlay
    ensures PartOf(part + [OverlayDiff(path, base, overlay[path], tools)], done + [path], base, overlay, tools)
  {
  }

  lemma PiecesSnoc(pieces: seq<seq<EntityChange>>, diffs: seq<FileDiff>, piece: seq<EntityChange>, d: FileDiff,
                   base: Files, overlay: Files, tools: Tools)
    requires PiecesFit(pieces, diffs, base, overlay, tools) && IsPiece(piece, d, base, overlay, tools)
    ensures PiecesFit(pieces + [piece], diffs + [d], base, overlay, tools)
    ensures Concat(pieces + [piece]) == Concat(pieces) + piece
  {
  }

  method DiffOverlay(tools: Tools, base: Files, overlay: Files)
    returns (r: Option<WorkspaceDiff>, ghost pieces: seq<seq<EntityChange>>)
    ensures r.None? <==> exists path | path in overlay :: Unparsable(path, base, overlay, tools)
    ensures r.Some? ==>
      && IsOverlayPart(r.value.fileDiffs, base, overlay, tools)
      && PiecesFit(pieces, r.value.fileDiffs, base, overlay, tools)
      && r.value.entityChanges == Concat(pieces)
  {
    hide IsEntityDelta, PartOf, PiecesFit, OverlayDiff;
    var diffs: seq<FileDiff>, changes: seq<EntityChange> := [], [];
    pieces := [];
    var keys := Elements(overlay.Keys);
    assert PartOf(diffs, [], base, overlay, tools) && PiecesFit(pieces, diffs, base, overlay, tools) by {
      NothingDone(base, overlay, tools);
    }
    for i := 0 to |keys|
      invariant PartOf(diffs, keys[..i], base, overlay, tools)
      invariant PiecesFit(pieces, diffs, base, overlay, tools) && changes == Concat(pieces)
      invariant forall path | path in keys[..i] :: path in overlay && !Unparsable(path, base, overlay, tools)
    {
      var path := keys[i];
      assert keys[..i + 1] == keys[..i] + [path];
      assert path !in keys[..i] && path in keys;
      var d := OverlayDiff(path, base, overlay[path], tools);
      assert d.path == path && !d.change.Deleted? by { OverlayDiffPath(path, base, overlay[path], tools); }
      PartSnoc(diffs, keys[..i], path, base, overlay, tools);
      ghost var piece: seq<EntityChange> := [];
      if IsRust(path) {
        var baseContent := if path in base then Some(base[path]) else None;
        var result, delta := ComputeEntityDiff(tools, path, overlay[path], baseContent, changes);
        if result.None? {
          assert Unparsable(path, base, overlay, tools);
          return None, pieces;
        }
        changes := result.value;
        piece := delta;
      }
      PiecesSnoc(pieces, diffs, piece, d, base, overlay, tools);
      diffs := diffs + [d];
      pieces := pieces + [piece];
    }
    assert keys[..|keys|] == keys;
    assert IsOverlayPart(diffs, base, overlay, tools) by { AllDone(diffs, keys, base, overlay, tools); }
    return Some(WorkspaceDiff(diffs, changes)), pieces;
  }

  lemma OverlayDiffPath(path: string, base: Files, content: Bytes, tools: Tools)
    ensures OverlayDiff(path, base, content, tools).path == path
    ensures !OverlayDiff(path, base, content, tools).change.Deleted?
  {
  }

  lemma NothingDone(base: Files, overlay: Files, tools: Tools)
    ensures PartOf([], [], base, overlay, tools) && PiecesFit([], [], base, overlay, tools)
  {
  }

  lemma AllDone(part: seq<FileDiff>, done: seq<string>, base: Files, overlay: Files, tools: Tools)
    requires PartOf(part, done, base, overlay, tools) && forall x :: x in done <==> x in overlay
    ensures IsOverlayPart(part, base, overlay, tools)
  {
  }

  /** Pushes the explicit deletions that the base has, with the entities of deleted files. */
  method DiffDeleted(tools: Tools, base: Files, deleted: seq<string>, overlayDiff: WorkspaceDiff,
                     ghost overlay: Files, ghost overlayPieces: seq<seq<EntityChange>>)
    returns (r: WorkspaceDiff, ghost pieces: seq<seq<EntityChange>>)
    requires PiecesFit(overlayPieces, overlayDiff.fileDiffs, base, overlay, tools)
    requires overlayDiff.entityChanges == Concat(overlayPieces)
    ensures r.fileDiffs == overlayDiff.fileDiffs + DeletedPart(deleted, base)
    ensures PiecesFit(pieces, r.fileDiffs, base, overlay, tools) && r.entityChanges == Concat(pieces)
  {
    hide PiecesFit, Concat, IsEntityDelta;
    var diffs, changes := overlayDiff.fileDiffs, overlayDiff.entityChanges;
    pieces := overlayPieces;
    for i := 0 to |deleted|
      invariant diffs == overlayDiff.fileDiffs + DeletedPart(deleted[..i], base)
      invariant PiecesFit(pieces, diffs, base, overlay, tools) && changes == Concat(pieces)
    {
      var path := deleted[i];
      DeletedSnoc(deleted[..i], path, base);
      assert deleted[..i + 1] == deleted[..i] + [path];
      if path in base {
        var d := FileDiff(path, Deleted, 0, "");
        ghost var piece: seq<EntityChange> := [];
        if IsRust(path) {
          match tools.parse(path, base[path])
          case None =>
          case Some(es) =>
            var removed := seq(|es|, k requires 0 <= k < |es| => ChangeOf(es[k], path, RemovedEntity));
            changes := changes + removed;
            piece := removed;
        }
        PiecesSnoc(pieces, diffs, piece, d, base, overlay, tools);
        diffs := diffs + [d];
        pieces := pieces + [piece];
      }
    }
    assert deleted[..|deleted|] == deleted;
    return WorkspaceDiff(diffs, changes), pieces;
  }

  /** The diff of an overlay and explicit deletions against the base. */
  method ComputeWithFs(tools: Tools, base: Files, overlay: Files, deleted: seq<string>)
    returns (r: Option<WorkspaceDiff>, ghost part: seq<FileDiff>, ghost pieces: seq<seq<EntityChange>>)
    ensures r.None? <==> exists path | path in overlay :: Unparsable(path, base, overlay, tools)
    ensures r.None? <==> exists path | path in overlay && |path| >= 3 && path[|path| - 3..] == ".rs" ::
      tools.parse(path, overlay[path]).None? || (path in base && tools.parse(path, base[path]).None?)
    ensures r.Some? ==>
      && IsOverlayPart(part, base, overlay, tools)
      && r.value.fileDiffs == part + DeletedPart(deleted, base)
      && PiecesFit(pieces, r.value.fileDiffs, base, overlay, tools)
      && r.value.entityChanges == Concat(pieces)
  {
    part := [];
    r, pieces := DiffOverlay(tools, base, overlay);
    if r.Some? {
      part := r.value.fileDiffs;
      var whole, allPieces := DiffDeleted(tools, base, deleted, r.value, overlay, pieces);
      r, pieces := Some(whole), allPieces;
    }
  }

  lemma {:induction false} DeletedSnoc(deleted: seq<string>, path: string, base: Files)
    ensures DeletedPart(deleted + [path], base) == DeletedPart(deleted, base) + DeletedDiff(path, base)
  {
    hide DeletedDiff;
    if deleted == [] {
      assert [path][1..] == [];
      assert deleted + [path] == [path];
      assert DeletedDiff(path, base) + [] == DeletedDiff(path, base);
    } else {
      assert (deleted + [path])[1..] == deleted[1..] + [path];
      DeletedSnoc(deleted[1..], path, base);
    }
  }

  lemma {:induction false} ConcatMembers(pieces: seq<seq<EntityChange>>, x: EntityChange)
    ensures x in Concat(pieces) <==> exists i | 0 <= i < |pieces| :: x in pieces[i]
  {
    if pieces != [] { ConcatMembers(pieces[..|pieces| - 1], x); }
  }

  /** The entities of a file, by id; none if there is no file, or it does not parse. */
  function EntitiesOf(tools: Tools, path: string, files: Files): map<string, Entity> {
    if path in files && tools.parse(path, files[path]).Some? then TableOf(tools.parse(path, files[path]).value) else map[]
  }

  function BytesOf(path: string, files: Files): Bytes { if path in files then files[path] else [] }

  /** A change of an entity in a source file of the overlay. */
  predicate ChangedIn(x: EntityChange, base: Files, overlay: Files, tools: Tools) {
    x.file in overlay && |x.file| >= 3 && x.file[|x.file| - 3..] == ".rs" &&
    var was, now := EntitiesOf(tools, x.file, base), EntitiesOf(tools, x.file, overlay);
    || (x.id in now && x.id !in was && x ==
        EntityChange(x.id, now[x.id].qualifiedName, now[x.id].kind, x.file, NewEntity, Some(now[x.id].lines)))
    || (x.id in now && x.id in was
        && Span(was[x.id], BytesOf(x.file, base)) != Span(now[x.id], BytesOf(x.file, overlay)) && x ==
        EntityChange(x.id, now[x.id].qualifiedName, now[x.id].kind, x.file, ChangedEntity, Some(now[x.id].lines)))
    || (x.id !in now && x.id in was && x ==
        EntityChange(x.id, was[x.id].qualifiedName, was[x.id].kind, x.file, RemovedEntity, None))
  }

  /** The removal of an entity with its source file. */
  predicate RemovedIn(x: EntityChange, base: Files, deleted: seq<string>, tools: Tools) {
    && x.file in deleted && x.file in base && |x.file| >= 3 && x.file[|x.file| - 3..] == ".rs"
    && tools.parse(x.file, base[x.file]).Some?
    && exists e | e in tools.parse(x.file, base[x.file]).value ::
      x == EntityChange(e.id, e.qualifiedName, e.kind, x.file, RemovedEntity, None)
  }

  /** The entity changes of a whole diff: in the source files of the overlay, the entities that are
      new, that have other bytes, or that are gone; and all entities of the source files of the
      base that are listed as deleted. */
  lemma {:induction false} DiffEntities(part: seq<FileDiff>, diffs: seq<FileDiff>, pieces: seq<seq<EntityChange>>,
                                        base: Files, overlay: Files, deleted: seq<string>, tools: Tools, x: EntityChange)
    requires IsOverlayPart(part, base, overlay, tools) && diffs == part + DeletedPart(deleted, base)
    requires PiecesFit(pieces, diffs, base, overlay, tools)
    ensures x in Concat(pieces) <==> ChangedIn(x, base, overlay, tools) || RemovedIn(x, base, deleted, tools)
  {
    hide OverlayDiff, Span, IsRust, Concat;
    ConcatMembers(pieces, x);
    DeletedMembers(deleted, base);
    forall i | 0 <= i < |diffs|
      ensures i < |part| ==> (x in pieces[i] <==> x.file == diffs[i].path && ChangedIn(x, base, overlay, tools))
      ensures i >= |part| ==> (x in pieces[i] <==> x.file == diffs[i].path && RemovedIn(x, base, deleted, tools))
    {
      if i < |part| {
        assert diffs[i] == part[i] && part[i] in part;
        OverlayDiffPath(diffs[i].path, base, overlay[diffs[i].path], tools);
        OverlayPiece(pieces[i], diffs[i], base, overlay, tools, x);
      } else {
        assert diffs[i] in DeletedPart(deleted, base);
        DeletedPiece(pieces[i], diffs[i], base, overlay, deleted, tools, x);
      }
    }
    if ChangedIn(x, base, overlay, tools) {
      var d := OverlayDiff(x.file, base, overlay[x.file], tools);
      OverlayDiffPath(x.file, base, overlay[x.file], tools);
      assert d in part;
      var i :| 0 <= i < |part| && part[i] == d;
      assert diffs[i] == d;
    }
    if RemovedIn(x, base, deleted, tools) {
      var d := FileDiff(x.file, Deleted, 0, "");
      var i :| 0 <= i < |DeletedPart(deleted, base)| && DeletedPart(deleted, base)[i] == d;
      assert diffs[|part| + i] == d;
    }
  }

  lemma OverlayPiece(piece: seq<EntityChange>, d: FileDiff, base: Files, overlay: Files, tools: Tools, x: EntityChange)
    requires IsPiece(piece, d, base, overlay, tools) && !d.change.Deleted? && d.path in overlay
    ensures x in piece <==> x.file == d.path && ChangedIn(x, base, overlay, tools)
  {
    hide Span;
  }

  lemma DeletedPiece(piece: seq<EntityChange>, d: FileDiff, base: Files, overlay: Files, deleted: seq<string>,
                     tools: Tools, x: EntityChange)
    requires IsPiece(piece, d, base, overlay, tools) && d.change.Deleted? && d.path in deleted && d.path in base
    ensures x in piece <==> x.file == d.path && RemovedIn(x, base, deleted, tools)
  {
    if tools.parse(d.path, base[d.path]).Some? { RemovedAll(tools.parse(d.path, base[d.path]).value, d.path, x); }
  }

  lemma RemovedAll(es: seq<Entity>, path: string, x: EntityChange)
    ensures x in seq(|es|, i requires 0 <= i < |es| => ChangeOf(es[i], path, RemovedEntity)) <==>
      exists e | e in es :: x == EntityChange(e.id, e.qualifiedName, e.kind, path, RemovedEntity, None)
  {
    var piece := seq(|es|, i requires 0 <= i < |es| => ChangeOf(es[i], path, RemovedEntity));
    if e :| e in es && x == EntityChange(e.id, e.qualifiedName, e.kind, path, RemovedEntity, None) {
      var i :| 0 <= i < |es| && es[i] == e;
      assert piece[i] == x;
    }
  }

  lemma {:induction false} DeletedMembers(deleted: seq<string>, base: Files)
    ensures forall d :: d in DeletedPart(deleted, base) <==>
      d.path in deleted && d.path in base && d == FileDiff(d.path, Deleted, 0, "")
  {
    if deleted != [] {
      DeletedMembers(deleted[1..], base);
      assert forall y :: y in deleted <==> y == deleted[0] || y in deleted[1..];
    }
  }

  /** The modified files of a diff are exactly those that differ from the base if and only if no
      overlay file is the same as its base file. */
  lemma ModifiedExactly(part: seq<FileDiff>, base: Files, overlay: Files, tools: Tools)
    requires IsOverlayPart(part, base, overlay, tools)
    ensures (forall d | d in part :: d.change == Modified <==> d.path in base && base[d.path] != overlay[d.path]) <==>
      (forall x | x in overlay && x in base :: base[x] != overlay[x])
  {
    if x :| x in overlay && x in base && base[x] == overlay[x] {
      assert OverlayDiff(x, base, overlay[x], tools) in part;
    }
  }

  /** A diff has no entity changes unless it has file diffs, and then there is an overlay file or
      a deletion: a plan is empty exactly when there is nothing of either. */
  lemma EmptyDiff(part: seq<FileDiff>, diffs: seq<FileDiff>, pieces: seq<seq<EntityChange>>,
                  base: Files, overlay: Files, deleted: seq<string>, tools: Tools)
    requires IsOverlayPart(part, base, overlay, tools) && diffs == part + DeletedPart(deleted, base)
    requires PiecesFit(pieces, diffs, base, overlay, tools)
    ensures diffs != [] || Concat(pieces) != [] ==> overlay != map[] || deleted != []
  {
    if part != [] { assert part[0] in part; }
  }

  lemma {:induction false} DeletedPartChanges(deleted: seq<string>, base: Files)
    ensures forall d | d in DeletedPart(deleted, base) :: d.change == Deleted
  {
    if deleted != [] { DeletedPartChanges(deleted[1..], base); }
  }
}
