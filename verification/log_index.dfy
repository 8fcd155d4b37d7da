/**
 The index against the log: where the events of well-formed segments are, what
 a rebuild makes of them, and what queries return.
 */
module LogIndex {
  import opened Prelude
  import opened Ordering
  import opened SegmentNames
  import opened EventModel
  import opened LogLines
  import opened LogSpec

  // ── Well-formed segments ────────────────────────────────────────────────

  /** The segment files are exactly numbers 1 to n, and hold the lines of `segs`. */
  ghost predicate Stored(c: Codec, files: Dir, segs: seq<seq<Event>>) {
    && |segs| <= LAST_PADDED + 1
    && (forall k | 1 <= k <= |segs| ::
      SegName(k) in files && files[SegName(k)] == c.Bytes(segs[k - 1]) && segs[k - 1] != [])
    && (forall n | n in files && EndsWith(n, SUFFIX) :: exists k | 1 <= k <= |segs| :: n == SegName(k))
  }

  /** Only full segments are rotated away from, and every segment was below the bound
      before its last line; the millionth is never rotated away from. */
  ghost predicate Sized(c: Codec, segs: seq<seq<Event>>) {
    && (forall i | 0 <= i < |segs| - 1 :: |c.Bytes(segs[i])| >= MAX_SEGMENT_BYTES)
    && (forall i | 0 <= i < |segs| && i < LAST_PADDED && segs[i] != [] ::
      |c.Bytes(segs[i][..|segs[i]| - 1])| < MAX_SEGMENT_BYTES)
  }

  /** The number of the segment that the next line goes to. */
  function Target(c: Codec, segs: seq<seq<Event>>): nat {
    if segs == [] then 1
    else if |c.Bytes(segs[|segs| - 1])| < MAX_SEGMENT_BYTES || |segs| == LAST_PADDED + 1 then |segs|
    else |segs| + 1
  }

  function Place(c: Codec, segs: seq<seq<Event>>, e: Event): seq<seq<Event>> {
    if Target(c, segs) == |segs| && segs != []
    then segs[..|segs| - 1] + [segs[|segs| - 1] + [e]]
    else segs + [[e]]
  }

  function Flatten(segs: seq<seq<Event>>): seq<Event> {
    if segs == [] then [] else Flatten(segs[..|segs| - 1]) + segs[|segs| - 1]
  }

  /** The index rows of one segment, from byte `offset` on. */
  function RowsIn(c: Codec, name: string, es: seq<Event>, offset: nat): seq<Row> {
    if es == [] then []
    else [RowOf(es[0], name, offset)] + RowsIn(c, name, es[1..], offset + |c.LineOf(es[0])|)
  }

  function AllRows(c: Codec, segs: seq<seq<Event>>): seq<Row> {
    if segs == [] then []
    else AllRows(c, segs[..|segs| - 1]) + RowsIn(c, SegName(|segs|), segs[|segs| - 1], 0)
  }

  /** The segments read line by line in the order of their numbers, without any index. */
  function DecodeAll(c: Codec, lines: seq<Line>): seq<Event> {
    if lines == [] then []
    else (match c.decode(Stripped(lines[0])) case Some(e) => [e] case None => []) + DecodeAll(c, lines[1..])
  }

  function Replay(c: Codec, files: Dir, n: nat): seq<Event> {
    if n == 0 then []
    else Replay(c, files, n - 1) + (if SegName(n) in files then DecodeAll(c, Chunks(files[SegName(n)])) else [])
  }

  lemma {:induction false} DecodeLines(c: Codec, es: seq<Event>)
    requires c.Lawful()
    ensures DecodeAll(c, c.LinesOf(es)) == es
  {
    if es != [] {
      CleanLine(c, es[0]);
      DecodeLines(c, es[1..]);
    }
  }

  lemma {:induction false} ReplayIs(c: Codec, files: Dir, segs: seq<seq<Event>>, n: nat)
    requires c.Lawful() && Stored(c, files, segs) && n <= |segs|
    ensures Replay(c, files, n) == Flatten(segs[..n])
  {
    hide SegName, LogLines.Codec.Bytes, LogLines.Codec.LinesOf, EndsWith;
    if n > 0 {
      ReplayIs(c, files, segs, n - 1);
      assert segs[..n][..n - 1] == segs[..n - 1];
      ChunksOfBytes(c, segs[n - 1]);
      DecodeLines(c, segs[n - 1]);
    }
  }

  // ── Choosing the segment ────────────────────────────────────────────────

  lemma SegmentSet(c: Codec, files: Dir, segs: seq<seq<Event>>)
    requires Stored(c, files, segs)
    ensures forall x :: x in Segments(files) <==> exists k | 1 <= k <= |segs| :: x == SegName(k)
  {
  }

  lemma FirstName()
    ensures SegName(1) == "000001.events"
  {
  }

  lemma LastSegment(c: Codec, files: Dir, segs: seq<seq<Event>>)
    requires Stored(c, files, segs) && segs != []
    ensures var names := Sorted(Segments(files));
      names != [] && names[|names| - 1] == SegName(LastNumber(|segs|))
  {
    hide SegName, Leq, EndsWith, Segments, LogLines.Codec.Bytes;
    SegmentSet(c, files, segs);
    var names, n := Sorted(Segments(files)), |segs|;
    var top := LastNumber(n);
    assert SegName(top) in names;
    var i :| 0 <= i < |names| && names[i] == SegName(top);
    var last := names[|names| - 1];
    assert last in names;
    var k :| 1 <= k <= n && last == SegName(k);
    LastOfNames(k, n);
    if i < |names| - 1 { LeqAntisymmetric(last, SegName(top)); }
  }

  /** The string order of the names always leads to the newest segment or to a new one. */
  lemma CurrentIsNewest(c: Codec, files: Dir, segs: seq<seq<Event>>)
    requires Stored(c, files, segs) && Sized(c, segs)
    ensures CurrentName(files) == SegName(Target(c, segs))
  {
    hide SegName, ParseU32, TrimSuffix, Segments, LogLines.Codec.Bytes;
    if segs == [] {
      SegmentSet(c, files, segs);
      SortedEmpty(Segments(files));
      FirstName();
    } else {
      LastSegment(c, files, segs);
      var top := LastNumber(|segs|);
      assert SizeOf(files, SegName(top)) == |c.Bytes(segs[top - 1])|;
      ParseName(top);
    }
  }

  // ── Writing a line ──────────────────────────────────────────────────────

  lemma {:induction false} RowsInSnoc(c: Codec, name: string, es: seq<Event>, e: Event, offset: nat)
    ensures RowsIn(c, name, es + [e], offset)
         == RowsIn(c, name, es, offset) + [RowOf(e, name, offset + |c.Bytes(es)|)]
  {
    if es == [] {
      assert es + [e] == [e];
      assert RowsIn(c, name, [e][1..], offset + |c.LineOf(e)|) == [];
    } else {
      assert (es + [e])[1..] == es[1..] + [e];
      RowsInSnoc(c, name, es[1..], e, offset + |c.LineOf(es[0])|);
    }
  }

  lemma PlaceEvents(c: Codec, segs: seq<seq<Event>>, e: Event)
    ensures Flatten(Place(c, segs, e)) == Flatten(segs) + [e]
  {
  }

  lemma PlaceRows(c: Codec, segs: seq<seq<Event>>, e: Event)
    ensures var n := Target(c, segs);
      var offset := if n == |segs| && segs != [] then |c.Bytes(segs[n - 1])| else 0;
      AllRows(c, Place(c, segs, e)) == AllRows(c, segs) + [RowOf(e, SegName(n), offset)]
  {
    hide RowOf, SegName, LogLines.Codec.Bytes;
    var after, n := Place(c, segs, e), |segs|;
    if Target(c, segs) == n && segs != [] {
      assert after[..n - 1] == segs[..n - 1];
      RowsInSnoc(c, SegName(n), segs[n - 1], e, 0);
      assert AllRows(c, after) == AllRows(c, segs[..n - 1]) + RowsIn(c, SegName(n), segs[n - 1] + [e], 0);
    } else {
      assert after[..n] == segs;
      assert AllRows(c, after) == AllRows(c, segs) + RowsIn(c, SegName(n + 1), [e], 0);
      assert RowsIn(c, SegName(n + 1), [e][1..], 0 + |c.LineOf(e)|) == [];
    }
  }

  lemma PlaceSized(c: Codec, segs: seq<seq<Event>>, e: Event)
    requires Sized(c, segs) && |segs| <= LAST_PADDED + 1
    ensures Sized(c, Place(c, segs, e))
  {
  }

  /** The file that a line goes to holds the target segment, or does not exist yet. */
  lemma PlaceBytes(c: Codec, files: Dir, segs: seq<seq<Event>>, e: Event)
    requires Stored(c, files, segs)
    ensures var n := Target(c, segs);
      var name := SegName(n);
      && 1 <= n <= |Place(c, segs, e)| && n <= LAST_PADDED + 1
      && Grown(c, files, name, e)[name] == c.Bytes(Place(c, segs, e)[n - 1])
      && SizeOf(files, name) == (if n == |segs| && segs != [] then |c.Bytes(segs[n - 1])| else 0)
  {
    hide SegName, EndsWith;
    var n := Target(c, segs);
    NameIsSegment(n);
    if n == |segs| && segs != [] {
      BytesSnoc(c, segs[n - 1], e);
    } else {
      BytesSnoc(c, [], e);
      assert [] + [e] == [e];
      assert SegName(n) !in files by {
        if SegName(n) in files {
          var k :| 1 <= k <= |segs| && SegName(n) == SegName(k);
          NamesDistinct(k, n);
        }
      }
    }
  }

  lemma PlaceStored(c: Codec, files: Dir, segs: seq<seq<Event>>, e: Event)
    requires Stored(c, files, segs)
    ensures Stored(c, Grown(c, files, SegName(Target(c, segs)), e), Place(c, segs, e))
  {
    hide SegName, EndsWith, LogLines.Codec.Bytes, LogLines.Codec.LineOf;
    var n, after := Target(c, segs), Place(c, segs, e);
    PlaceBytes(c, files, segs, e);
    var name := SegName(n);
    var files' := Grown(c, files, name, e);
    assert |after| == n && files'.Keys == files.Keys + {name};
    assert forall m | m in files :: m != name ==> files'[m] == files[m];
    forall k | 1 <= k <= |after|
      ensures SegName(k) in files' && files'[SegName(k)] == c.Bytes(after[k - 1]) && after[k - 1] != []
    {
      NamesDistinct(k, n);
      if k != n { assert after[k - 1] == segs[k - 1]; }
    }
    forall m | m in files' && EndsWith(m, SUFFIX)
      ensures exists k | 1 <= k <= |after| :: m == SegName(k)
    {
      if m == name {
        assert m == SegName(n);
      } else {
        var k :| 1 <= k <= |segs| && m == SegName(k);
      }
    }
  }

  /** Writing a line keeps the segments well formed, numbered and bounded, and returns
      the position of the line's first byte. */
  lemma WriteKeeps(c: Codec, files: Dir, segs: seq<seq<Event>>, e: Event)
    requires c.Lawful() && Stored(c, files, segs) && Sized(c, segs)
    ensures var name := CurrentName(files);
      var after := Place(c, segs, e);
      && Stored(c, Grown(c, files, name, e), after) && Sized(c, after)
      && AllRows(c, after) == AllRows(c, segs) + [RowOf(e, name, SizeOf(files, name))]
      && Flatten(after) == Flatten(segs) + [e]
  {
    hide Sized, CurrentName, Grown, AllRows, Flatten, RowOf, SegName;
    CurrentIsNewest(c, files, segs);
    PlaceSized(c, segs, e);
    PlaceStored(c, files, segs, e);
    PlaceBytes(c, files, segs, e);
    PlaceRows(c, segs, e);
    PlaceEvents(c, segs, e);
  }

  // ── Queries ─────────────────────────────────────────────────────────────

  /** Row k points at event k and carries its columns. */
  ghost predicate Aligned(c: Codec, files: Dir, rows: seq<Row>, es: seq<Event>) {
    && |rows| == |es|
    && forall k | 0 <= k < |es| ::
      && rows[k] == RowOf(es[k], rows[k].segment, rows[k].offset)
      && ReadAt(c, files, rows[k].segment, rows[k].offset) == Ok(es[k])
  }

  lemma ReadLineAt(c: Codec, files: Dir, name: string, e: Event, offset: nat, rest: seq<byte>)
    requires c.Lawful() && name in files && offset <= |files[name]|
    requires files[name][offset..] == c.LineOf(e) + rest
    ensures ReadAt(c, files, name, offset) == Ok(e)
    ensures offset + |c.LineOf(e)| <= |files[name]|
    ensures files[name][offset + |c.LineOf(e)|..] == rest
  {
    hide LineEnd, ReadLine, TrimEnd;
    ReadEncoded(c, e, rest);
    CleanLine(c, e);
    var next := offset + |c.LineOf(e)|;
    assert files[name][next..] == files[name][offset..][|c.LineOf(e)|..];
  }

  lemma {:induction false} RowsInAligned(c: Codec, files: Dir, name: string, es: seq<Event>, offset: nat)
    requires c.Lawful() && name in files && offset <= |files[name]|
    requires files[name][offset..] == c.Bytes(es)
    ensures Aligned(c, files, RowsIn(c, name, es, offset), es)
  {
    hide ReadAt, SegName;
    if es != [] {
      var next := offset + |c.LineOf(es[0])|;
      ReadLineAt(c, files, name, es[0], offset, c.Bytes(es[1..]));
      RowsInAligned(c, files, name, es[1..], next);
    }
  }

  lemma {:induction false} AllRowsAligned(c: Codec, files: Dir, segs: seq<seq<Event>>, n: nat)
    requires c.Lawful() && Stored(c, files, segs) && n <= |segs|
    ensures Aligned(c, files, AllRows(c, segs[..n]), Flatten(segs[..n]))
  {
    hide SegName, LogLines.Codec.Bytes, ReadAt, RowsIn, EndsWith;
    if n > 0 {
      AllRowsAligned(c, files, segs, n - 1);
      assert segs[..n][..n - 1] == segs[..n - 1];
      RowsInAligned(c, files, SegName(n), segs[n - 1], 0);
    }
  }

  /** The events a query asks for, from a list of events. */
  function Matching(q: Query, es: seq<Event>): seq<Event> {
    if es == [] then []
    else if Wanted(q, es[0]) then [es[0]] + Matching(q, es[1..])
    else Matching(q, es[1..])
  }

  /** The filter keeps each event that is asked for as often as it is there, and no other. */
  lemma {:induction false} MatchingExactly(q: Query, es: seq<Event>, e: Event)
    ensures multiset(Matching(q, es))[e] == if Wanted(q, e) then multiset(es)[e] else 0
    ensures e in Matching(q, es) <==> e in es && Wanted(q, e)
  {
    hide Wanted;
    if es != [] {
      MatchingExactly(q, es[1..], e);
      assert es == [es[0]] + es[1..];
    }
  }

  lemma {:induction false} LoadSelected(c: Codec, files: Dir, rows: seq<Row>, es: seq<Event>, q: Query)
    requires Aligned(c, files, rows, es)
    ensures Load(c, files, Select(q, rows)) == Ok(Matching(q, es))
  {
    if es != [] {
      LoadSelected(c, files, rows[1..], es[1..], q);
    }
  }

  /** An index that lists the stored lines answers every query with the filter of a full
      replay of the segments. */
  lemma QueryIsFilteredReplay(c: Codec, files: Dir, segs: seq<seq<Event>>, q: Query)
    requires c.Lawful() && Stored(c, files, segs)
    ensures Answer(c, Log(files, AllRows(c, segs)), q) == Ok(Matching(q, Replay(c, files, |segs|)))
  {
    assert segs[..|segs|] == segs;
    AllRowsAligned(c, files, segs, |segs|);
    ReplayIs(c, files, segs, |segs|);
    LoadSelected(c, files, AllRows(c, segs), Flatten(segs), q);
  }

  // ── Rebuilding ──────────────────────────────────────────────────────────

  ghost predicate DistinctIds(es: seq<Event>) {
    forall i, j | 0 <= i < j < |es| :: es[i].id != es[j].id
  }

  predicate IdAmong(es: seq<Event>, id: nat) { exists e | e in es :: e.id == id }

  lemma DistinctHead(es: seq<Event>)
    requires es != []
    ensures DistinctIds(es) <==> DistinctIds(es[1..]) && !IdAmong(es[1..], es[0].id)
  {
  }

  lemma IdsOfPlaced(t: seq<Row>, r: Row, id: nat)
    requires Keyed(t) && !HasId(t, r.id)
    ensures HasId(Placed(t, r), id) <==> id == r.id || HasId(t, id)
  {
  }

  lemma ScanStep(c: Codec, name: string, es: seq<Event>, offset: nat, t: seq<Row>)
    requires c.Lawful() && es != []
    ensures var s := ScanLines(c, name, c.LinesOf(es), offset, t);
      s == if HasId(t, es[0].id) then Scan(t, false)
           else ScanLines(c, name, c.LinesOf(es[1..]), offset + |c.LineOf(es[0])|,
                          Placed(t, RowOf(es[0], name, offset)))
  {
    hide LogLines.Stripped, Blank, EventModel.EventKind.EventType, EventModel.EventKind.Workspace, EventModel.EventKind.Entity;
    CleanLine(c, es[0]);
  }

  /** Scanning one segment: which ids make it fail, and which rows it adds. */
  lemma {:induction false} ScanEncoded(c: Codec, name: string, es: seq<Event>, offset: nat, t: seq<Row>)
    requires c.Lawful() && Keyed(t)
    ensures var s := ScanLines(c, name, c.LinesOf(es), offset, t);
      && Keyed(s.rows)
      && (s.ok <==> DistinctIds(es) && forall e | e in es :: !HasId(t, e.id))
      && (s.ok ==> forall r :: r in s.rows <==> r in t || r in RowsIn(c, name, es, offset))
  {
    hide HasId, Keyed, DistinctIds, Placed, ScanLines, RowOf, LogLines.Codec.Lawful, LogLines.Codec.LinesOf;
    if es == [] {
      NoIds(c, name, offset, t);
    } else {
      var e, rest, row := es[0], es[1..], RowOf(es[0], name, offset);
      ScanStep(c, name, es, offset, t);
      DistinctHead(es);
      assert e in es;
      if !HasId(t, e.id) {
        assert row.id == e.id by { RowKey(e, name, offset); }
        PlacedKeyed(t, row);
        var t' := Placed(t, row);
        ScanEncoded(c, name, rest, offset + |c.LineOf(e)|, t');
        forall x { IdsOfPlaced(t, row, x); }
        assert forall x | x in es :: x == e || x in rest;
      }
    }
  }

  lemma NoIds(c: Codec, name: string, offset: nat, t: seq<Row>)
    ensures DistinctIds([]) && ScanLines(c, name, c.LinesOf([]), offset, t) == Scan(t, true)
  {
  }

  lemma {:induction false} RowIds(c: Codec, name: string, es: seq<Event>, offset: nat, id: nat)
    ensures HasId(RowsIn(c, name, es, offset), id) <==> IdAmong(es, id)
  {
    if es != [] {
      var next := offset + |c.LineOf(es[0])|;
      RowIds(c, name, es[1..], next, id);
      var rows := RowsIn(c, name, es, offset);
      assert rows[1..] == RowsIn(c, name, es[1..], next);
      assert forall r :: r in rows <==> r == rows[0] || r in rows[1..];
      assert forall e :: e in es <==> e == es[0] || e in es[1..];
      if IdAmong(es[1..], id) {
        var e :| e in es[1..] && e.id == id;
        assert e in es;
      }
      if HasId(rows[1..], id) {
        var r :| r in rows[1..] && r.id == id;
        assert r in rows;
      }
      if es[0].id == id { assert rows[0] in rows && rows[0].id == id && es[0] in es; }
    }
  }

  /** The segments `p[0]`, `p[1]`, … have no id twice, and none of the ids of `t`. */
  ghost predicate Fresh(segs: seq<seq<Event>>, p: seq<nat>, t: seq<Row>)
    requires forall k | 0 <= k < |p| :: p[k] < |segs|
  {
    && (forall k | 0 <= k < |p| :: DistinctIds(segs[p[k]]))
    && (forall k, l, e: Event | 0 <= k < l < |p| && e in segs[p[l]] :: !IdAmong(segs[p[k]], e.id))
    && (forall k, e | 0 <= k < |p| && e in segs[p[k]] :: !HasId(t, e.id))
  }

  lemma FreshStep(segs: seq<seq<Event>>, p: seq<nat>, t: seq<Row>, t': seq<Row>)
    requires p != [] && forall k | 0 <= k < |p| :: p[k] < |segs|
    requires forall id :: HasId(t', id) <==> HasId(t, id) || IdAmong(segs[p[0]], id)
    ensures Fresh(segs, p, t) <==>
      && DistinctIds(segs[p[0]]) && (forall e | e in segs[p[0]] :: !HasId(t, e.id))
      && Fresh(segs, p[1..], t')
  {
  }

  ghost predicate RowSomewhere(c: Codec, segs: seq<seq<Event>>, p: seq<nat>, r: Row)
    requires forall k | 0 <= k < |p| :: p[k] < |segs|
  {
    exists k | 0 <= k < |p| :: r in RowsIn(c, SegName(p[k] + 1), segs[p[k]], 0)
  }

  lemma RowSomewhereStep(c: Codec, segs: seq<seq<Event>>, p: seq<nat>, r: Row)
    requires p != [] && forall k | 0 <= k < |p| :: p[k] < |segs|
    ensures RowSomewhere(c, segs, p, r) <==>
      r in RowsIn(c, SegName(p[0] + 1), segs[p[0]], 0) || RowSomewhere(c, segs, p[1..], r)
  {
    hide RowsIn, SegName;
    var p' := p[1..];
    if RowSomewhere(c, segs, p, r) {
      var k :| 0 <= k < |p| && r in RowsIn(c, SegName(p[k] + 1), segs[p[k]], 0);
      if k > 0 { assert p'[k - 1] == p[k]; }
    }
    if RowSomewhere(c, segs, p', r) {
      var k :| 0 <= k < |p'| && r in RowsIn(c, SegName(p'[k] + 1), segs[p'[k]], 0);
      assert p[k + 1] == p'[k];
    }
  }

  ghost predicate Named(segs: seq<seq<Event>>, p: seq<nat>, names: seq<string>) {
    |names| == |p| && forall k | 0 <= k < |p| :: p[k] < |segs| && names[k] == SegName(p[k] + 1)
  }

  /** Scanning segments in any order whatever. */
  lemma {:induction false} ScanInOrder(c: Codec, files: Dir, segs: seq<seq<Event>>, p: seq<nat>,
                                       names: seq<string>, t: seq<Row>)
    requires c.Lawful() && Keyed(t) && Stored(c, files, segs) && Named(segs, p, names)
    requires forall n | n in names :: n in files
    ensures var s := ScanSegments(c, files, names, t);
      && Keyed(s.rows)
      && (s.ok <==> Fresh(segs, p, t))
      && (s.ok ==> forall r :: r in s.rows <==> r in t || RowSomewhere(c, segs, p, r))
  {
    hide HasId, IdAmong, DistinctIds, Keyed, Fresh, RowSomewhere, SegName, ScanLines, RowsIn, Chunks;
    if p == [] {
      assert Fresh(segs, p, t) && forall r :: !RowSomewhere(c, segs, p, r) by { NothingScanned(c, segs, t); }
    } else {
      var es, p', names' := segs[p[0]], p[1..], names[1..];
      assert names[0] in names && files[names[0]] == c.Bytes(es);
      ChunksOfBytes(c, es);
      ScanEncoded(c, names[0], es, 0, t);
      var s := ScanLines(c, names[0], c.LinesOf(es), 0, t);
      if s.ok {
        assert Named(segs, p', names') by {
          assert forall k | 0 <= k < |p'| :: p'[k] == p[k + 1] && names'[k] == names[k + 1];
        }
        ScanInOrder(c, files, segs, p', names', s.rows);
        forall id ensures HasId(s.rows, id) <==> HasId(t, id) || IdAmong(es, id) {
          RowIds(c, names[0], es, 0, id);
          IdsOfUnion(t, RowsIn(c, names[0], es, 0), s.rows, id);
        }
        FreshStep(segs, p, t, s.rows);
        forall r { RowSomewhereStep(c, segs, p, r); }
      } else {
        FreshNeeds(segs, p, t);
      }
    }
  }

  lemma NothingScanned(c: Codec, segs: seq<seq<Event>>, t: seq<Row>)
    ensures Fresh(segs, [], t) && forall r :: !RowSomewhere(c, segs, [], r)
  {
  }

  lemma FreshNeeds(segs: seq<seq<Event>>, p: seq<nat>, t: seq<Row>)
    requires p != [] && forall k | 0 <= k < |p| :: p[k] < |segs|
    ensures Fresh(segs, p, t) ==> DistinctIds(segs[p[0]]) && forall e | e in segs[p[0]] :: !HasId(t, e.id)
  {
  }

  lemma IdsOfUnion(s: seq<Row>, t: seq<Row>, u: seq<Row>, id: nat)
    requires forall r :: r in u <==> r in s || r in t
    ensures HasId(u, id) <==> HasId(s, id) || HasId(t, id)
  {
  }

  // ── All segments ────────────────────────────────────────────────────────

  lemma DistinctAppend(a: seq<Event>, b: seq<Event>)
    ensures DistinctIds(a + b) <==>
      DistinctIds(a) && DistinctIds(b) && forall e | e in b :: !IdAmong(a, e.id)
  {
    var s := a + b;
    if DistinctIds(s) {
      forall i, j | 0 <= i < j < |a| ensures a[i].id != a[j].id { assert a[i] == s[i] && a[j] == s[j]; }
      forall i, j | 0 <= i < j < |b| ensures b[i].id != b[j].id {
        assert b[i] == s[|a| + i] && b[j] == s[|a| + j];
      }
      forall e, f | e in b && f in a ensures f.id != e.id {
        var j :| 0 <= j < |b| && b[j] == e;
        var i :| 0 <= i < |a| && a[i] == f;
        assert s[i] == f && s[|a| + j] == e;
      }
    }
    if DistinctIds(a) && DistinctIds(b) && forall e | e in b :: !IdAmong(a, e.id) {
      forall i, j | 0 <= i < j < |s| ensures s[i].id != s[j].id {
        if j >= |a| {
          assert s[j] == b[j - |a|] && b[j - |a|] in b;
          if i < |a| { assert s[i] in a; } else { assert s[i] == b[i - |a|]; }
        }
      }
    }
  }

  lemma {:induction false} IdsOfFlatten(segs: seq<seq<Event>>, id: nat)
    ensures IdAmong(Flatten(segs), id) <==> exists i | 0 <= i < |segs| :: IdAmong(segs[i], id)
  {
    if segs == [] {
      assert !IdAmong([], id);
    } else {
      hide IdAmong;
      var init, last := segs[..|segs| - 1], segs[|segs| - 1];
      IdsOfFlatten(init, id);
      if exists i | 0 <= i < |init| :: IdAmong(init[i], id) {
        var i :| 0 <= i < |init| && IdAmong(init[i], id);
        assert IdAmong(segs[i], id);
      }
      if exists i | 0 <= i < |segs| :: IdAmong(segs[i], id) {
        var i :| 0 <= i < |segs| && IdAmong(segs[i], id);
        if i < |init| { assert IdAmong(init[i], id); }
      }
    }
  }

  /** No id occurs twice in the segments. */
  ghost predicate Spread(segs: seq<seq<Event>>) {
    && (forall i | 0 <= i < |segs| :: DistinctIds(segs[i]))
    && (forall i, j, e: Event | 0 <= i < j < |segs| && e in segs[j] :: !IdAmong(segs[i], e.id))
  }

  lemma {:induction false} SpreadIsDistinct(segs: seq<seq<Event>>)
    ensures DistinctIds(Flatten(segs)) <==> Spread(segs)
  {
    hide IdAmong;
    if segs != [] {
      var init, last := segs[..|segs| - 1], segs[|segs| - 1];
      SpreadIsDistinct(init);
      DistinctAppend(Flatten(init), last);
      forall e | e in last { IdsOfFlatten(init, e.id); }
      assert forall i | 0 <= i < |init| :: init[i] == segs[i];
      if Spread(segs) {
        forall i, j, e: Event | 0 <= i < j < |init| && e in init[j] ensures !IdAmong(init[i], e.id) {
          assert e in segs[j];
        }
      }
      if Spread(init) && DistinctIds(last) && forall e | e in last :: !IdAmong(Flatten(init), e.id) {
        forall i, j, e: Event | 0 <= i < j < |segs| && e in segs[j] ensures !IdAmong(segs[i], e.id) {
          if j < |init| { assert e in init[j]; }
          assert init[i] == segs[i];
        }
      }
    }
  }

  ghost predicate Permutes(p: seq<nat>, n: nat) {
    && NoDuplicates(p)
    && (forall k | 0 <= k < |p| :: p[k] < n)
    && (forall i: nat | i < n :: i in p)
  }

  lemma SpreadIsFresh(segs: seq<seq<Event>>, p: seq<nat>)
    requires Permutes(p, |segs|)
    ensures Fresh(segs, p, []) <==> Spread(segs)
  {
    hide DistinctIds;
    if Spread(segs) {
      forall k, l, e: Event | 0 <= k < l < |p| && e in segs[p[l]] ensures !IdAmong(segs[p[k]], e.id) {
        if p[l] < p[k] {
          forall f | f in segs[p[k]] ensures f.id != e.id { assert !IdAmong(segs[p[l]], f.id); }
        }
      }
    }
    if Fresh(segs, p, []) {
      forall i | 0 <= i < |segs| ensures DistinctIds(segs[i]) { assert i in p; }
      forall i, j, e: Event | 0 <= i < j < |segs| && e in segs[j] ensures !IdAmong(segs[i], e.id) {
        assert i in p && j in p;
        var k :| 0 <= k < |p| && p[k] == i;
        var l :| 0 <= l < |p| && p[l] == j;
        if l < k {
          forall f | f in segs[i] ensures f.id != e.id { assert !IdAmong(segs[p[l]], f.id); }
        }
      }
    }
  }

  lemma {:induction false} RowsEverywhere(c: Codec, segs: seq<seq<Event>>, n: nat, r: Row)
    requires n <= |segs|
    ensures r in AllRows(c, segs[..n]) <==> exists k | 1 <= k <= n :: r in RowsIn(c, SegName(k), segs[k - 1], 0)
  {
    hide SegName, RowsIn;
    if n > 0 {
      assert segs[..n][..n - 1] == segs[..n - 1];
      RowsEverywhere(c, segs, n - 1, r);
    }
  }

  lemma NamedPermutes(segs: seq<seq<Event>>, p: seq<nat>, names: seq<string>)
    requires |segs| <= LAST_PADDED + 1 && Named(segs, p, names) && NoDuplicates(names)
    requires forall k | 1 <= k <= |segs| :: SegName(k) in names
    ensures Permutes(p, |segs|)
  {
    hide SegName;
    forall i: nat | i < |segs| ensures i in p {
      assert SegName(i + 1) in names;
      var k :| 0 <= k < |names| && names[k] == SegName(i + 1);
      NamesDistinct(p[k] + 1, i + 1);
      assert p[k] == i;
    }
    forall i, j | 0 <= i < j < |p| ensures p[i] != p[j] { assert names[i] != names[j]; }
  }

  lemma {:induction false} NumbersOf(segs: seq<seq<Event>>, names: seq<string>) returns (p: seq<nat>)
    requires forall x | x in names :: exists k | 1 <= k <= |segs| :: x == SegName(k)
    ensures Named(segs, p, names)
  {
    hide SegName;
    if names == [] {
      p := [];
    } else {
      assert names[0] in names && forall x | x in names[1..] :: x in names;
      var k :| 1 <= k <= |segs| && names[0] == SegName(k);
      var rest := NumbersOf(segs, names[1..]);
      p := [k - 1] + rest;
    }
  }

  /** The sorted names are the names of a permutation of the segments. */
  lemma SortedNames(c: Codec, files: Dir, segs: seq<seq<Event>>) returns (p: seq<nat>)
    requires Stored(c, files, segs)
    ensures Permutes(p, |segs|) && Named(segs, p, Sorted(Segments(files)))
  {
    hide SegName, Segments, Leq, EndsWith;
    SegmentSet(c, files, segs);
    p := NumbersOf(segs, Sorted(Segments(files)));
    NamedPermutes(segs, p, Sorted(Segments(files)));
  }

  ghost predicate Increasing(es: seq<Event>) {
    forall i, j | 0 <= i < j < |es| :: es[i].id < es[j].id
  }

  /** A rebuild of well-formed segments succeeds exactly when no id is stored twice. */
  lemma RebuildSucceeds(c: Codec, files: Dir, segs: seq<seq<Event>>)
    requires c.Lawful() && Stored(c, files, segs)
    ensures forall n | n in Segments(files) :: n in files
    ensures Rebuilt(c, files).ok <==> DistinctIds(Flatten(segs))
    ensures Keyed(Rebuilt(c, files).rows)
    ensures Rebuilt(c, files).ok ==>
      forall r :: r in Rebuilt(c, files).rows <==> r in AllRows(c, segs)
  {
    hide SegName, EndsWith, DistinctIds, Fresh, Spread, RowsIn, HasId, Stored;
    var p := SortedNames(c, files, segs);
    var names := Sorted(Segments(files));
    ScanInOrder(c, files, segs, p, names, []);
    SpreadIsDistinct(segs);
    SpreadIsFresh(segs, p);
    assert segs[..|segs|] == segs;
    forall r ensures RowSomewhere(c, segs, p, r) <==> r in AllRows(c, segs) {
      RowsEverywhere(c, segs, |segs|, r);
      if r in AllRows(c, segs) {
        var i :| 1 <= i <= |segs| && r in RowsIn(c, SegName(i), segs[i - 1], 0);
        assert i - 1 in p;
        var k :| 0 <= k < |p| && p[k] == i - 1;
        assert r in RowsIn(c, SegName(p[k] + 1), segs[p[k]], 0);
      }
    }
  }

  lemma AllRowsKeyed(c: Codec, files: Dir, segs: seq<seq<Event>>)
    requires c.Lawful() && Stored(c, files, segs) && Increasing(Flatten(segs))
    ensures Keyed(AllRows(c, segs))
  {
    hide SegName, EndsWith, ReadAt, Stored;
    assert segs[..|segs|] == segs;
    AllRowsAligned(c, files, segs, |segs|);
  }

  /** Whatever the table held before, a rebuild of segments with increasing ids ends with
      exactly the rows that appending the events produced, even when the names of the
      segments do not sort in the order of their numbers. */
  lemma RebuildRestores(c: Codec, files: Dir, segs: seq<seq<Event>>)
    requires c.Lawful() && Stored(c, files, segs) && Increasing(Flatten(segs))
    ensures Rebuilt(c, files) == Scan(AllRows(c, segs), true)
  {
    hide SegName, EndsWith, Stored, Rebuilt, AllRows, Keyed;
    RebuildSucceeds(c, files, segs);
    AllRowsKeyed(c, files, segs);
    KeyedUnique(Rebuilt(c, files).rows, AllRows(c, segs));
  }
}
