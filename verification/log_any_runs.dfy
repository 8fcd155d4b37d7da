/**
 What holds of every life of an event log, careless ones and rebuilds that failed or
 died included: each row points at its own event, so queries succeed, and return
 what their rows list.
 */
module LogAnyRuns {
  import opened Prelude
  import opened Ordering
  import opened SegmentNames
  import opened EventModel
  import opened LogLines
  import opened LogSpec
  import opened LogIndex
  import opened LogRuns

  // ── Rows come from stored lines ─────────────────────────────────────────

  lemma {:induction false} PlacedRows(t: seq<Row>, r: Row)
    ensures forall x :: x in Placed(t, r) <==> x == r || x in t
  {
    if t != [] && !(r.id < t[0].id) {
      PlacedRows(t[1..], r);
      assert forall x :: x in t <==> x == t[0] || x in t[1..];
    }
  }

  lemma {:induction false} ScannedLines(c: Codec, name: string, es: seq<Event>, offset: nat, t: seq<Row>)
    requires c.Lawful()
    ensures forall r | r in ScanLines(c, name, c.LinesOf(es), offset, t).rows :: r in t || r in RowsIn(c, name, es, offset)
  {
    hide ScanLines, RowsIn, RowOf, LogLines.Codec.LinesOf, LogLines.Codec.LineOf, LogLines.Codec.Lawful, HasId, Placed;
    if es == [] {
      NothingIn(c, name, offset, t);
    } else {
      var row, next := RowOf(es[0], name, offset), offset + |c.LineOf(es[0])|;
      ScanStep(c, name, es, offset, t);
      FirstRow(c, name, es, offset);
      if !HasId(t, es[0].id) {
        PlacedRows(t, row);
        ScannedLines(c, name, es[1..], next, Placed(t, row));
      }
    }
  }

  lemma NothingIn(c: Codec, name: string, offset: nat, t: seq<Row>)
    ensures ScanLines(c, name, c.LinesOf([]), offset, t).rows == t
  {
  }

  lemma FirstRow(c: Codec, name: string, es: seq<Event>, offset: nat)
    requires es != []
    ensures forall r :: r in RowsIn(c, name, es, offset) <==>
      r == RowOf(es[0], name, offset) || r in RowsIn(c, name, es[1..], offset + |c.LineOf(es[0])|)
  {
  }

  lemma {:induction false} ScannedSegments(c: Codec, files: Dir, segs: seq<seq<Event>>, p: seq<nat>,
                                           names: seq<string>, t: seq<Row>)
    requires c.Lawful() && Stored(c, files, segs) && Named(segs, p, names)
    requires forall n | n in names :: n in files
    ensures forall r | r in ScanSegments(c, files, names, t).rows :: r in t || RowSomewhere(c, segs, p, r)
  {
    if p != [] {
      SegmentOf(c, files, segs, p, names);
      assert forall n | n in names[1..] :: n in names;
      hide *;
      hide Stored, Named, RowSomewhere;
      ScannedLines(c, names[0], segs[p[0]], 0, t);
      ScanFirst(c, files, names, t);
      forall r ensures RowSomewhere(c, segs, p, r) <==>
          r in RowsIn(c, SegName(p[0] + 1), segs[p[0]], 0) || RowSomewhere(c, segs, p[1..], r)
      {
        RowSomewhereStep(c, segs, p, r);
      }
      var s := ScanLines(c, names[0], Chunks(files[names[0]]), 0, t);
      if s.ok { ScannedSegments(c, files, segs, p[1..], names[1..], s.rows); }
    } else {
      hide Stored;
    }
  }

  lemma ScanFirst(c: Codec, files: Dir, names: seq<string>, t: seq<Row>)
    requires names != [] && forall n | n in names :: n in files
    ensures var s := ScanLines(c, names[0], Chunks(files[names[0]]), 0, t);
      ScanSegments(c, files, names, t) == if s.ok then ScanSegments(c, files, names[1..], s.rows) else s
  {
  }

  lemma SegmentOf(c: Codec, files: Dir, segs: seq<seq<Event>>, p: seq<nat>, names: seq<string>)
    requires c.Lawful() && Stored(c, files, segs) && Named(segs, p, names) && p != []
    ensures names != [] && p[0] < |segs| && names[0] == SegName(p[0] + 1) && names[0] in files
    ensures Chunks(files[names[0]]) == c.LinesOf(segs[p[0]])
    ensures Named(segs, p[1..], names[1..]) && forall k | 0 <= k < |p| :: p[k] < |segs|
  {
    hide SegName, Chunks, LogLines.Codec.LinesOf, LogLines.Codec.Bytes, EndsWith;
    var es := segs[p[0]];
    assert files[SegName(p[0] + 1)] == c.Bytes(segs[p[0] + 1 - 1]);
    ChunksOfBytes(c, es);
    assert forall k | 0 <= k < |p[1..]| :: p[1..][k] == p[k + 1] && names[1..][k] == names[k + 1];
  }

  /** A rebuild that fails has indexed stored lines only. */
  lemma {:induction false} RebuiltRows(c: Codec, files: Dir, segs: seq<seq<Event>>)
    requires c.Lawful() && Stored(c, files, segs)
    ensures Keyed(Rebuilt(c, files).rows)
    ensures forall r | r in Rebuilt(c, files).rows :: r in AllRows(c, segs)
  {
    hide SegName, EndsWith, RowsIn, Stored, Keyed;
    RebuildSucceeds(c, files, segs);
    var p := SortedNames(c, files, segs);
    var names := Sorted(Segments(files));
    ScannedSegments(c, files, segs, p, names, []);
    assert segs[..|segs|] == segs;
    forall r | RowSomewhere(c, segs, p, r) ensures r in AllRows(c, segs) {
      var k :| 0 <= k < |p| && r in RowsIn(c, SegName(p[k] + 1), segs[p[k]], 0);
      assert r in RowsIn(c, SegName(p[k] + 1), segs[p[k] + 1 - 1], 0);
      RowsEverywhere(c, segs, |segs|, r);
    }
  }

  lemma {:induction false} ListedKeyed(rows: seq<Row>, lost: set<nat>)
    requires Keyed(rows)
    ensures Keyed(Listed(rows, lost)) && forall r | r in Listed(rows, lost) :: r in rows
  {
    if rows != [] {
      ListedKeyed(rows[..|rows| - 1], lost);
      var before := Listed(rows[..|rows| - 1], lost);
      forall i | 0 <= i < |before| ensures before[i].id < rows[|rows| - 1].id { assert before[i] in before; }
    }
  }

  lemma KeyedBelowNext(rows: seq<Row>)
    requires Keyed(rows)
    ensures forall r | r in rows :: r.id < NextId(rows)
  {
  }

  /** In any run the rows are those of stored lines, in the order of their ids. */
  lemma {:induction false} RunRows(c: Codec, steps: seq<Step>)
    requires c.Lawful()
    ensures Keyed(Run(c, steps).rows)
    ensures forall r | r in Run(c, steps).rows :: r in AllRows(c, Written(c, steps))
  {
    hide CurrentName, SegName, AllRows, Flatten, Place, Grown, Stored, Listed, Rebuilt, RowOf, Keyed;
    if steps == [] {
      assert Keyed([]) by { NothingKeyed(); }
    } else {
      var before, step := steps[..|steps| - 1], steps[|steps| - 1];
      RunRows(c, before);
      RunStored(c, before);
      var log, segs := Run(c, before), Written(c, before);
      RebuiltRows(c, log.files, segs);
      match step
      case Rebuild =>
      case CutRebuild(lost) => ListedKeyed(Rebuilt(c, log.files).rows, lost);
      case CrashedAppend(_, _) => WrittenGrows(c, steps);
      case Append(kind, now) =>
        WrittenGrows(c, steps);
        AppendedLast(c, log, kind, now);
    }
  }

  lemma NothingKeyed()
    ensures Keyed([])
  {
  }

  /** The row of an append comes last. */
  lemma {:induction false} AppendedLast(c: Codec, log: Log, kind: EventKind, now: int)
    requires Keyed(log.rows)
    ensures var e, name := NewEvent(log.rows, kind, now), CurrentName(log.files);
      var row := RowOf(e, name, SizeOf(log.files, name));
      && row.id == e.id
      && Next(c, log, LogRuns.Append(kind, now)).rows == log.rows + [row] && Keyed(log.rows + [row])
      && NextId(log.rows + [row]) == NextId(log.rows) + 1
  {
    var e, name := NewEvent(log.rows, kind, now), CurrentName(log.files);
    var row := RowOf(e, name, SizeOf(log.files, name));
    RowKey(e, name, SizeOf(log.files, name));
    hide CurrentName, SizeOf, Grown, RowOf, Placed;
    KeyedBelowNext(log.rows);
    PlacedLast(log.rows, row);
  }

  // ── Queries ─────────────────────────────────────────────────────────────

  /** The events that rows point at. */
  function EventsAt(c: Codec, files: Dir, rows: seq<Row>): seq<Event> {
    if rows == [] then []
    else
      (match ReadAt(c, files, rows[0].segment, rows[0].offset) case Ok(e) => [e] case Err(_) => []) +
      EventsAt(c, files, rows[1..])
  }

  lemma {:induction false} AlignedEvents(c: Codec, files: Dir, rows: seq<Row>, es: seq<Event>)
    requires Aligned(c, files, rows, es)
    ensures EventsAt(c, files, rows) == es
  {
    hide ReadAt, RowOf;
    if es != [] {
      AlignedEvents(c, files, rows[1..], es[1..]);
      assert es == [es[0]] + es[1..];
    }
  }

  /** A row of a stored line reads as that line's event. */
  lemma {:induction false} RowReads(c: Codec, files: Dir, segs: seq<seq<Event>>, r: Row) returns (k: nat)
    requires c.Lawful() && Stored(c, files, segs) && r in AllRows(c, segs)
    ensures k < |AllRows(c, segs)| == |Flatten(segs)| && AllRows(c, segs)[k] == r
    ensures r == RowOf(Flatten(segs)[k], r.segment, r.offset)
    ensures ReadAt(c, files, r.segment, r.offset) == Ok(Flatten(segs)[k])
  {
    hide Stored, AllRows, Flatten, ReadAt, RowOf;
    assert segs[..|segs|] == segs;
    AllRowsAligned(c, files, segs, |segs|);
    k :| 0 <= k < |AllRows(c, segs)| && AllRows(c, segs)[k] == r;
  }

  lemma {:induction false} RowsAlign(c: Codec, files: Dir, segs: seq<seq<Event>>, rows: seq<Row>)
    requires c.Lawful() && Stored(c, files, segs) && forall r | r in rows :: r in AllRows(c, segs)
    ensures Aligned(c, files, rows, EventsAt(c, files, rows))
    ensures forall e | e in EventsAt(c, files, rows) :: e in Flatten(segs)
  {
    hide Stored, AllRows, Flatten, ReadAt, RowOf;
    if rows != [] {
      assert rows[0] in rows && forall r | r in rows[1..] :: r in rows;
      RowsAlign(c, files, segs, rows[1..]);
      var k := RowReads(c, files, segs, rows[0]);
    }
  }

  /** After any run whatever, every query succeeds and returns, in id order, the filter of the
      events that the rows of the table list, each of which is stored. */
  lemma {:induction false} AnyRunAnswers(c: Codec, steps: seq<Step>, q: Query)
    requires c.Lawful()
    ensures var log := Run(c, steps);
      var listed := EventsAt(c, log.files, log.rows);
      && Aligned(c, log.files, log.rows, listed) && Keyed(log.rows)
      && (forall e | e in listed :: e in Flatten(Written(c, steps)))
      && Answer(c, log, q) == Ok(Matching(q, listed))
  {
    hide Stored, AllRows, Flatten, Written, Run, Load, Select, Matching, ReadAt, RowOf, EventsAt, Keyed, Aligned;
    var log := Run(c, steps);
    RunStored(c, steps);
    RunRows(c, steps);
    RowsAlign(c, log.files, Written(c, steps), log.rows);
    LoadSelected(c, log.files, log.rows, EventsAt(c, log.files, log.rows), q);
  }

  /** After any run whatever, a query finds exactly those events that the rows of the table list
      and that are asked for, each once, in the order of their ids: a query by type those of that
      kind, and a query by workspace or entity those of the kinds that have one. */
  lemma {:induction false} QueriesFind(c: Codec, steps: seq<Step>, q: Query)
    requires c.Lawful()
    ensures var log := Run(c, steps);
      var listed, r := EventsAt(c, log.files, log.rows), Answer(c, log, q);
      && r.Ok? && (forall i, j | 0 <= i < j < |r.value| :: r.value[i].id < r.value[j].id)
      && (forall e :: e in r.value <==> e in listed && Wanted(q, e))
      && (q == ByType("MergeCompleted") ==> forall e :: e in r.value <==> e in listed && e.kind.MergeCompleted?)
  {
    hide *;
    hide EventsAt, Run, Answer, Matching, Wanted;
    var log := Run(c, steps);
    var listed := EventsAt(c, log.files, log.rows);
    AnyRunAnswers(c, steps, q);
    ListedIncreasing(c, log.files, log.rows, listed);
    MatchingIncreasing(q, listed);
    IncreasingIds(Matching(q, listed));
    MatchingMembers(q, listed);
    forall e: Event { TypesByName(e); }
  }

  lemma IncreasingIds(es: seq<Event>)
    requires Increasing(es)
    ensures forall i, j | 0 <= i < j < |es| :: es[i].id < es[j].id
  {
  }

  lemma {:induction false} MatchingMembers(q: Query, es: seq<Event>)
    ensures forall e :: e in Matching(q, es) <==> e in es && Wanted(q, e)
  {
    hide Matching, Wanted;
    forall e { MatchingExactly(q, es, e); }
  }

  lemma {:induction false} ListedIncreasing(c: Codec, files: Dir, rows: seq<Row>, es: seq<Event>)
    requires Aligned(c, files, rows, es) && Keyed(rows)
    ensures Increasing(es)
  {
    hide ReadAt;
  }

  lemma {:induction false} MatchingIncreasing(q: Query, es: seq<Event>)
    requires Increasing(es)
    ensures Increasing(Matching(q, es))
  {
    hide Wanted;
    if es != [] {
      MatchingIncreasing(q, es[1..]);
      forall e | e in Matching(q, es[1..]) ensures es[0].id < e.id {
        MatchingExactly(q, es[1..], e);
        var i :| 1 <= i < |es| && es[i] == e;
      }
    }
  }

  /** Rows that point at stored lines read the same after another line is stored. */
  lemma {:induction false} SameEvents(c: Codec, files: Dir, segs: seq<seq<Event>>, files': Dir, segs': seq<seq<Event>>,
                                      row: Row, e: Event, rows: seq<Row>)
    requires c.Lawful() && Stored(c, files, segs) && Stored(c, files', segs')
    requires AllRows(c, segs') == AllRows(c, segs) + [row] && Flatten(segs') == Flatten(segs) + [e]
    requires forall r | r in rows :: r in AllRows(c, segs)
    ensures EventsAt(c, files', rows) == EventsAt(c, files, rows)
    ensures ReadAt(c, files', row.segment, row.offset) == Ok(e)
  {
    hide Stored, AllRows, Flatten, ReadAt, RowOf;
    assert segs[..|segs|] == segs && segs'[..|segs'|] == segs';
    AllRowsAligned(c, files, segs, |segs|);
    AllRowsAligned(c, files', segs', |segs'|);
    var n := |AllRows(c, segs)|;
    assert AllRows(c, segs')[n] == row && Flatten(segs')[n] == e;
    if rows != [] {
      assert rows[0] in rows && forall r | r in rows[1..] :: r in rows;
      var k := RowReads(c, files, segs, rows[0]);
      assert AllRows(c, segs')[k] == rows[0] && Flatten(segs')[k] == Flatten(segs)[k];
      SameEvents(c, files, segs, files', segs', row, e, rows[1..]);
    }
  }

  lemma {:induction false} EventsAtSnoc(c: Codec, files: Dir, rows: seq<Row>, row: Row)
    ensures EventsAt(c, files, rows + [row]) == EventsAt(c, files, rows) + EventsAt(c, files, [row])
  {
    hide ReadAt;
    if rows == [] {
      assert rows + [row] == [row];
    } else {
      assert (rows + [row])[1..] == rows[1..] + [row];
      EventsAtSnoc(c, files, rows[1..], row);
    }
  }

  /** In any run, an append adds its event to what the rows list, and one that crashes nothing. */
  lemma {:induction false} StepLists(c: Codec, steps: seq<Step>, step: Step)
    requires c.Lawful() && Appends(step)
    ensures var log, after := Run(c, steps), Run(c, steps + [step]);
      && EventsAt(c, after.files, after.rows) ==
         EventsAt(c, log.files, log.rows) + (if step.Append? then [NewEvent(log.rows, step.kind, step.now)] else [])
      && NextId(after.rows) == NextId(log.rows) + (if step.Append? then 1 else 0)
  {
    hide CurrentName, SegName, AllRows, Flatten, Place, Grown, Stored, RowOf, Keyed, EventsAt, Placed, NextId, SizeOf;
    var longer := steps + [step];
    assert longer[..|steps|] == steps;
    var log, after := Run(c, steps), Run(c, longer);
    RunStored(c, steps);
    RunStored(c, longer);
    RunRows(c, steps);
    WrittenGrows(c, longer);
    var e, name := NewEvent(log.rows, step.kind, step.now), CurrentName(log.files);
    var row := RowOf(e, name, SizeOf(log.files, name));
    SameEvents(c, log.files, Written(c, steps), after.files, Written(c, longer), row, e, log.rows);
    if step.Append? {
      AppendedLast(c, log, step.kind, step.now);
      EventsAtSnoc(c, after.files, log.rows, row);
      OneEvent(c, after.files, row, e);
    }
  }

  lemma {:induction false} OneEvent(c: Codec, files: Dir, row: Row, e: Event)
    requires ReadAt(c, files, row.segment, row.offset) == Ok(e)
    ensures EventsAt(c, files, [row]) == [e]
  {
    assert [row][1..] == [];
  }

  /** In a healthy log the rows list all recorded events. */
  lemma {:induction false} HealthyLists(c: Codec, steps: seq<Step>)
    requires c.Lawful() && Careful(steps) && Missing(steps) == {}
    ensures var log := Run(c, steps);
      EventsAt(c, log.files, log.rows) == Recorded(steps) && NextId(log.rows) == |Recorded(steps)| + 1
  {
    hide Stored, AllRows, Flatten, Listed, ReadAt, RowOf, NextId, Run, Written, Recorded, Careful, Missing;
    var log, segs := Run(c, steps), Written(c, steps);
    RunStored(c, steps);
    CarefulRun(c, steps);
    RecordedIds(steps);
    RowIdsOfSegments(c, log.files, segs);
    ListedSame(AllRows(c, segs), {}, {});
    ListedNextId(AllRows(c, segs), {});
    assert segs[..|segs|] == segs;
    AllRowsAligned(c, log.files, segs, |segs|);
    AlignedEvents(c, log.files, log.rows, Recorded(steps));
  }
}
