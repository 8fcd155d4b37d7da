/**
 Whole lives of an event log: any number of appends, appends that crash between
 the segment write and the index insert, rebuilds, and rebuilds that die before
 their table is complete, in any order.
 */
module LogRuns {
  import opened Prelude
  import opened SegmentNames
  import opened EventModel
  import opened LogLines
  import opened LogSpec
  import opened LogIndex

  datatype Step =
    | Append(kind: EventKind, now: int)
    | CrashedAppend(kind: EventKind, now: int)
    | Rebuild
    | CutRebuild(lost: set<nat>)

  function NewEvent(rows: seq<Row>, kind: EventKind, now: int): Event {
    Event(NextId(rows), now, kind)
  }

  ghost function Next(c: Codec, log: Log, step: Step): Log {
    match step
    case Append(kind, now) =>
      var e, name := NewEvent(log.rows, kind, now), CurrentName(log.files);
      Log(Grown(c, log.files, name, e), Placed(log.rows, RowOf(e, name, SizeOf(log.files, name))))
    case CrashedAppend(kind, now) =>
      var e, name := NewEvent(log.rows, kind, now), CurrentName(log.files);
      Log(Grown(c, log.files, name, e), log.rows)
    case Rebuild =>
      Log(log.files, Rebuilt(c, log.files).rows)
    case CutRebuild(lost) =>
      Log(log.files, Listed(Rebuilt(c, log.files).rows, lost))
  }

  /** The table is emptied and filled again row by row, so a rebuild that dies leaves some of
      the rows of a complete one: those whose ids are not lost. */
  function Listed(rows: seq<Row>, lost: set<nat>): seq<Row> {
    if rows == [] then []
    else
      var last := rows[|rows| - 1];
      Listed(rows[..|rows| - 1], lost) + (if last.id in lost then [] else [last])
  }

  /** The same for events. */
  function Kept(es: seq<Event>, lost: set<nat>): seq<Event> {
    if es == [] then []
    else
      var last := es[|es| - 1];
      Kept(es[..|es| - 1], lost) + (if last.id in lost then [] else [last])
  }

  ghost function Run(c: Codec, steps: seq<Step>): Log {
    if steps == [] then Log(map[], [])
    else Next(c, Run(c, steps[..|steps| - 1]), steps[|steps| - 1])
  }

  /** The events that the segments of a run hold. */
  ghost function Written(c: Codec, steps: seq<Step>): seq<seq<Event>> {
    if steps == [] then []
    else
      var before, step := steps[..|steps| - 1], steps[|steps| - 1];
      if !Appends(step) then Written(c, before)
      else Place(c, Written(c, before), NewEvent(Run(c, before).rows, step.kind, step.now))
  }

  predicate Appends(step: Step) { step.Append? || step.CrashedAppend? }

  /** The ids of stored events that the table does not list. */
  function Missing(steps: seq<Step>): set<nat> {
    if steps == [] then {}
    else
      var before := steps[..|steps| - 1];
      match steps[|steps| - 1]
      case Append(_, _) => Missing(before)
      case CrashedAppend(_, _) => Missing(before) + {|Recorded(before)| + 1}
      case Rebuild => {}
      case CutRebuild(lost) => set i | i in lost && 1 <= i <= |Recorded(before)|
  }

  /** The table does not list the last stored event. */
  predicate Interrupted(steps: seq<Step>) { |Recorded(steps)| in Missing(steps) }

  /** Nothing is appended while the last stored event is missing from the table. */
  predicate Careful(steps: seq<Step>) {
    steps == [] ||
    var before := steps[..|steps| - 1];
    Careful(before) && (Appends(steps[|steps| - 1]) ==> !Interrupted(before))
  }

  /** Every event of a run, crashed appends included, numbered from 1. */
  function Recorded(steps: seq<Step>): seq<Event> {
    if steps == [] then []
    else
      var before, step := Recorded(steps[..|steps| - 1]), steps[|steps| - 1];
      if !Appends(step) then before else before + [Event(|before| + 1, step.now, step.kind)]
  }

  lemma RecordedIds(steps: seq<Step>)
    ensures forall k | 0 <= k < |Recorded(steps)| :: Recorded(steps)[k].id == k + 1
  {
  }

  lemma {:induction false} MissingIds(steps: seq<Step>)
    ensures forall i | i in Missing(steps) :: 1 <= i <= |Recorded(steps)|
  {
    if steps != [] { MissingIds(steps[..|steps| - 1]); }
  }

  // ── The segments of any run ─────────────────────────────────────────────

  /** Whatever the index held, the segments stay numbered from 1, and only full ones are
      left behind. */
  lemma {:induction false} RunStored(c: Codec, steps: seq<Step>)
    requires c.Lawful()
    ensures Stored(c, Run(c, steps).files, Written(c, steps)) && Sized(c, Written(c, steps))
  {
    hide CurrentName, SegName, AllRows, Flatten, Place, Grown;
    if steps != [] {
      var before, step := steps[..|steps| - 1], steps[|steps| - 1];
      RunStored(c, before);
      if Appends(step) {
        WriteKeeps(c, Run(c, before).files, Written(c, before), NewEvent(Run(c, before).rows, step.kind, step.now));
      }
    }
  }

  lemma WrittenGrows(c: Codec, steps: seq<Step>)
    requires c.Lawful() && steps != [] && Appends(steps[|steps| - 1])
    ensures var before, step := steps[..|steps| - 1], steps[|steps| - 1];
      var log := Run(c, before);
      var e, name := NewEvent(log.rows, step.kind, step.now), CurrentName(log.files);
      && Flatten(Written(c, steps)) == Flatten(Written(c, before)) + [e]
      && AllRows(c, Written(c, steps))
         == AllRows(c, Written(c, before)) + [RowOf(e, name, SizeOf(log.files, name))]
  {
    hide CurrentName, SegName, AllRows, Flatten, Place, Grown, RowOf;
    var before, step := steps[..|steps| - 1], steps[|steps| - 1];
    RunStored(c, before);
    WriteKeeps(c, Run(c, before).files, Written(c, before), NewEvent(Run(c, before).rows, step.kind, step.now));
  }

  function LastOf(es: seq<Event>): Event
    requires es != []
  {
    es[|es| - 1]
  }

  /** In any run, the segment chosen next is the newest or the one after it; every segment
      but the newest holds at least the bound, and every segment up to number 999999
      exceeds the bound by less than its own last line. */
  lemma {:induction false} SegmentSizes(c: Codec, steps: seq<Step>)
    requires c.Lawful()
    ensures var files, segs := Run(c, steps).files, Written(c, steps);
      && |segs| <= LAST_PADDED + 1
      && CurrentName(files) == SegName(Target(c, segs))
      && |segs| <= Target(c, segs) <= |segs| + 1
      && (forall k | 1 <= k < |segs| :: SizeOf(files, SegName(k)) >= MAX_SEGMENT_BYTES)
      && (forall i | 0 <= i < |segs| :: segs[i] != [] && (i < LAST_PADDED ==>
        SizeOf(files, SegName(i + 1)) < MAX_SEGMENT_BYTES + |c.LineOf(LastOf(segs[i]))|))
  {
    hide CurrentName, SegName, EndsWith, Run, Written, LogLines.Codec.Bytes, LogLines.Codec.LineOf;
    var files, segs := Run(c, steps).files, Written(c, steps);
    RunStored(c, steps);
    CurrentIsNewest(c, files, segs);
    forall k | 1 <= k < |segs| ensures SizeOf(files, SegName(k)) >= MAX_SEGMENT_BYTES {
      assert |c.Bytes(segs[k - 1])| >= MAX_SEGMENT_BYTES;
    }
    forall i | 0 <= i < |segs|
      ensures segs[i] != [] && (i < LAST_PADDED ==>
        SizeOf(files, SegName(i + 1)) < MAX_SEGMENT_BYTES + |c.LineOf(LastOf(segs[i]))|)
    {
      assert SegName(i + 1) in files;
      var es := segs[i];
      assert es == es[..|es| - 1] + [LastOf(es)];
      BytesSnoc(c, es[..|es| - 1], LastOf(es));
    }
  }

  // ── Careful runs ────────────────────────────────────────────────────────

  lemma {:induction false} ListedAligned(c: Codec, files: Dir, rows: seq<Row>, es: seq<Event>, lost: set<nat>)
    requires Aligned(c, files, rows, es)
    ensures Aligned(c, files, Listed(rows, lost), Kept(es, lost))
  {
    hide ReadAt, RowOf;
    if es != [] {
      var n := |es| - 1;
      assert rows[n].id == es[n].id by { RowHasId(c, files, rows, es, n); }
      ListedAligned(c, files, rows[..n], es[..n], lost);
    }
  }

  lemma RowHasId(c: Codec, files: Dir, rows: seq<Row>, es: seq<Event>, k: nat)
    requires Aligned(c, files, rows, es) && k < |es|
    ensures rows[k].id == es[k].id
  {
    hide ReadAt;
  }

  lemma ListedMore(rows: seq<Row>, row: Row, lost: set<nat>)
    ensures Listed(rows + [row], lost) == Listed(rows, lost) + if row.id in lost then [] else [row]
  {
    assert (rows + [row])[..|rows|] == rows;
  }

  /** Losing ids that no row has changes nothing. */
  lemma {:induction false} ListedSame(rows: seq<Row>, lost: set<nat>, lost': set<nat>)
    requires forall r | r in rows :: r.id in lost <==> r.id in lost'
    ensures Listed(rows, lost) == Listed(rows, lost')
    ensures lost == {} ==> Listed(rows, lost) == rows
    ensures forall r | r in Listed(rows, lost) :: r in rows
  {
    if rows != [] { ListedSame(rows[..|rows| - 1], lost, lost'); }
  }

  /** The largest id of a table with rows 1 to n of which some are lost: n when row n is not
      lost, and less otherwise. */
  lemma {:induction false} ListedNextId(rows: seq<Row>, lost: set<nat>)
    requires forall k | 0 <= k < |rows| :: rows[k].id == k + 1
    ensures 1 <= NextId(Listed(rows, lost)) <= |rows| + 1
    ensures NextId(Listed(rows, lost)) == |rows| + 1 <==> |rows| !in lost || rows == []
  {
    if rows != [] { ListedNextId(rows[..|rows| - 1], lost); }
  }

  lemma {:induction false} ListedIds(rows: seq<Row>, lost: set<nat>)
    ensures forall r :: r in Listed(rows, lost) <==> r in rows && r.id !in lost
  {
    if rows != [] { ListedIds(rows[..|rows| - 1], lost); }
  }

  /** In a careful run the segments hold every event once, under ids 1, 2, …, and the
      table lists them in that order but for the missing ones. */
  lemma {:induction false} CarefulRun(c: Codec, steps: seq<Step>)
    requires c.Lawful() && Careful(steps)
    ensures Flatten(Written(c, steps)) == Recorded(steps)
    ensures |AllRows(c, Written(c, steps))| == |Recorded(steps)|
    ensures Run(c, steps).rows == Listed(AllRows(c, Written(c, steps)), Missing(steps))
  {
    hide CurrentName, SegName, Place, Grown, Stored, AllRows, Flatten, RowOf, Listed, Rebuilt, LogLines.Codec.Lawful;
    if steps == [] {
      assert AllRows(c, []) == [] && Flatten([]) == [] by { NoSegments(c); }
      ListedSame([], {}, {});
    } else {
      var before, step := steps[..|steps| - 1], steps[|steps| - 1];
      CarefulRun(c, before);
      RunStored(c, before);
      RecordedIds(before);
      MissingIds(before);
      var log, segs := Run(c, before), Written(c, before);
      var rows := AllRows(c, segs);
      RowIdsOfSegments(c, log.files, segs);
      match step
      case Rebuild =>
        RestoredRows(c, log.files, segs);
        ListedSame(rows, {}, {});
      case CutRebuild(lost) =>
        RestoredRows(c, log.files, segs);
        CutIds(rows, lost, Missing(steps));
      case _ =>
        WrittenGrows(c, steps);
        ListedNextId(rows, Missing(before));
        AppendedRow(c, log, rows, Missing(before), step);
    }
  }

  lemma RestoredRows(c: Codec, files: Dir, segs: seq<seq<Event>>)
    requires c.Lawful() && Stored(c, files, segs)
    requires forall k | 0 <= k < |Flatten(segs)| :: Flatten(segs)[k].id == k + 1
    ensures Rebuilt(c, files).rows == AllRows(c, segs) && Rebuilt(c, files).ok
  {
    hide *;
    assert Increasing(Flatten(segs)) by { IdsIncrease(Flatten(segs)); }
    RebuildRestores(c, files, segs);
  }

  lemma IdsIncrease(es: seq<Event>)
    requires forall k | 0 <= k < |es| :: es[k].id == k + 1
    ensures Increasing(es)
  {
  }

  lemma CutIds(rows: seq<Row>, lost: set<nat>, missing: set<nat>)
    requires forall k | 0 <= k < |rows| :: rows[k].id == k + 1
    requires missing == set i | i in lost && 1 <= i <= |rows|
    ensures Listed(rows, lost) == Listed(rows, missing)
  {
    hide Listed;
    ListedSame(rows, lost, missing);
  }

  /** The row of an append, or of one that crashed, in a table that misses some rows. */
  lemma AppendedRow(c: Codec, log: Log, rows: seq<Row>, lost: set<nat>, step: Step)
    requires Appends(step) && log.rows == Listed(rows, lost)
    requires forall k | 0 <= k < |rows| :: rows[k].id == k + 1
    requires forall i | i in lost :: 1 <= i <= |rows|
    requires NextId(log.rows) == |rows| + 1
    ensures var e, name := NewEvent(log.rows, step.kind, step.now), CurrentName(log.files);
      var row := RowOf(e, name, SizeOf(log.files, name));
      && Next(c, log, step).rows == Listed(rows + [row], if step.Append? then lost else lost + {|rows| + 1})
      && e.id == |rows| + 1
  {
    hide CurrentName, Grown, SizeOf, Listed, EventModel.EventKind.EventType, EventModel.EventKind.Workspace,
      EventModel.EventKind.Entity, Placed;
    var e, name := NewEvent(log.rows, step.kind, step.now), CurrentName(log.files);
    var row := RowOf(e, name, SizeOf(log.files, name));
    ListedSame(rows, lost, lost + {|rows| + 1});
    ListedMore(rows, row, lost);
    ListedMore(rows, row, lost + {|rows| + 1});
    PlacedLast(log.rows, row);
  }

  lemma NoSegments(c: Codec)
    ensures AllRows(c, []) == [] && Flatten([]) == []
  {
  }

  lemma RowIdsOfSegments(c: Codec, files: Dir, segs: seq<seq<Event>>)
    requires c.Lawful() && Stored(c, files, segs)
    ensures |AllRows(c, segs)| == |Flatten(segs)|
    ensures forall k | 0 <= k < |Flatten(segs)| :: AllRows(c, segs)[k].id == Flatten(segs)[k].id
  {
    hide ReadAt, SegName, Stored;
    assert segs[..|segs|] == segs;
    AllRowsAligned(c, files, segs, |segs|);
  }

  /** An append while the last stored event is missing from the table stores an id for the
      second time. */
  lemma {:induction false} CarelessRun(c: Codec, steps: seq<Step>)
    requires c.Lawful() && !Careful(steps)
    ensures !DistinctIds(Flatten(Written(c, steps)))
  {
    hide CurrentName, SegName, Place, Grown, Stored, AllRows, Flatten, Listed, Rebuilt, LogLines.Codec.Lawful;
    var before, step := steps[..|steps| - 1], steps[|steps| - 1];
    if Appends(step) { WrittenGrows(c, steps); }
    var older, newer := Flatten(Written(c, before)), Flatten(Written(c, steps));
    if !Careful(before) {
      CarelessRun(c, before);
      if Appends(step) { DistinctAppend(older, newer[|older|..]); }
    } else {
      CarefulRun(c, before);
      RecordedIds(before);
      MissingIds(before);
      RunStored(c, before);
      RowIdsOfSegments(c, Run(c, before).files, Written(c, before));
      var rows := AllRows(c, Written(c, before));
      ListedNextId(rows, Missing(before));
      var id := NextId(Run(c, before).rows);
      assert newer[|older|].id == id == newer[id - 1].id;
    }
  }

  /** A rebuild after any run succeeds exactly when the run never appended while the last stored
      event was missing from the table, after a crash or a rebuild that died. */
  lemma {:induction false} RecoveryExact(c: Codec, steps: seq<Step>)
    requires c.Lawful()
    ensures Rebuilt(c, Run(c, steps).files).ok <==> Careful(steps)
  {
    hide Stored, Rebuilt, Flatten, Written;
    RunStored(c, steps);
    RebuildSucceeds(c, Run(c, steps).files, Written(c, steps));
    if Careful(steps) {
      CarefulRun(c, steps);
      RecordedIds(steps);
    } else {
      CarelessRun(c, steps);
    }
  }

  /** After a careful run, every query sees every recorded event that it asks for, in id
      order, except those missing from the table; the next rebuild brings them back. */
  lemma {:induction false} QueriesAfterRun(c: Codec, steps: seq<Step>, q: Query)
    requires c.Lawful() && Careful(steps)
    ensures Answer(c, Run(c, steps), q) == Ok(Matching(q, Kept(Recorded(steps), Missing(steps))))
    ensures Replay(c, Run(c, steps).files, |Written(c, steps)|) == Recorded(steps)
  {
    hide Stored, Flatten, Written, Load, Select, ReadAt, AllRows, Listed, Kept;
    var log, segs := Run(c, steps), Written(c, steps);
    RunStored(c, steps);
    CarefulRun(c, steps);
    assert segs[..|segs|] == segs;
    AllRowsAligned(c, log.files, segs, |segs|);
    ReplayIs(c, log.files, segs, |segs|);
    ListedAligned(c, log.files, AllRows(c, segs), Recorded(steps), Missing(steps));
    LoadSelected(c, log.files, log.rows, Kept(Recorded(steps), Missing(steps)), q);
  }

  lemma {:induction false} KeptAll(es: seq<Event>)
    ensures Kept(es, {}) == es
  {
    if es != [] { KeptAll(es[..|es| - 1]); }
  }

  /** Looking an event up by its id finds that event, and ids out of range find none. */
  lemma LookupById(steps: seq<Step>, id: nat)
    ensures Matching(ById(id), Recorded(steps))
         == if 1 <= id <= |Recorded(steps)| then [Recorded(steps)[id - 1]] else []
  {
    RecordedIds(steps);
    MatchingId(Recorded(steps), id, 1);
  }

  lemma {:induction false} MatchingId(es: seq<Event>, id: nat, first: nat)
    requires forall k | 0 <= k < |es| :: es[k].id == first + k
    ensures Matching(ById(id), es) == if first <= id < first + |es| then [es[id - first]] else []
  {
    if es != [] { MatchingId(es[1..], id, first + 1); }
  }

  /** A rebuild after any careful run, whatever crashed or died before it, loses nothing, and
      the next append continues the numbering. */
  lemma {:induction false} CrashThenRebuild(c: Codec, steps: seq<Step>, q: Query)
    requires c.Lawful() && Careful(steps)
    ensures var healed := steps + [Rebuild];
      && Rebuilt(c, Run(c, steps).files).ok
      && Answer(c, Run(c, healed), q) == Ok(Matching(q, Recorded(steps)))
      && NextId(Run(c, healed).rows) == |Recorded(steps)| + 1
  {
    hide Stored, Flatten, Written, Load, Select, ReadAt, AllRows, Rebuilt, Listed, Kept, NextId;
    var healed := steps + [Rebuild];
    assert healed[..|steps|] == steps;
    RecoveryExact(c, steps);
    QueriesAfterRun(c, healed, q);
    KeptAll(Recorded(healed));
    CarefulRun(c, healed);
    RecordedIds(healed);
    RunStored(c, healed);
    RowIdsOfSegments(c, Run(c, healed).files, Written(c, healed));
    ListedNextId(AllRows(c, Written(c, healed)), {});
  }
}
