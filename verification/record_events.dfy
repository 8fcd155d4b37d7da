/** Recording a computed diff in the event log, once per workspace. */
module RecordEvents {
  import opened Prelude
  import opened EventModel
  import opened LogLines
  import opened LogSpec
  import opened LogIndex
  import opened LogRuns
  import opened LogAnyRuns
  import opened EventLogStore
  import D = Diff

  predicate IsSeparator(name: string, i: nat) { i + 2 <= |name| && name[i] == ':' && name[i + 1] == ':' }

  /** Position of the first "::", or the length if there is none. */
  function SeparatorAt(name: string): (k: nat)
    ensures k == |name| || IsSeparator(name, k)
    ensures k <= |name| && forall i: nat | i < k :: !IsSeparator(name, i)
  {
    if name == "" then 0
    else if IsSeparator(name, 0) then 0
    else
      var k := SeparatorAt(name[1..]);
      assert forall i: nat | 1 <= i :: IsSeparator(name, i) ==> IsSeparator(name[1..], i - 1);
      k + 1
  }

  /** `split("::").last()`: separators are found from the left and do not overlap. */
  function LastSegment(name: string): string {
    var k := SeparatorAt(name);
    if k == |name| then name else LastSegment(name[k + 2..])
  }

  /** The last segment of a name without a separator is the name. That of a path and a last segment
      is the last segment, if the path does not end in a colon, which would belong to it. */
  lemma {:induction false} LastSegmentExactly(path: string, last: string)
    requires forall i: nat :: !IsSeparator(last, i)
    ensures LastSegment(last) == last
    ensures path == "" || path[|path| - 1] != ':' ==> LastSegment(path + "::" + last) == last
  {
    assert SeparatorAt(last) == |last|;
    if path == "" || path[|path| - 1] != ':' {
      var name := path + "::" + last;
      var k := SeparatorAt(name);
      assert IsSeparator(name, |path|);
      assert k <= |path|;
      if k == |path| {
        assert name[k + 2..] == last;
      } else {
        assert path[k] == name[k] == ':';
        assert path[k + 1] == name[k + 1] == ':';
        assert name[k + 2..] == path[k + 2..] + "::" + last;
        LastSegmentExactly(path[k + 2..], last);
      }
    }
  }

  function FileEvent(w: Uuid, d: D.FileDiff): EventKind {
    match d.change
    case Added => FileAdded(w, d.path, d.hash)
    case Modified => FileModified(w, d.path, "", d.hash)
    case Deleted => FileRemoved(w, d.path)
  }

  function EntityEvent(w: Uuid, x: D.EntityChange): EventKind {
    match x.change
    case NewEntity =>
      EntityAdded(w, EntitySummary(x.id, x.kind, LastSegment(x.qualifiedName), x.qualifiedName, x.file))
    case ChangedEntity =>
      EntityModified(w, x.id, x.kind + " `" + x.qualifiedName + "` modified in " + x.file)
    case RemovedEntity =>
      EntityRemoved(w, x.id)
  }

  /** The events of a diff: one per file diff, then one per entity change. */
  function EventsOf(w: Uuid, diff: D.WorkspaceDiff): seq<EventKind> {
    FileEvents(w, diff.fileDiffs) + EntityEvents(w, diff.entityChanges)
  }

  function FileEvents(w: Uuid, diffs: seq<D.FileDiff>): seq<EventKind> {
    seq(|diffs|, i requires 0 <= i < |diffs| => FileEvent(w, diffs[i]))
  }

  function EntityEvents(w: Uuid, changes: seq<D.EntityChange>): seq<EventKind> {
    seq(|changes|, i requires 0 <= i < |changes| => EntityEvent(w, changes[i]))
  }

  /** What is recorded of each change: its kind, and the path and hash, or the entity. Nothing is
      recorded of what the base had. */
  lemma EventsRecorded(w: Uuid, diff: D.WorkspaceDiff, i: nat)
    requires i < |EventsOf(w, diff)|
    ensures var n, k := |diff.fileDiffs|, EventsOf(w, diff)[i];
      && |EventsOf(w, diff)| == n + |diff.entityChanges|
      && k.Workspace() == Some(w)
      && (i < n ==>
        var d := diff.fileDiffs[i];
        && (k.FileAdded? <==> d.change == D.Added) && (k.FileModified? <==> d.change == D.Modified)
        && (k.FileRemoved? <==> d.change == D.Deleted)
        && k.path == d.path
        && (k.FileAdded? ==> k.hash == d.hash) && (k.FileModified? ==> k.oldHash == "" && k.newHash == d.hash))
      && (i >= n ==>
        var x := diff.entityChanges[i - n];
        && (k.EntityAdded? <==> x.change == D.NewEntity) && (k.EntityModified? <==> x.change == D.ChangedEntity)
        && (k.EntityRemoved? <==> x.change == D.RemovedEntity)
        && k.Entity() == Some(x.id)
        && (k.EntityModified? ==> k.changeDescription == x.kind + " `" + x.qualifiedName + "` modified in " + x.file)
        && (k.EntityAdded? ==>
          && k.entity.kind == x.kind && k.entity.qualifiedName == x.qualifiedName && k.entity.filePath == x.file
          && k.entity.name == LastSegment(x.qualifiedName)))
  {
    hide LastSegment;
  }

  /** Applies recorded file events one after the other to a table of content hashes. */
  function ReplayKinds(kinds: seq<EventKind>, m: map<string, string>): map<string, string> {
    if kinds == [] then m else ReplayKinds(kinds[1..], AfterKind(kinds[0], m))
  }

  function AfterKind(kind: EventKind, m: map<string, string>): map<string, string> {
    match kind
    case FileAdded(_, path, hash) => m[path := hash]
    case FileModified(_, path, _, hash) => m[path := hash]
    case FileRemoved(_, path) => m - {path}
    case _ => m
  }

  /** The events of a diff replay to what its file diffs replay to. */
  lemma {:induction false} EventsReplay(w: Uuid, diff: D.WorkspaceDiff, m: map<string, string>)
    ensures ReplayKinds(EventsOf(w, diff), m) == D.ReplayFiles(diff.fileDiffs, m)
    decreases |diff.fileDiffs|
  {
    hide LastSegment;
    if diff.fileDiffs != [] {
      var d, rest := diff.fileDiffs[0], diff.(fileDiffs := diff.fileDiffs[1..]);
      var events := EventsOf(w, diff);
      assert events[0] == FileEvent(w, d);
      assert events[1..] == EventsOf(w, rest);
      EventsReplay(w, rest, if d.change.Deleted? then m - {d.path} else m[d.path := d.hash]);
    } else {
      EntitiesReplay(EntityEvents(w, diff.entityChanges), m);
      assert EventsOf(w, diff) == EntityEvents(w, diff.entityChanges);
    }
  }

  lemma {:induction false} EntitiesReplay(kinds: seq<EventKind>, m: map<string, string>)
    requires forall k | k in kinds :: k.EntityAdded? || k.EntityModified? || k.EntityRemoved?
    ensures ReplayKinds(kinds, m) == m
  {
    if kinds != [] {
      assert kinds[0] in kinds && forall k | k in kinds[1..] :: k in kinds;
      EntitiesReplay(kinds[1..], m);
    }
  }

  /** `clock` gives the time of each append. */
  function AsSteps(kinds: seq<EventKind>, clock: nat -> int): seq<Step> {
    seq(|kinds|, i requires 0 <= i < |kinds| => LogRuns.Append(kinds[i], clock(i)))
  }

  ghost function AppendAll(c: Codec, log: Log, steps: seq<Step>): Log {
    if steps == [] then log
    else Next(c, AppendAll(c, log, steps[..|steps| - 1]), steps[|steps| - 1])
  }

  lemma AppendNone(c: Codec, log: Log)
    ensures AppendAll(c, log, []) == log
  {
  }

  lemma AppendSnoc(c: Codec, log: Log, steps: seq<Step>, step: Step)
    ensures AppendAll(c, log, steps + [step]) == Next(c, AppendAll(c, log, steps), step)
  {
    assert (steps + [step])[..|steps|] == steps;
  }

  /** The steps of an attempt in which only so many writes succeed. The append that fails may
      have stored its line. */
  function Attempt(kinds: seq<EventKind>, clock: nat -> int, writes: nat, fault: Fault): seq<Step> {
    if |kinds| <= writes then AsSteps(kinds, clock)
    else
      AsSteps(kinds[..writes], clock) +
      (if fault.NoRow? then [LogRuns.CrashedAppend(kinds[writes], clock(writes))] else [])
  }

  /** Appends the events of a diff, file events first, and activates the workspace; does nothing
      for a workspace that is past its creation. Only the first `writes` writes succeed, the
      last one being that of the status; when one fails, the events before it stay. */
  method Record(log: EventLog, w: Uuid, diff: D.WorkspaceDiff, status: WorkspaceStatus, clock: nat -> int,
                writes: nat, fault: Fault) returns (ok: bool, status': WorkspaceStatus)
    requires log.Valid() && !fault.NoFault?
    modifies log
    ensures log.Valid()
    ensures ok <==> status != Created || |EventsOf(w, diff)| < writes
    ensures status' == if ok && status == Created then Active else status
    ensures log.State() ==
      if status != Created then old(log.State())
      else AppendAll(log.codec, old(log.State()), Attempt(EventsOf(w, diff), clock, writes, fault))
  {
    if status != Created {
      return true, status;
    }
    ok := RecordAll(log, w, diff, clock, writes, fault);
    return ok, if ok then Active else status;
  }

  method RecordAll(log: EventLog, w: Uuid, diff: D.WorkspaceDiff, clock: nat -> int, writes: nat, fault: Fault)
    returns (ok: bool)
    requires log.Valid() && !fault.NoFault?
    modifies log
    ensures log.Valid() && (ok <==> |EventsOf(w, diff)| < writes)
    ensures log.State() == AppendAll(log.codec, old(log.State()), Attempt(EventsOf(w, diff), clock, writes, fault))
  {
    hide Next, AppendAll, AsSteps, EventsOf, FileEvents, EntityEvents, Attempt;
    ghost var events, origin := EventsOf(w, diff), log.State();
    EventsParts(w, diff);
    AttemptParts(events, |diff.fileDiffs|, clock, writes, fault);
    AppendNone(log.codec, origin);
    ok := AppendEach(log, FileEvents(w, diff.fileDiffs), clock, 0, writes, fault, events, origin);
    if ok {
      ok := AppendEach(log, EntityEvents(w, diff.entityChanges), clock, |diff.fileDiffs|, writes, fault, events, origin);
      ok := ok && |diff.fileDiffs| + |diff.entityChanges| < writes;
    }
  }

  lemma AttemptParts(events: seq<EventKind>, n: nat, clock: nat -> int, writes: nat, fault: Fault)
    requires n <= |events|
    ensures |events| <= writes ==> Attempt(events, clock, writes, fault) == AsSteps(events[..|events|], clock)
    ensures AsSteps(events[..0], clock) == []
  {
    assert events[..|events|] == events;
  }

  lemma EventsParts(w: Uuid, diff: D.WorkspaceDiff)
    ensures var events, n := EventsOf(w, diff), |diff.fileDiffs|;
      && |events| == n + |diff.entityChanges|
      && |FileEvents(w, diff.fileDiffs)| == n && |EntityEvents(w, diff.entityChanges)| == |diff.entityChanges|
      && events[0..n] == FileEvents(w, diff.fileDiffs) && events[n..|events|] == EntityEvents(w, diff.entityChanges)
  {
    hide FileEvent, EntityEvent;
  }

  /** Appends the part of the events that starts at `at`, until a write fails. */
  method AppendEach(log: EventLog, kinds: seq<EventKind>, clock: nat -> int, at: nat, writes: nat, fault: Fault,
                    ghost all: seq<EventKind>, ghost origin: Log) returns (ok: bool)
    requires log.Valid() && !fault.NoFault?
    requires at <= writes && at + |kinds| <= |all| && all[at..at + |kinds|] == kinds
    requires log.State() == AppendAll(log.codec, origin, AsSteps(all[..at], clock))
    modifies log
    ensures log.Valid()
    ensures ok <==> at + |kinds| <= writes
    ensures log.State() == AppendAll(log.codec, origin,
      if ok then AsSteps(all[..at + |kinds|], clock) else Attempt(all, clock, writes, fault))
  {
    hide Next, AppendAll, AsSteps, Attempt;
    for i := 0 to |kinds|
      invariant log.Valid() && at + i <= writes
      invariant log.State() == AppendAll(log.codec, origin, AsSteps(all[..at + i], clock))
    {
      assert kinds[i] == all[at + i];
      StepsSnoc(log.codec, origin, all, clock, at + i);
      FailedStep(log.codec, origin, all, clock, at + i, fault);
      var r := log.Append(kinds[i], clock(at + i), if at + i == writes then fault else NoFault);
      if r.Err? {
        return false;
      }
    }
    return true;
  }

  lemma FailedStep(c: Codec, log: Log, kinds: seq<EventKind>, clock: nat -> int, i: nat, fault: Fault)
    requires i < |kinds| && !fault.NoFault?
    ensures var before := AppendAll(c, log, AsSteps(kinds[..i], clock));
      AppendAll(c, log, Attempt(kinds, clock, i, fault)) ==
        if fault.NoRow? then Next(c, before, LogRuns.CrashedAppend(kinds[i], clock(i))) else before
  {
    hide Next, AppendAll;
    if fault.NoRow? {
      AppendSnoc(c, log, AsSteps(kinds[..i], clock), LogRuns.CrashedAppend(kinds[i], clock(i)));
    } else {
      assert AsSteps(kinds[..i], clock) + [] == AsSteps(kinds[..i], clock);
    }
  }

  /** The events that are recorded when only so many writes succeed. */
  function Done(kinds: seq<EventKind>, writes: nat): seq<EventKind> {
    if |kinds| <= writes then kinds else kinds[..writes]
  }

  lemma StepsSnoc(c: Codec, log: Log, kinds: seq<EventKind>, clock: nat -> int, i: nat)
    requires i < |kinds|
    ensures AppendAll(c, log, AsSteps(kinds[..i + 1], clock)) ==
      Next(c, AppendAll(c, log, AsSteps(kinds[..i], clock)), LogRuns.Append(kinds[i], clock(i)))
  {
    hide Next;
    assert AsSteps(kinds[..i + 1], clock) == AsSteps(kinds[..i], clock) + [LogRuns.Append(kinds[i], clock(i))];
    AppendSnoc(c, log, AsSteps(kinds[..i], clock), LogRuns.Append(kinds[i], clock(i)));
  }

  // ── What queries see of it ──────────────────────────────────────────────

  function Numbered(kinds: seq<EventKind>, clock: nat -> int, first: nat): seq<Event> {
    seq(|kinds|, i requires 0 <= i < |kinds| => Event(first + i, clock(i), kinds[i]))
  }

  lemma OneMoreAppend(c: Codec, steps: seq<Step>, kind: EventKind, now: int)
    requires Careful(steps) && !Interrupted(steps)
    ensures var step := LogRuns.Append(kind, now);
      var longer := steps + [step];
      && Run(c, longer) == Next(c, Run(c, steps), step)
      && Careful(longer) && !Interrupted(longer) && Missing(longer) == Missing(steps)
      && Recorded(longer) == Recorded(steps) + [Event(|Recorded(steps)| + 1, now, kind)]
  {
    assert (steps + [LogRuns.Append(kind, now)])[..|steps|] == steps;
    MissingIds(steps);
  }

  lemma NumberedSnoc(kinds: seq<EventKind>, clock: nat -> int, first: nat)
    requires kinds != []
    ensures var n := |kinds| - 1;
      && Numbered(kinds, clock, first) == Numbered(kinds[..n], clock, first) + [Event(first + n, clock(n), kinds[n])]
      && AsSteps(kinds, clock) == AsSteps(kinds[..n], clock) + [LogRuns.Append(kinds[n], clock(n))]
  {
  }

  lemma {:induction false} AppendAllIsRun(c: Codec, steps: seq<Step>, kinds: seq<EventKind>, clock: nat -> int)
    requires Careful(steps) && !Interrupted(steps)
    ensures var longer := steps + AsSteps(kinds, clock);
      && AppendAll(c, Run(c, steps), AsSteps(kinds, clock)) == Run(c, longer)
      && Careful(longer) && !Interrupted(longer) && Missing(longer) == Missing(steps)
      && Recorded(longer) == Recorded(steps) + Numbered(kinds, clock, |Recorded(steps)| + 1)
  {
    hide Next, Run, Careful, Interrupted, Recorded, Missing, AppendAll;
    if kinds == [] {
      AppendNone(c, Run(c, steps));
      assert AsSteps(kinds, clock) == [];
      assert steps + AsSteps(kinds, clock) == steps;
    } else {
      var n := |kinds| - 1;
      var before := kinds[..n];
      AppendAllIsRun(c, steps, before, clock);
      OneMoreAppend(c, steps + AsSteps(before, clock), kinds[n], clock(n));
      NumberedSnoc(kinds, clock, |Recorded(steps)| + 1);
      AppendSnoc(c, Run(c, steps), AsSteps(before, clock), LogRuns.Append(kinds[n], clock(n)));
      assert steps + AsSteps(kinds, clock) == (steps + AsSteps(before, clock)) + [LogRuns.Append(kinds[n], clock(n))];
    }
  }

  lemma {:induction false} MatchingAppend(q: Query, a: seq<Event>, b: seq<Event>)
    ensures Matching(q, a + b) == Matching(q, a) + Matching(q, b)
  {
    hide Wanted;
    if a == [] {
      assert a + b == b;
    } else {
      assert (a + b)[1..] == a[1..] + b;
      MatchingAppend(q, a[1..], b);
    }
  }

  lemma {:induction false} MatchingAll(q: Query, es: seq<Event>)
    requires forall e | e in es :: Wanted(q, e)
    ensures Matching(q, es) == es
  {
    if es != [] {
      assert es[0] in es && forall e | e in es[1..] :: e in es;
      MatchingAll(q, es[1..]);
    }
  }

  lemma EventsBelongToWorkspace(w: Uuid, diff: D.WorkspaceDiff)
    ensures |EventsOf(w, diff)| == |diff.fileDiffs| + |diff.entityChanges|
    ensures forall k | k in EventsOf(w, diff) :: k.Workspace() == Some(w)
  {
    hide LastSegment;
  }

  /** In any run, appends add their events to what the table lists, numbered from the next id on. */
  lemma {:induction false} AppendsList(c: Codec, steps: seq<Step>, kinds: seq<EventKind>, clock: nat -> int)
    requires c.Lawful()
    ensures var log, after := Run(c, steps), Run(c, steps + AsSteps(kinds, clock));
      && EventsAt(c, after.files, after.rows) ==
         EventsAt(c, log.files, log.rows) + Numbered(kinds, clock, NextId(log.rows))
      && NextId(after.rows) == NextId(log.rows) + |kinds|
  {
    hide Next, Run, EventsAt, NextId, LogLines.Codec.Lawful;
    if kinds == [] {
      assert steps + AsSteps(kinds, clock) == steps;
    } else {
      var n := |kinds| - 1;
      AppendsList(c, steps, kinds[..n], clock);
      NumberedSnoc(kinds, clock, NextId(Run(c, steps).rows));
      var before, step := steps + AsSteps(kinds[..n], clock), LogRuns.Append(kinds[n], clock(n));
      StepLists(c, before, step);
      assert steps + AsSteps(kinds, clock) == before + [step];
    }
  }

  /** What an attempt lists: the events before the write that fails, whatever that one stored. */
  lemma AttemptLists(c: Codec, steps: seq<Step>, kinds: seq<EventKind>, clock: nat -> int, writes: nat, fault: Fault)
    requires c.Lawful()
    ensures var log, after := Run(c, steps), Run(c, steps + Attempt(kinds, clock, writes, fault));
      var some := Done(kinds, writes);
      && EventsAt(c, after.files, after.rows) ==
         EventsAt(c, log.files, log.rows) + Numbered(some, clock, NextId(log.rows))
      && NextId(after.rows) == NextId(log.rows) + |some|
  {
    hide Next, Run, EventsAt, NextId, LogLines.Codec.Lawful;
    var some := Done(kinds, writes);
    var before := steps + AsSteps(some, clock);
    AppendsList(c, steps, some, clock);
    if |kinds| > writes && fault.NoRow? {
      var crash := LogRuns.CrashedAppend(kinds[writes], clock(writes));
      StepLists(c, before, crash);
      assert steps + Attempt(kinds, clock, writes, fault) == before + [crash];
    } else {
      assert steps + Attempt(kinds, clock, writes, fault) == before;
    }
  }

  lemma MatchingNumbered(w: Uuid, before: seq<Event>, kinds: seq<EventKind>, clock: nat -> int, first: nat)
    requires forall k | k in kinds :: k.Workspace() == Some(w)
    ensures Matching(ByWorkspace(w), before + Numbered(kinds, clock, first)) ==
      Matching(ByWorkspace(w), before) + Numbered(kinds, clock, first)
  {
    hide Matching;
    var events := Numbered(kinds, clock, first);
    MatchingAppend(ByWorkspace(w), before, events);
    forall e | e in events ensures Wanted(ByWorkspace(w), e) {
      var i :| 0 <= i < |events| && events[i] == e;
      assert kinds[i] in kinds;
    }
    MatchingAll(ByWorkspace(w), events);
  }

  /** After a diff has been recorded in a healthy log, a query for its workspace returns what it
      returned before, followed by one event per file diff and per entity change. If a first
      attempt failed after some writes, the events it recorded come in between: they are
      recorded twice, whether or not the append that failed had stored its line. */
  lemma RecordedDiffIsQueried(c: Codec, steps: seq<Step>, w: Uuid, diff: D.WorkspaceDiff, writes: nat, fault: Fault,
                              clock: nat -> int, clock': nat -> int)
    requires c.Lawful() && Careful(steps) && Missing(steps) == {}
    ensures var before, all := Matching(ByWorkspace(w), Recorded(steps)), EventsOf(w, diff);
      var some := Done(all, writes);
      var n := |Recorded(steps)| + 1;
      var once := AppendAll(c, Run(c, steps), AsSteps(all, clock));
      var first := AppendAll(c, Run(c, steps), Attempt(all, clock, writes, fault));
      var twice := AppendAll(c, first, AsSteps(all, clock'));
      && Answer(c, Run(c, steps), ByWorkspace(w)) == Ok(before)
      && Answer(c, once, ByWorkspace(w)) == Ok(before + Numbered(all, clock, n))
      && Answer(c, first, ByWorkspace(w)) == Ok(before + Numbered(some, clock, n))
      && Answer(c, twice, ByWorkspace(w)) ==
         Ok(before + Numbered(some, clock, n) + Numbered(all, clock', n + |some|))
  {
    hide Next, Answer, EventsOf, Recorded, Run, AppendAll, Careful, AsSteps, Matching, Missing, EventsAt, NextId,
      Attempt, Numbered, LogLines.Codec.Lawful, Aligned, Keyed;
    var q, all := ByWorkspace(w), EventsOf(w, diff);
    var some, n := Done(all, writes), |Recorded(steps)| + 1;
    EventsBelongToWorkspace(w, diff);
    assert forall k | k in some :: k in all;
    var attempted := steps + Attempt(all, clock, writes, fault);
    HealthyLists(c, steps);
    RunAppend(c, steps, AsSteps(all, clock));
    RunAppend(c, steps, Attempt(all, clock, writes, fault));
    RunAppend(c, attempted, AsSteps(all, clock'));
    AnyRunAnswers(c, steps, q);
    AppendsList(c, steps, all, clock);
    AnyRunAnswers(c, steps + AsSteps(all, clock), q);
    AttemptLists(c, steps, all, clock, writes, fault);
    AnyRunAnswers(c, attempted, q);
    AppendsList(c, attempted, all, clock');
    AnyRunAnswers(c, attempted + AsSteps(all, clock'), q);
    MatchingNumbered(w, Recorded(steps), all, clock, n);
    MatchingNumbered(w, Recorded(steps), some, clock, n);
    MatchingNumbered(w, Recorded(steps) + Numbered(some, clock, n), all, clock', n + |some|);
  }

  function Kinds(es: seq<Event>): seq<EventKind> { seq(|es|, i requires 0 <= i < |es| => es[i].kind) }

  /** When no file event of a workspace is recorded before its diff, the events that its query
      returns afterwards replay the base's files to those of the base and the overlay, without
      the deleted files of the base. */
  lemma RecordedFilesReplay(c: Codec, steps: seq<Step>, w: Uuid, diff: D.WorkspaceDiff, clock: nat -> int,
                            part: seq<D.FileDiff>, base: Files, overlay: Files, deleted: seq<string>, tools: D.Tools)
    requires c.Lawful() && Careful(steps) && Missing(steps) == {}
    requires forall e | e in Recorded(steps) && e.kind.Workspace() == Some(w) ::
      !e.kind.FileAdded? && !e.kind.FileModified? && !e.kind.FileRemoved?
    requires D.IsOverlayPart(part, base, overlay, tools) && diff.fileDiffs == part + D.DeletedPart(deleted, base)
    ensures var r := Answer(c, AppendAll(c, Run(c, steps), AsSteps(EventsOf(w, diff), clock)), ByWorkspace(w));
      && r.Ok?
      && ReplayKinds(Kinds(r.value), D.Hashes(base, tools)) ==
         D.Hashes((base + overlay) - (set x | x in deleted && x in base), tools)
  {
    hide *;
    hide Answer, EventsOf, Recorded, Run, AppendAll, AsSteps, Matching, Numbered, Kinds, ReplayKinds, Careful, Missing,
      LogLines.Codec.Lawful, EventModel.EventKind.Workspace, D.Hashes, D.ReplayFiles, D.IsOverlayPart, D.DeletedPart, Attempt, Done;
    var before, m := Matching(ByWorkspace(w), Recorded(steps)), D.Hashes(base, tools);
    NoFileEvents(Recorded(steps), w, m);
    var events, n := EventsOf(w, diff), |Recorded(steps)| + 1;
    RecordedDiffIsQueried(c, steps, w, diff, 0, NoLine, clock, clock);
    KindsOf(before, events, clock, n);
    ReplayKindsAppend(Kinds(before), events, m);
    EventsReplay(w, diff, m);
    D.FileDiffsReplay(part, base, overlay, deleted, tools);
  }

  lemma NoFileEvents(es: seq<Event>, w: Uuid, m: map<string, string>)
    requires forall e | e in es && e.kind.Workspace() == Some(w) ::
      !e.kind.FileAdded? && !e.kind.FileModified? && !e.kind.FileRemoved?
    ensures ReplayKinds(Kinds(Matching(ByWorkspace(w), es)), m) == m
  {
    MatchingMembers(ByWorkspace(w), es);
    hide Matching, Kinds, ReplayKinds, EventModel.EventKind.Workspace;
    OtherKindsReplay(Matching(ByWorkspace(w), es), m);
  }

  lemma KindsOf(before: seq<Event>, kinds: seq<EventKind>, clock: nat -> int, first: nat)
    ensures Kinds(before + Numbered(kinds, clock, first)) == Kinds(before) + kinds
  {
  }

  lemma {:induction false} OtherKindsReplay(es: seq<Event>, m: map<string, string>)
    requires forall e | e in es :: !e.kind.FileAdded? && !e.kind.FileModified? && !e.kind.FileRemoved?
    ensures ReplayKinds(Kinds(es), m) == m
  {
    if es != [] {
      assert es[0] in es && forall e | e in es[1..] :: e in es;
      assert Kinds(es)[1..] == Kinds(es[1..]);
      OtherKindsReplay(es[1..], m);
    }
  }

  lemma {:induction false} ReplayKindsAppend(a: seq<EventKind>, b: seq<EventKind>, m: map<string, string>)
    ensures ReplayKinds(a + b, m) == ReplayKinds(b, ReplayKinds(a, m))
  {
    if a == [] {
      assert a + b == b;
    } else {
      assert (a + b)[1..] == a[1..] + b;
      ReplayKindsAppend(a[1..], b, AfterKind(a[0], m));
    }
  }

  /** The changes of one entity. */
  function ChangesOf(changes: seq<D.EntityChange>, id: string): seq<D.EntityChange> {
    if changes == [] then []
    else (if changes[0].id == id then [changes[0]] else []) + ChangesOf(changes[1..], id)
  }

  /** A query for an entity returns after recording what it returned before, followed by one event
      for each change of the entity, of the change's kind, in order. */
  lemma RecordedEntityIsQueried(c: Codec, steps: seq<Step>, w: Uuid, diff: D.WorkspaceDiff, id: string, clock: nat -> int)
    requires c.Lawful() && Careful(steps) && Missing(steps) == {}
    ensures var before, changes := Matching(ByEntity(id), Recorded(steps)), ChangesOf(diff.entityChanges, id);
      var r := Answer(c, AppendAll(c, Run(c, steps), AsSteps(EventsOf(w, diff), clock)), ByEntity(id));
      && Answer(c, Run(c, steps), ByEntity(id)) == Ok(before)
      && r.Ok? && |r.value| == |before| + |changes| && r.value[..|before|] == before
      && forall i | 0 <= i < |changes| ::
        var k := r.value[|before| + i].kind;
        && (k.EntityAdded? <==> changes[i].change == D.NewEntity)
        && (k.EntityModified? <==> changes[i].change == D.ChangedEntity)
        && (k.EntityRemoved? <==> changes[i].change == D.RemovedEntity)
        && k.Workspace() == Some(w)
  {
    hide *;
    hide Answer, EventsOf, Recorded, Run, AppendAll, AsSteps, Matching, EventsAt, NextId, Numbered, ChangesOf;
    var q, all, n := ByEntity(id), EventsOf(w, diff), |Recorded(steps)| + 1;
    HealthyLists(c, steps);
    RunAppend(c, steps, AsSteps(all, clock));
    AnyRunAnswers(c, steps, q);
    AppendsList(c, steps, all, clock);
    AnyRunAnswers(c, steps + AsSteps(all, clock), q);
    MatchingAppend(q, Recorded(steps), Numbered(all, clock, n));
    EntityMatches(w, diff, id, clock, n);
    KindsByChange(w);
  }

  lemma KindsByChange(w: Uuid)
    ensures forall x :: var k := EntityEvent(w, x);
      && (k.EntityAdded? <==> x.change == D.NewEntity) && (k.EntityModified? <==> x.change == D.ChangedEntity)
      && (k.EntityRemoved? <==> x.change == D.RemovedEntity) && k.Workspace() == Some(w)
  {
    hide LastSegment;
  }

  lemma EntityMatches(w: Uuid, diff: D.WorkspaceDiff, id: string, clock: nat -> int, first: nat)
    ensures var r, changes := Matching(ByEntity(id), Numbered(EventsOf(w, diff), clock, first)), ChangesOf(diff.entityChanges, id);
      |r| == |changes| && forall i | 0 <= i < |r| :: r[i].kind == EntityEvent(w, changes[i])
  {
    hide Matching, FileEvent, EntityEvent;
    var n := |diff.fileDiffs|;
    var files, entities := FileEvents(w, diff.fileDiffs), EntityEvents(w, diff.entityChanges);
    var later := (i: nat) => clock(n + i);
    assert Numbered(EventsOf(w, diff), clock, first) ==
      Numbered(files, clock, first) + Numbered(entities, later, first + n);
    MatchingAppend(ByEntity(id), Numbered(files, clock, first), Numbered(entities, later, first + n));
    NoEntity(w, diff.fileDiffs, id, clock, first);
    ChangesMatch(w, diff.entityChanges, id, later, first + n);
  }

  lemma {:induction false} NoEntity(w: Uuid, diffs: seq<D.FileDiff>, id: string, clock: nat -> int, first: nat)
    ensures Matching(ByEntity(id), Numbered(FileEvents(w, diffs), clock, first)) == []
  {
    if diffs != [] {
      var later := (i: nat) => clock(i + 1);
      assert Numbered(FileEvents(w, diffs), clock, first)[1..] == Numbered(FileEvents(w, diffs[1..]), later, first + 1);
      NoEntity(w, diffs[1..], id, later, first + 1);
    }
  }

  lemma EntityOfEvent(w: Uuid, x: D.EntityChange, id: string, e: Event)
    requires e.kind == EntityEvent(w, x)
    ensures Wanted(ByEntity(id), e) <==> x.id == id
  {
    hide LastSegment;
  }

  lemma {:induction false} ChangesMatch(w: Uuid, changes: seq<D.EntityChange>, id: string, clock: nat -> int, first: nat)
    ensures var r, cs := Matching(ByEntity(id), Numbered(EntityEvents(w, changes), clock, first)), ChangesOf(changes, id);
      |r| == |cs| && forall i | 0 <= i < |r| :: r[i].kind == EntityEvent(w, cs[i])
  {
    if changes != [] {
      var later := (i: nat) => clock(i + 1);
      var events := Numbered(EntityEvents(w, changes), clock, first);
      assert events[1..] == Numbered(EntityEvents(w, changes[1..]), later, first + 1);
      assert events[0].kind == EntityEvent(w, changes[0]);
      EntityOfEvent(w, changes[0], id, events[0]);
      hide *;
      hide EntityEvents, EntityEvent, Numbered, Wanted;
      ChangesMatch(w, changes[1..], id, later, first + 1);
    }
  }

  lemma {:induction false} RunAppend(c: Codec, steps: seq<Step>, more: seq<Step>)
    ensures AppendAll(c, Run(c, steps), more) == Run(c, steps + more)
  {
    hide Next;
    if more == [] {
      assert steps + more == steps;
    } else {
      RunAppend(c, steps, more[..|more| - 1]);
      assert (steps + more)[..|steps + more| - 1] == steps + more[..|more| - 1];
    }
  }

  lemma {:induction false} CarelessStays(steps: seq<Step>, more: seq<Step>)
    requires !Careful(steps)
    ensures !Careful(steps + more)
  {
    if more == [] {
      assert steps + more == steps;
    } else {
      CarelessStays(steps, more[..|more| - 1]);
      assert (steps + more)[..|steps + more| - 1] == steps + more[..|more| - 1];
    }
  }

  /** If the append that failed had stored its line, recording again does not only repeat events:
      the next rebuild fails, unless one came first. */
  lemma RetryBreaksRebuild(c: Codec, steps: seq<Step>, w: Uuid, diff: D.WorkspaceDiff, writes: nat,
                           clock: nat -> int, clock': nat -> int)
    requires c.Lawful() && Careful(steps) && Missing(steps) == {} && writes < |EventsOf(w, diff)|
    ensures var all := EventsOf(w, diff);
      var first := AppendAll(c, Run(c, steps), Attempt(all, clock, writes, NoRow));
      && Rebuilt(c, first.files).ok
      && !Rebuilt(c, AppendAll(c, first, AsSteps(all, clock')).files).ok
  {
    hide Next, EventsOf, Run, AppendAll, AsSteps, LogLines.Codec.Lawful, Rebuilt, Recorded, Missing, Careful;
    var all := EventsOf(w, diff);
    var some, crash := all[..writes], LogRuns.CrashedAppend(all[writes], clock(writes));
    AppendAllIsRun(c, steps, some, clock);
    var before := steps + AsSteps(some, clock);
    var crashed := before + [crash];
    CrashInterrupts(before, crash);
    RunAppend(c, steps, Attempt(all, clock, writes, NoRow));
    assert steps + Attempt(all, clock, writes, NoRow) == crashed;
    RecoveryExact(c, crashed);
    RunAppend(c, crashed, AsSteps(all, clock'));
    AppendsFirst(crashed, all, clock');
    RecoveryExact(c, crashed + AsSteps(all, clock'));
  }

  lemma CrashInterrupts(steps: seq<Step>, crash: Step)
    requires Careful(steps) && !Interrupted(steps) && crash.CrashedAppend?
    ensures Careful(steps + [crash]) && Interrupted(steps + [crash])
  {
    assert (steps + [crash])[..|steps|] == steps;
  }

  lemma AppendsFirst(steps: seq<Step>, kinds: seq<EventKind>, clock: nat -> int)
    requires Interrupted(steps) && kinds != []
    ensures !Careful(steps + AsSteps(kinds, clock))
  {
    hide Interrupted;
    var more := AsSteps(kinds, clock);
    var one := steps + [more[0]];
    assert one[..|steps|] == steps;
    CarelessStays(one, more[1..]);
    assert one + more[1..] == steps + more;
  }
}
