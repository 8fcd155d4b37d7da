/** The event log itself: append-only segment files and an index table. */
module EventLogStore {
  import opened Prelude
  import opened Ordering
  import opened SegmentNames
  import opened EventModel
  import opened LogLines
  import opened LogSpec
  import opened LogRuns

  /** Which write of an append fails, if any. */
  datatype Fault = NoFault | NoLine | NoRow

  class EventLog {
    /** The serializer of events. */
    const codec: Codec
    /** The files of the log directory, by name. */
    var files: Dir
    /** The table `events`, in the order of its primary key. */
    var rows: seq<Row>

    ghost predicate Valid()
      reads this
    {
      Keyed(rows)
    }

    ghost function State(): Log
      reads this
    {
      Log(files, rows)
    }

    constructor (codec: Codec)
      ensures Valid() && this.codec == codec && State() == Run(codec, [])
    {
      this.codec := codec;
      files, rows := map[], [];
    }

    // ── Appending ─────────────────────────────────────────────────────────

    method NextFreeId() returns (id: nat)
      requires Valid()
      ensures id == NextId(rows) && !HasId(rows, id)
      ensures forall r | r in rows :: r.id < id
    {
      id := if rows == [] then 1 else rows[|rows| - 1].id + 1;
    }

    method ListSegments() returns (names: seq<string>)
      ensures NoDuplicates(names) && forall n :: n in names <==> n in Segments(files)
      ensures forall n :: n in names <==> n in files && exists before: string :: n == before + ".events"
    {
      forall n: string { EndsWithExactly(n, ".events"); }
      hide EndsWith;
      names := [];
      var entries := Elements(files.Keys);
      for i := 0 to |entries|
        invariant NoDuplicates(names)
        invariant forall n :: n in names <==> n in entries[..i] && EndsWith(n, SUFFIX)
      {
        assert entries[..i + 1] == entries[..i] + [entries[i]];
        assert entries[i] !in entries[..i];
        if EndsWith(entries[i], SUFFIX) {
          names := names + [entries[i]];
        }
      }
      assert entries[..|entries|] == entries;
    }

    method SortedSegments() returns (names: seq<string>)
      ensures names == Sorted(Segments(files))
    {
      var listed := ListSegments();
      names := Sort(listed, Leq);
      SortIsStrict(listed);
      StrictlySortedUnique(names, Sorted(Segments(files)));
    }

    method CurrentSegmentName() returns (name: string)
      ensures name == CurrentName(files)
    {
      var segments := SortedSegments();
      if segments != [] {
        var last := segments[|segments| - 1];
        var size := if last in files then |files[last]| else 0;
        if size < MAX_SEGMENT_BYTES {
          return last;
        }
        return NextName(last);
      }
      return "000001.events";
    }

    /** Appends the event's line to the current segment and returns where it starts. */
    method WriteToSegment(event: Event) returns (segment: string, offset: nat)
      modifies `files
      ensures segment == CurrentName(old(files)) && offset == SizeOf(old(files), segment)
      ensures files == Grown(codec, old(files), segment, event)
    {
      segment := CurrentSegmentName();
      offset := if segment in files then |files[segment]| else 0;
      var line := codec.encode(event);
      line := line + [NEWLINE];
      files := files[segment := (if segment in files then files[segment] else []) + line];
    }

    method IndexEvent(event: Event, segment: string, offset: nat) returns (r: Result<(), LogError>)
      requires Valid()
      modifies `rows
      ensures Valid()
      ensures match InsertRow(old(rows), RowOf(event, segment, offset))
        case Some(t) => r == Ok(()) && rows == t
        case None => r == Err(Sqlite) && rows == old(rows)
    {
      var row := RowOf(event, segment, offset);
      match InsertRow(rows, row)
      case Some(t) =>
        PlacedKeyed(rows, row);
        rows := t;
        r := Ok(());
      case None =>
        r := Err(Sqlite);
    }

    /** One step of the log's life. The index never refuses the row, since the new id is free;
        a write to the segment or to the index can fail. */
    method Append(kind: EventKind, now: int, fault: Fault) returns (r: Result<Event, LogError>)
      requires Valid()
      modifies this
      ensures Valid()
      ensures match fault
        case NoFault =>
          r == Ok(NewEvent(old(rows), kind, now)) && State() == Next(codec, old(State()), LogRuns.Append(kind, now))
        case NoLine => r == Err(Io) && State() == old(State())
        case NoRow => r == Err(Sqlite) && State() == Next(codec, old(State()), CrashedAppend(kind, now))
    {
      var id := NextFreeId();
      if fault.NoLine? {
        return Err(Io);
      }
      var event := Event(id, now, kind);
      var segment, offset := WriteToSegment(event);
      if fault.NoRow? {
        return Err(Sqlite);
      }
      var indexed := IndexEvent(event, segment, offset);
      r := match indexed case Ok(_) => Ok(event) case Err(x) => Err(x);
    }

    // ── Queries ───────────────────────────────────────────────────────────

    method QueryIndex(q: Query) returns (result: seq<(string, nat)>)
      ensures |result| == |Select(q, rows)|
      ensures forall k | 0 <= k < |result| ::
        result[k] == (Select(q, rows)[k].segment, Select(q, rows)[k].offset)
    {
      result := [];
      ghost var picked := [];
      for i := 0 to |rows|
        invariant picked + Select(q, rows[i..]) == Select(q, rows)
        invariant |result| == |picked|
        invariant forall k | 0 <= k < |result| :: result[k] == (picked[k].segment, picked[k].offset)
      {
        assert rows[i..][0] == rows[i] && rows[i..][1..] == rows[i + 1..];
        if Selected(q, rows[i]) {
          result := result + [(rows[i].segment, rows[i].offset)];
          picked := picked + [rows[i]];
        }
      }
    }

    method ReadEventAt(segment: string, offset: nat) returns (r: Result<Event, LogError>)
      ensures r == ReadAt(codec, files, segment, offset)
    {
      if segment !in files {
        return Err(Io);
      }
      var rest := if offset <= |files[segment]| then files[segment][offset..] else [];
      var line := ReadLine(rest);
      match codec.decode(TrimEnd(line))
      case Some(e) => return Ok(e);
      case None => return Err(Serde);
    }

    method LoadEvents(found: seq<(string, nat)>, ghost picked: seq<Row>) returns (r: Result<seq<Event>, LogError>)
      requires |found| == |picked|
      requires forall k | 0 <= k < |found| :: found[k] == (picked[k].segment, picked[k].offset)
      ensures r == Load(codec, files, picked)
    {
      var events := [];
      for i := 0 to |found|
        invariant Load(codec, files, picked[..i]) == Ok(events)
      {
        var event := ReadEventAt(found[i].0, found[i].1);
        assert picked == picked[..i] + ([picked[i]] + picked[i + 1..]);
        assert picked[..i + 1] == picked[..i] + [picked[i]];
        LoadAppend(codec, files, picked[..i], [picked[i]] + picked[i + 1..]);
        LoadAppend(codec, files, picked[..i], [picked[i]]);
        LoadOne(codec, files, picked[i]);
        if event.Err? {
          return Err(event.error);
        }
        events := events + [event.value];
      }
      assert picked[..|found|] == picked;
      return Ok(events);
    }

    method RunQuery(q: Query) returns (r: Result<seq<Event>, LogError>)
      ensures r == Answer(codec, State(), q)
    {
      var found := QueryIndex(q);
      r := LoadEvents(found, Select(q, rows));
    }

    method QueryByType(eventType: string) returns (r: Result<seq<Event>, LogError>)
      ensures r == Answer(codec, State(), ByType(eventType))
    {
      r := RunQuery(ByType(eventType));
    }

    method QueryByWorkspace(workspace: Uuid) returns (r: Result<seq<Event>, LogError>)
      ensures r == Answer(codec, State(), ByWorkspace(workspace))
    {
      r := RunQuery(ByWorkspace(workspace));
    }

    method QueryByEntity(entity: string) returns (r: Result<seq<Event>, LogError>)
      ensures r == Answer(codec, State(), ByEntity(entity))
    {
      r := RunQuery(ByEntity(entity));
    }

    method AllEvents() returns (r: Result<seq<Event>, LogError>)
      ensures r == Answer(codec, State(), All)
    {
      r := RunQuery(All);
    }

    /** The first row with the id, if there is one; a row that cannot be read is an error. */
    method GetById(id: nat) returns (r: Result<Option<Event>, LogError>)
      ensures var found := Select(ById(id), rows);
        r == if found == [] then Ok(None) else
          match ReadAt(codec, files, found[0].segment, found[0].offset)
          case Ok(e) => Ok(Some(e))
          case Err(x) => Err(x)
    {
      var found := QueryIndex(ById(id));
      if found == [] {
        return Ok(None);
      }
      var event := ReadEventAt(found[0].0, found[0].1);
      match event
      case Ok(e) => return Ok(Some(e));
      case Err(x) => return Err(x);
    }

    // ── Rebuilding ────────────────────────────────────────────────────────

    method IndexSegment(name: string) returns (r: Result<(), LogError>)
      requires Valid() && name in files
      modifies `rows
      ensures Valid()
      ensures var s := ScanLines(codec, name, Chunks(files[name]), 0, old(rows));
        rows == s.rows && (r.Ok? <==> s.ok)
    {
      hide LogLines.Stripped, LogLines.Blank, LogLines.Chunks, RowOf;
      var chunks := Chunks(files[name]);
      var byteOffset: nat := 0;
      for i := 0 to |chunks|
        invariant Valid()
        invariant ScanLines(codec, name, chunks, 0, old(rows))
               == ScanLines(codec, name, chunks[i..], byteOffset, rows)
      {
        assert chunks[i..][0] == chunks[i] && chunks[i..][1..] == chunks[i + 1..];
        var line := Stripped(chunks[i]);
        if Blank(line) {
          byteOffset := byteOffset + |line| + 1;
          continue;
        }
        match codec.decode(line)
        case None =>
          return Err(Serde);
        case Some(event) =>
          r := IndexEvent(event, name, byteOffset);
          if r.Err? {
            return r;
          }
          byteOffset := byteOffset + |line| + 1;
      }
      return Ok(());
    }

    /** Deletes all rows, then indexes every segment again in the order of their names. A
        line that cannot be decoded or an id that occurs twice stops it half-way. */
    method RebuildIndex() returns (r: Result<(), LogError>)
      modifies `rows
      ensures Valid()
      ensures State() == Next(codec, old(State()), LogRuns.Rebuild)
      ensures r.Ok? <==> Rebuilt(codec, files).ok
    {
      rows := [];
      var segments := SortedSegments();
      for i := 0 to |segments|
        invariant Valid()
        invariant forall n | n in segments :: n in files
        invariant forall n | n in segments[i..] :: n in files
        invariant ScanSegments(codec, files, segments, []) == ScanSegments(codec, files, segments[i..], rows)
      {
        assert segments[i..][0] == segments[i] && segments[i..][1..] == segments[i + 1..];
        r := IndexSegment(segments[i]);
        if r.Err? {
          return r;
        }
      }
      return Ok(());
    }
  }
}
