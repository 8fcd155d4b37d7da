/**
 What the operations of the event log do, as functions of its two pieces of
 state: the segment files and the rows of the index table.
 */
module LogSpec {
  import opened Prelude
  import opened Ordering
  import opened SegmentNames
  import opened EventModel
  import opened LogLines

  const MAX_SEGMENT_BYTES: nat := 64 * 1024 * 1024

  datatype Row = Row(
    id: nat, timestamp: int, eventType: string, workspaceId: Option<Uuid>, entityId: Option<string>,
    segment: string, offset: nat)

  type Dir = map<string, seq<byte>>
  datatype Log = Log(files: Dir, rows: seq<Row>)

  datatype LogError = Io | Sqlite | Serde

  // ── The index table ─────────────────────────────────────────────────────

  function RowOf(e: Event, segment: string, offset: nat): Row {
    Row(e.id, e.timestamp, e.kind.EventType(), e.kind.Workspace(), e.kind.Entity(), segment, offset)
  }

  predicate Selected(q: Query, r: Row) {
    match q
    case ByType(t) => r.eventType == t
    case ByWorkspace(w) => r.workspaceId == Some(w)
    case ByEntity(x) => r.entityId == Some(x)
    case All => true
    case ById(i) => r.id == i
  }

  /** A table with an integer primary key keeps its rows in key order. */
  ghost predicate Keyed(t: seq<Row>) {
    forall i, j | 0 <= i < j < |t| :: t[i].id < t[j].id
  }

  predicate HasId(t: seq<Row>, id: nat) { exists r | r in t :: r.id == id }

  function Placed(t: seq<Row>, r: Row): seq<Row> {
    if t == [] || r.id < t[0].id then [r] + t else [t[0]] + Placed(t[1..], r)
  }

  /** `INSERT`: refused when the primary key is taken. */
  function InsertRow(t: seq<Row>, r: Row): Option<seq<Row>> {
    if HasId(t, r.id) then None else Some(Placed(t, r))
  }

  /** One more than the largest id in the table. */
  function NextId(t: seq<Row>): nat { if t == [] then 1 else t[|t| - 1].id + 1 }

  /** `SELECT … WHERE … ORDER BY id`. */
  function Select(q: Query, t: seq<Row>): seq<Row> {
    if t == [] then []
    else if Selected(q, t[0]) then [t[0]] + Select(q, t[1..])
    else Select(q, t[1..])
  }

  lemma {:induction false} PlacedKeyed(t: seq<Row>, r: Row)
    requires Keyed(t) && !HasId(t, r.id)
    ensures Keyed(Placed(t, r))
    ensures forall x :: x in Placed(t, r) <==> x == r || x in t
  {
    if t != [] && !(r.id < t[0].id) {
      assert t[0] in t;
      forall x | x in t[1..] ensures x.id != r.id { assert x in t; }
      PlacedKeyed(t[1..], r);
      assert t == [t[0]] + t[1..];
      forall k | 0 <= k < |Placed(t[1..], r)| ensures t[0].id < Placed(t[1..], r)[k].id {
        assert Placed(t[1..], r)[k] in Placed(t[1..], r);
      }
    }
  }

  lemma {:induction false} PlacedLast(t: seq<Row>, r: Row)
    requires forall x | x in t :: x.id < r.id
    ensures Placed(t, r) == t + [r]
  {
    if t != [] {
      assert t[0] in t;
      assert forall x | x in t[1..] :: x in t;
      PlacedLast(t[1..], r);
      assert t == [t[0]] + t[1..];
    }
  }

  lemma {:induction false} KeyedUnique(s: seq<Row>, t: seq<Row>)
    requires Keyed(s) && Keyed(t)
    requires forall x :: x in s <==> x in t
    ensures s == t
  {
    assert t != [] ==> t[0] in s;
    if s != [] {
      assert s[0] in t;
      assert s == [s[0]] + s[1..] && t == [t[0]] + t[1..];
      forall x ensures x in s[1..] <==> x in t[1..] {
        assert x in s <==> x == s[0] || x in s[1..];
        assert x in t <==> x == t[0] || x in t[1..];
      }
      KeyedUnique(s[1..], t[1..]);
    }
  }

  // ── Reading ─────────────────────────────────────────────────────────────

  function ReadAt(c: Codec, files: Dir, segment: string, offset: nat): Result<Event, LogError> {
    if segment !in files then Err(Io)
    else
      var rest := if offset <= |files[segment]| then files[segment][offset..] else [];
      match c.decode(TrimEnd(ReadLine(rest)))
      case Some(e) => Ok(e)
      case None => Err(Serde)
  }

  function Load(c: Codec, files: Dir, rows: seq<Row>): Result<seq<Event>, LogError> {
    if rows == [] then Ok([])
    else
      match ReadAt(c, files, rows[0].segment, rows[0].offset)
      case Err(x) => Err(x)
      case Ok(e) =>
        match Load(c, files, rows[1..])
        case Err(x) => Err(x)
        case Ok(es) => Ok([e] + es)
  }

  lemma {:induction false} LoadAppend(c: Codec, files: Dir, a: seq<Row>, b: seq<Row>)
    ensures Load(c, files, a + b) ==
      match Load(c, files, a)
      case Err(x) => Err(x)
      case Ok(es) =>
        match Load(c, files, b)
        case Err(x) => Err(x)
        case Ok(fs) => Ok(es + fs)
  {
    hide ReadAt;
    if a == [] {
      assert a + b == b;
      assert forall fs: seq<Event> :: [] + fs == fs;
    } else {
      assert (a + b)[1..] == a[1..] + b;
      LoadAppend(c, files, a[1..], b);
      var first, left, right := ReadAt(c, files, a[0].segment, a[0].offset), Load(c, files, a[1..]), Load(c, files, b);
      if first.Ok? && left.Ok? && right.Ok? {
        assert [first.value] + (left.value + right.value) == [first.value] + left.value + right.value;
      }
    }
  }

  lemma LoadOne(c: Codec, files: Dir, r: Row)
    ensures Load(c, files, [r]) ==
      match ReadAt(c, files, r.segment, r.offset) case Ok(e) => Ok([e]) case Err(x) => Err(x)
  {
    hide ReadAt;
    assert [r][1..] == [];
    var e := ReadAt(c, files, r.segment, r.offset);
    if e.Ok? { assert [e.value] + [] == [e.value]; }
  }

  /** What any of the query functions returns. */
  function Answer(c: Codec, log: Log, q: Query): Result<seq<Event>, LogError> {
    Load(c, log.files, Select(q, log.rows))
  }

  // ── Writing ─────────────────────────────────────────────────────────────

  ghost function Segments(files: Dir): set<string> {
    set n | n in files && EndsWith(n, SUFFIX)
  }

  function SizeOf(files: Dir, name: string): nat { if name in files then |files[name]| else 0 }

  ghost function CurrentName(files: Dir): string {
    var names := Sorted(Segments(files));
    if names == [] then "000001.events"
    else
      var last := names[|names| - 1];
      if SizeOf(files, last) < MAX_SEGMENT_BYTES then last else NextName(last)
  }

  function Grown(c: Codec, files: Dir, name: string, e: Event): Dir {
    files[name := (if name in files then files[name] else []) + c.LineOf(e)]
  }

  // ── Rebuilding ──────────────────────────────────────────────────────────

  datatype Scan = Scan(rows: seq<Row>, ok: bool)

  function ScanLines(c: Codec, name: string, chunks: seq<Line>, offset: nat, t: seq<Row>): Scan {
    if chunks == [] then Scan(t, true)
    else
      var line := Stripped(chunks[0]);
      if Blank(line) then ScanLines(c, name, chunks[1..], offset + |line| + 1, t)
      else
        match c.decode(line)
        case None => Scan(t, false)
        case Some(e) =>
          match InsertRow(t, RowOf(e, name, offset))
          case None => Scan(t, false)
          case Some(t') => ScanLines(c, name, chunks[1..], offset + |line| + 1, t')
  }

  lemma RowKey(e: Event, name: string, offset: nat)
    ensures RowOf(e, name, offset).id == e.id
  {
  }

  /** Indexing a line: a blank one is skipped, one that does not decode or whose id is taken ends the
      scan with the rows so far, and any other adds its row. */
  lemma ScansLine(c: Codec, name: string, chunk: Line, rest: seq<Line>, offset: nat, t: seq<Row>)
    ensures var r, next := ScanLines(c, name, [chunk] + rest, offset, t), offset + |Stripped(chunk)| + 1;
      var e := c.decode(Stripped(chunk));
      && ((forall b | b in chunk :: b == 32 || 9 <= b <= 13) ==> r == ScanLines(c, name, rest, next, t))
      && (!(forall b | b in chunk :: b == 32 || 9 <= b <= 13) ==>
        if e.None? || exists row | row in t :: row.id == e.value.id then r == Scan(t, false)
        else r == ScanLines(c, name, rest, next, Placed(t, RowOf(e.value, name, offset))))
  {
    WhiteSpace(chunk, []);
    assert ([chunk] + rest)[1..] == rest;
    hide Stripped, Blank, RowOf, Placed;
    if c.decode(Stripped(chunk)).Some? { RowKey(c.decode(Stripped(chunk)).value, name, offset); }
  }

  /** The row of a line that decodes. */
  predicate IsRowOf(c: Codec, name: string, chunk: Line, offset: nat, r: Row) {
    var e := c.decode(Stripped(chunk));
    e.Some? && r == RowOf(e.value, name, offset)
  }

  /** Every row that scanning a file adds is that of one of its lines, at the running offset of the
      line, blank lines counted. */
  lemma {:induction false} ScanRunning(c: Codec, name: string, chunks: seq<Line>, offset: nat, t: seq<Row>, r: Row)
    requires r in ScanLines(c, name, chunks, offset, t).rows
    ensures |RunningOffsets(chunks, offset)| == |chunks|
    ensures r in t || exists k | 0 <= k < |chunks| && c.decode(Stripped(chunks[k])).Some? ::
      r == RowOf(c.decode(Stripped(chunks[k])).value, name, RunningOffsets(chunks, offset)[k])
  {
    OffsetCount(chunks, offset);
    ScanRows(c, name, chunks, offset, t, r);
  }

  lemma {:induction false} ScanRows(c: Codec, name: string, chunks: seq<Line>, offset: nat, t: seq<Row>, r: Row)
    requires r in ScanLines(c, name, chunks, offset, t).rows
    ensures |RunningOffsets(chunks, offset)| == |chunks|
    ensures r in t || exists k | 0 <= k < |chunks| :: IsRowOf(c, name, chunks[k], RunningOffsets(chunks, offset)[k], r)
  {
    hide *;
    OffsetCount(chunks, offset);
    if chunks != [] {
      var rest, next := chunks[1..], offset + |Stripped(chunks[0])| + 1;
      var t' := ScanOne(c, name, chunks, offset, t, r);
      NextOffsets(chunks, offset);
      if r !in t && r !in t' {
        ScanRows(c, name, rest, next, t', r);
        var k :| 0 <= k < |rest| && IsRowOf(c, name, rest[k], RunningOffsets(rest, next)[k], r);
        assert IsRowOf(c, name, chunks[k + 1], RunningOffsets(chunks, offset)[k + 1], r);
      } else if r !in t {
        assert IsRowOf(c, name, chunks[0], RunningOffsets(chunks, offset)[0], r);
      }
    } else {
      ScanNothing(c, name, offset, t);
    }
  }

  lemma ScanNothing(c: Codec, name: string, offset: nat, t: seq<Row>)
    ensures ScanLines(c, name, [], offset, t) == Scan(t, true)
  {
  }

  lemma NextOffsets(chunks: seq<Line>, offset: nat)
    requires chunks != []
    ensures RunningOffsets(chunks, offset) == [offset] + RunningOffsets(chunks[1..], offset + |Stripped(chunks[0])| + 1)
  {
  }

  /** The table with which the scan goes on behind the first line. */
  lemma ScanOne(c: Codec, name: string, chunks: seq<Line>, offset: nat, t: seq<Row>, r: Row) returns (t': seq<Row>)
    requires chunks != [] && r in ScanLines(c, name, chunks, offset, t).rows
    ensures r in t || r in t' || r in ScanLines(c, name, chunks[1..], offset + |Stripped(chunks[0])| + 1, t').rows
    ensures r in t' && r !in t ==> IsRowOf(c, name, chunks[0], offset, r)
  {
    hide RowOf, Stripped, Blank, HasId;
    var e := c.decode(Stripped(chunks[0]));
    t' := t;
    if !Blank(Stripped(chunks[0])) && e.Some? && InsertRow(t, RowOf(e.value, name, offset)).Some? {
      t' := Placed(t, RowOf(e.value, name, offset));
      PlacedIn(t, RowOf(e.value, name, offset), r);
    }
  }

  lemma {:induction false} OffsetCount(chunks: seq<Line>, offset: nat)
    ensures |RunningOffsets(chunks, offset)| == |chunks|
  {
    hide Stripped;
    if chunks != [] { OffsetCount(chunks[1..], offset + |Stripped(chunks[0])| + 1); }
  }

  lemma {:induction false} PlacedIn(t: seq<Row>, row: Row, r: Row)
    ensures r in Placed(t, row) <==> r == row || r in t
  {
    if t != [] && !(row.id < t[0].id) { PlacedIn(t[1..], row, r); }
  }

  function ScanSegments(c: Codec, files: Dir, names: seq<string>, t: seq<Row>): Scan
    requires forall n | n in names :: n in files
  {
    if names == [] then Scan(t, true)
    else
      var s := ScanLines(c, names[0], Chunks(files[names[0]]), 0, t);
      if s.ok then ScanSegments(c, files, names[1..], s.rows) else s
  }

  /** The rows after a rebuild, and whether it succeeded. The rows present before are
      deleted first. */
  ghost function Rebuilt(c: Codec, files: Dir): Scan {
    ScanSegments(c, files, Sorted(Segments(files)), [])
  }
}
