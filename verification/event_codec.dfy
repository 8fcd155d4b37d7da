/**
 A serializer with the laws that the event log asks for: such serializers exist, so
 what is proved of the log is not proved of nothing. Events become lists of lists of
 numbers, and numbers are written in unary.
 */
module EventCodec {
  import opened Prelude
  import opened EventModel
  import opened LogLines

  const ONE: byte := 65
  const END_NUMBER: byte := 66
  const END_FIELD: byte := 67
  const END_EVENT: byte := 68

  function Codes(s: string): seq<nat> { seq(|s|, i requires 0 <= i < |s| => s[i] as nat) }

  function OptionCodes(o: Option<string>): seq<nat> {
    match o
    case None => []
    case Some(s) => [0] + Codes(s)
  }

  function ListCodes(l: seq<string>): seq<seq<nat>> { seq(|l|, i requires 0 <= i < |l| => Codes(l[i])) }

  function UuidCodes(l: seq<Uuid>): seq<seq<nat>> { seq(|l|, i requires 0 <= i < |l| => [l[i].bits]) }

  function SeverityCode(s: ConflictSeverity): nat {
    match s
    case Low => 0
    case Medium => 1
    case High => 2
  }

  /** The kind by its number, and its fields; a list comes last. */
  function Fields(k: EventKind): seq<seq<nat>> {
    match k
    case RepoInitialized(r, name) => [[0], [r.bits], Codes(name)]
    case VersionCreated(v, parent, intent) => [[1], Codes(v), OptionCodes(parent), Codes(intent)]
    case WorkspaceCreated(w, intent, base) => [[2], [w.bits], Codes(intent), Codes(base)]
    case WorkspaceSubmitted(w, summary) => [[3], [w.bits], Codes(summary)]
    case WorkspaceDiscarded(w, reason) => [[4], [w.bits], Codes(reason)]
    case EntityAdded(w, e) =>
      [[5], [w.bits], Codes(e.id), Codes(e.kind), Codes(e.name), Codes(e.qualifiedName), Codes(e.filePath)]
    case EntityModified(w, e, change) => [[6], [w.bits], Codes(e), Codes(change)]
    case EntityRemoved(w, e) => [[7], [w.bits], Codes(e)]
    case FileAdded(w, path, hash) => [[8], [w.bits], Codes(path), Codes(hash)]
    case FileModified(w, path, before, after) => [[9], [w.bits], Codes(path), Codes(before), Codes(after)]
    case FileRemoved(w, path) => [[10], [w.bits], Codes(path)]
    case MergeCompleted(w, v, n) => [[11], [w.bits], Codes(v), [n]]
    case MergeConflictDetected(w, c) =>
      [[12], [w.bits], [c.conflictId.bits], Codes(c.entityA), Codes(c.entityB), Codes(c.description), [SeverityCode(c.severity)]]
    case MergeConflictResolved(c, resolution, who) => [[13], [c.bits], Codes(resolution), Codes(who)]
    case RollbackCreated(target, v, filter) => [[14], Codes(target), Codes(v), OptionCodes(filter)]
    case IssueCreated(i, title, creator, priority) => [[15], [i.bits], Codes(title), Codes(creator), Codes(priority)]
    case IssueUpdated(i, changed) => [[16], [i.bits]] + ListCodes(changed)
    case IssueAssigned(i, agent) => [[17], [i.bits], Codes(agent)]
    case IssueLinkedToWorkspace(i, w) => [[18], [i.bits], [w.bits]]
    case IssueResolved(i, resolution, v) => [[19], [i.bits], Codes(resolution), OptionCodes(v)]
    case IssueClosed(i, resolution) => [[20], [i.bits], Codes(resolution)]
    case EscalationCreated(e, t, severity, workspaces, summary) =>
      [[21], [e.bits], Codes(t), Codes(severity), Codes(summary)] + ListCodes(workspaces)
    case EscalationResolved(e, resolution, who) => [[22], [e.bits], Codes(resolution), Codes(who)]
    case CommentCreated(i, c, author, t, parent, mentions) =>
      [[23], [i.bits], [c.bits], Codes(author), Codes(t), if parent.Some? then [parent.value.bits] else []]
      + UuidCodes(mentions)
    case RepoAgentSecretSet(r, key) => [[24], [r.bits], Codes(key)]
    case RepoAgentSecretDeleted(r, key) => [[25], [r.bits], Codes(key)]
  }

  lemma SameCodes(s: string, t: string)
    requires Codes(s) == Codes(t)
    ensures s == t
  {
    assert |Codes(s)| == |Codes(t)|;
    forall i | 0 <= i < |s| ensures s[i] == t[i] { assert Codes(s)[i] == Codes(t)[i]; }
  }

  lemma CodesInjective()
    ensures forall s, t :: Codes(s) == Codes(t) ==> s == t
    ensures forall s, t :: OptionCodes(s) == OptionCodes(t) ==> s == t
  {
    forall s, t | Codes(s) == Codes(t) ensures s == t { SameCodes(s, t); }
    forall s, t | OptionCodes(s) == OptionCodes(t) ensures s == t {
      if s.Some? && t.Some? {
        assert Codes(s.value) == OptionCodes(s)[1..] == OptionCodes(t)[1..] == Codes(t.value);
        SameCodes(s.value, t.value);
      }
    }
  }

  // ── And back ────────────────────────────────────────────────────────────

  ghost function Text(c: seq<nat>): string {
    if exists s :: Codes(s) == c then var s :| Codes(s) == c; s else ""
  }

  ghost function OptionText(c: seq<nat>): Option<string> { if c == [] then None else Some(Text(c[1..])) }

  ghost function TextList(l: seq<seq<nat>>): seq<string> { seq(|l|, i requires 0 <= i < |l| => Text(l[i])) }

  ghost function UuidList(l: seq<seq<nat>>): seq<Uuid> { seq(|l|, i requires 0 <= i < |l| => Uuid(First(l[i]))) }

  function First(c: seq<nat>): nat { if c == [] then 0 else c[0] }

  function At(f: seq<seq<nat>>, i: nat): seq<nat> { if i < |f| then f[i] else [] }

  function From(f: seq<seq<nat>>, i: nat): seq<seq<nat>> { if i <= |f| then f[i..] else [] }

  lemma TextsBack()
    ensures forall s :: Text(Codes(s)) == s
    ensures forall o :: OptionText(OptionCodes(o)) == o
  {
    CodesInjective();
    forall o ensures OptionText(OptionCodes(o)) == o {
      if o.Some? { assert OptionCodes(o)[1..] == Codes(o.value); }
    }
  }

  lemma ListsBack()
    ensures forall l :: TextList(ListCodes(l)) == l
    ensures forall l :: UuidList(UuidCodes(l)) == l
  {
    TextsBack();
  }

  ghost function KindOf(f: seq<seq<nat>>): EventKind {
    var u := Uuid(First(At(f, 1)));
    var v := Uuid(First(At(f, 2)));
    var tag := First(At(f, 0));
    if tag < 9 then FirstKinds(f, tag, u) else if tag < 17 then NextKinds(f, tag, u, v) else LastKinds(f, tag, u, v)
  }

  ghost function FirstKinds(f: seq<seq<nat>>, tag: nat, u: Uuid): EventKind {
    match tag
    case 0 => RepoInitialized(u, Text(At(f, 2)))
    case 1 => VersionCreated(Text(At(f, 1)), OptionText(At(f, 2)), Text(At(f, 3)))
    case 2 => WorkspaceCreated(u, Text(At(f, 2)), Text(At(f, 3)))
    case 3 => WorkspaceSubmitted(u, Text(At(f, 2)))
    case 4 => WorkspaceDiscarded(u, Text(At(f, 2)))
    case 5 => EntityAdded(u, EntitySummary(Text(At(f, 2)), Text(At(f, 3)), Text(At(f, 4)), Text(At(f, 5)), Text(At(f, 6))))
    case 6 => EntityModified(u, Text(At(f, 2)), Text(At(f, 3)))
    case 7 => EntityRemoved(u, Text(At(f, 2)))
    case _ => FileAdded(u, Text(At(f, 2)), Text(At(f, 3)))
  }

  ghost function NextKinds(f: seq<seq<nat>>, tag: nat, u: Uuid, v: Uuid): EventKind {
    match tag
    case 9 => FileModified(u, Text(At(f, 2)), Text(At(f, 3)), Text(At(f, 4)))
    case 10 => FileRemoved(u, Text(At(f, 2)))
    case 11 => MergeCompleted(u, Text(At(f, 2)), First(At(f, 3)))
    case 12 =>
      var severity := First(At(f, 6));
      MergeConflictDetected(u, ConflictInfo(v, Text(At(f, 3)), Text(At(f, 4)), Text(At(f, 5)),
        if severity == 0 then Low else if severity == 1 then Medium else High))
    case 13 => MergeConflictResolved(u, Text(At(f, 2)), Text(At(f, 3)))
    case 14 => RollbackCreated(Text(At(f, 1)), Text(At(f, 2)), OptionText(At(f, 3)))
    case 15 => IssueCreated(u, Text(At(f, 2)), Text(At(f, 3)), Text(At(f, 4)))
    case _ => IssueUpdated(u, TextList(From(f, 2)))
  }

  ghost function LastKinds(f: seq<seq<nat>>, tag: nat, u: Uuid, v: Uuid): EventKind {
    match tag
    case 17 => IssueAssigned(u, Text(At(f, 2)))
    case 18 => IssueLinkedToWorkspace(u, v)
    case 19 => IssueResolved(u, Text(At(f, 2)), OptionText(At(f, 3)))
    case 20 => IssueClosed(u, Text(At(f, 2)))
    case 21 => EscalationCreated(u, Text(At(f, 2)), Text(At(f, 3)), TextList(From(f, 5)), Text(At(f, 4)))
    case 22 => EscalationResolved(u, Text(At(f, 2)), Text(At(f, 3)))
    case 23 =>
      CommentCreated(u, v, Text(At(f, 3)), Text(At(f, 4)),
        if At(f, 5) == [] then None else Some(Uuid(First(At(f, 5)))), UuidList(From(f, 6)))
    case 24 => RepoAgentSecretSet(u, Text(At(f, 2)))
    case _ => RepoAgentSecretDeleted(u, Text(At(f, 2)))
  }

  lemma KindBack(k: EventKind)
    ensures KindOf(Fields(k)) == k
  {
    hide *;
    if k.RepoInitialized? || k.VersionCreated? || k.RepoAgentSecretSet? || k.RepoAgentSecretDeleted? { RepoOrVersionBack(k); }
    else if k.WorkspaceCreated? || k.WorkspaceSubmitted? || k.WorkspaceDiscarded? || k.MergeCompleted? { WorkspaceBack(k); }
    else if k.EntityAdded? || k.EntityModified? || k.EntityRemoved? { EntityBack(k); }
    else if k.FileAdded? || k.FileModified? || k.FileRemoved? { FileBack(k); }
    else if k.MergeConflictDetected? || k.MergeConflictResolved? || k.RollbackCreated? { ConflictBack(k); }
    else if k.IssueCreated? || k.IssueAssigned? || k.IssueLinkedToWorkspace? { IssueBack(k); }
    else if k.IssueResolved? || k.IssueClosed? { ClosedIssueBack(k); }
    else if k.IssueUpdated? || k.EscalationCreated? { ListedBack(k); }
    else { OtherBack(k); }
  }

  lemma RepoOrVersionBack(k: EventKind)
    requires k.RepoInitialized? || k.VersionCreated? || k.RepoAgentSecretSet? || k.RepoAgentSecretDeleted?
    ensures KindOf(Fields(k)) == k
  {
    TextsBack();
    hide Codes, OptionCodes, ListCodes, UuidCodes, Text, OptionText, TextList, UuidList;
  }

  lemma WorkspaceBack(k: EventKind)
    requires k.WorkspaceCreated? || k.WorkspaceSubmitted? || k.WorkspaceDiscarded? || k.MergeCompleted?
    ensures KindOf(Fields(k)) == k
  {
    TextsBack();
    hide Codes, OptionCodes, ListCodes, UuidCodes, Text, OptionText, TextList, UuidList;
  }

  lemma EntityBack(k: EventKind)
    requires k.EntityAdded? || k.EntityModified? || k.EntityRemoved?
    ensures KindOf(Fields(k)) == k
  {
    TextsBack();
    hide Codes, OptionCodes, ListCodes, UuidCodes, Text, OptionText, TextList, UuidList;
  }

  lemma FileBack(k: EventKind)
    requires k.FileAdded? || k.FileModified? || k.FileRemoved?
    ensures KindOf(Fields(k)) == k
  {
    TextsBack();
    hide Codes, OptionCodes, ListCodes, UuidCodes, Text, OptionText, TextList, UuidList;
  }

  lemma ConflictBack(k: EventKind)
    requires k.MergeConflictDetected? || k.MergeConflictResolved? || k.RollbackCreated?
    ensures KindOf(Fields(k)) == k
  {
    TextsBack();
    hide Codes, OptionCodes, ListCodes, UuidCodes, Text, OptionText, TextList, UuidList;
  }

  lemma IssueBack(k: EventKind)
    requires k.IssueCreated? || k.IssueAssigned? || k.IssueLinkedToWorkspace?
    ensures KindOf(Fields(k)) == k
  {
    TextsBack();
    hide Codes, OptionCodes, ListCodes, UuidCodes, Text, OptionText, TextList, UuidList;
  }

  lemma ClosedIssueBack(k: EventKind)
    requires k.IssueResolved? || k.IssueClosed?
    ensures KindOf(Fields(k)) == k
  {
    TextsBack();
    hide Codes, OptionCodes, ListCodes, UuidCodes, Text, OptionText, TextList, UuidList;
  }

  lemma ListedBack(k: EventKind)
    requires k.IssueUpdated? || k.EscalationCreated?
    ensures KindOf(Fields(k)) == k
  {
    TextsBack();
    ListsBack();
    hide Codes, OptionCodes, ListCodes, UuidCodes, Text, OptionText, TextList, UuidList;
    if k.IssueUpdated? { assert From(Fields(k), 2) == ListCodes(k.fieldsChanged); }
    if k.EscalationCreated? { assert From(Fields(k), 5) == ListCodes(k.workspaceIds); }
  }

  lemma OtherBack(k: EventKind)
    requires k.EscalationResolved? || k.CommentCreated?
    ensures KindOf(Fields(k)) == k
  {
    TextsBack();
    ListsBack();
    hide Codes, OptionCodes, ListCodes, UuidCodes, Text, OptionText, TextList, UuidList;
    if k.CommentCreated? { assert From(Fields(k), 6) == UuidCodes(k.mentions); }
  }

  // ── Numbers as bytes ────────────────────────────────────────────────────

  function Number(n: nat): seq<byte> { if n == 0 then [END_NUMBER] else [ONE] + Number(n - 1) }

  function Field(f: seq<nat>): seq<byte> {
    if f == [] then [END_FIELD] else Number(f[0]) + Field(f[1..])
  }

  function AllFields(fs: seq<seq<nat>>): seq<byte> {
    if fs == [] then [END_EVENT] else Field(fs[0]) + AllFields(fs[1..])
  }

  lemma {:induction false} NumberSplits(a: nat, x: seq<byte>, b: nat, y: seq<byte>)
    requires Number(a) + x == Number(b) + y
    ensures a == b && x == y
  {
    assert (Number(a) + x)[0] == (if a == 0 then END_NUMBER else ONE);
    assert (Number(b) + y)[0] == (if b == 0 then END_NUMBER else ONE);
    if a == 0 {
      assert x == (Number(a) + x)[1..] && y == (Number(b) + y)[1..];
    } else {
      assert Number(a - 1) + x == (Number(a) + x)[1..];
      assert Number(b - 1) + y == (Number(b) + y)[1..];
      NumberSplits(a - 1, x, b - 1, y);
    }
  }

  lemma FieldHead(f: seq<nat>, x: seq<byte>)
    ensures Field(f) + x != [] && ((Field(f) + x)[0] == END_FIELD <==> f == [])
    ensures (Field(f) + x)[0] in {ONE, END_NUMBER, END_FIELD}
    ensures f != [] ==> Field(f) + x == Number(f[0]) + (Field(f[1..]) + x)
  {
  }

  lemma {:induction false} FieldSplits(f: seq<nat>, x: seq<byte>, g: seq<nat>, y: seq<byte>)
    requires Field(f) + x == Field(g) + y
    ensures f == g && x == y
    decreases |f|
  {
    FieldHead(f, x);
    FieldHead(g, y);
    if f == [] {
      assert x == (Field(f) + x)[1..] && y == (Field(g) + y)[1..];
    } else {
      NumberSplits(f[0], Field(f[1..]) + x, g[0], Field(g[1..]) + y);
      FieldSplits(f[1..], x, g[1..], y);
      assert f == [f[0]] + f[1..] && g == [g[0]] + g[1..];
    }
  }

  lemma {:induction false} AllFieldsInjective(fs: seq<seq<nat>>, gs: seq<seq<nat>>)
    requires AllFields(fs) == AllFields(gs)
    ensures fs == gs
  {
    if fs != [] { FieldHead(fs[0], AllFields(fs[1..])); }
    if gs != [] { FieldHead(gs[0], AllFields(gs[1..])); }
    if fs != [] && gs != [] {
      FieldSplits(fs[0], AllFields(fs[1..]), gs[0], AllFields(gs[1..]));
      AllFieldsInjective(fs[1..], gs[1..]);
      assert fs == [fs[0]] + fs[1..] && gs == [gs[0]] + gs[1..];
    }
  }

  lemma {:induction false} NumberBytes(n: nat)
    ensures forall b | b in Number(n) :: 65 <= b <= 68
  {
    if n > 0 { NumberBytes(n - 1); }
  }

  lemma {:induction false} FieldBytes(f: seq<nat>)
    ensures forall b | b in Field(f) :: 65 <= b <= 68
  {
    if f != [] {
      NumberBytes(f[0]);
      FieldBytes(f[1..]);
    }
  }

  lemma {:induction false} AllFieldsClean(fs: seq<seq<nat>>)
    ensures AllFields(fs) != [] && forall b | b in AllFields(fs) :: 65 <= b <= 68
    ensures Clean(AllFields(fs))
  {
    if fs != [] {
      FieldBytes(fs[0]);
      AllFieldsClean(fs[1..]);
    }
    assert AllFields(fs)[|AllFields(fs)| - 1] in AllFields(fs);
  }

  // ── Events ──────────────────────────────────────────────────────────────

  function EventFields(e: Event): seq<seq<nat>> {
    [[e.id], if e.timestamp < 0 then [1, -e.timestamp] else [0, e.timestamp]] + Fields(e.kind)
  }

  function Encoded(e: Event): Line { AllFields(EventFields(e)) }

  lemma EncodedInjective(d: Event, e: Event)
    requires Encoded(d) == Encoded(e)
    ensures d == e
  {
    hide Fields;
    AllFieldsInjective(EventFields(d), EventFields(e));
    var f, g := EventFields(d), EventFields(e);
    assert f[0] == g[0] && f[1] == g[1];
    assert d.id == f[0][0] == g[0][0] == e.id;
    assert f[1][0] == g[1][0] && f[1][1] == g[1][1];
    SameRest(f[..2], Fields(d.kind), g[..2], Fields(e.kind));
    KindBack(d.kind);
    KindBack(e.kind);
  }

  lemma SameRest(a: seq<seq<nat>>, x: seq<seq<nat>>, b: seq<seq<nat>>, y: seq<seq<nat>>)
    requires |a| == |b| && a + x == b + y
    ensures x == y
  {
    assert x == (a + x)[|a|..] && y == (b + y)[|b|..];
  }

  ghost function Decoded(l: Line): Option<Event> {
    if exists e :: Encoded(e) == l then var e :| Encoded(e) == l; Some(e) else None
  }

  /** There is a serializer with the laws that the log asks for. */
  lemma LawfulCodecExists()
    ensures exists c: Codec :: c.Lawful()
  {
    hide EventFields, AllFields;
    var c := Codec(e => Encoded(e), l => Decoded(l));
    forall e ensures c.decode(c.encode(e)) == Some(e) && Clean(c.encode(e)) {
      AllFieldsClean(EventFields(e));
      var d :| Encoded(d) == Encoded(e) && Decoded(Encoded(e)) == Some(d);
      EncodedInjective(d, e);
    }
    assert c.Lawful();
  }
}
