/** Overlap of two workspaces, and the set of workspaces tracked over a run. */
module ConflictModel {
  import opened Prelude
  import opened Ordering

  /** What a workspace writes: files, entities, and the entities its writes can affect. */
  datatype Scope = Scope(
    id: Uuid, intent: string, files: set<string>, entities: set<string>, blast: set<string>)

  datatype Level = NoOverlap | Low | Medium | High | Critical {
    function Rank(): nat {
      match this
      case NoOverlap => 0
      case Low => 1
      case Medium => 2
      case High => 3
      case Critical => 4
    }
  }

  datatype Overlap = Overlap(
    level: Level, yours: Uuid, other: Uuid, otherIntent: string, files: seq<string>, entities: seq<string>)

  function Shared(a: Scope, b: Scope): set<string> { a.entities * b.entities }

  /** Entities that one side writes inside the other side's blast radius without the other
      writing them too. */
  function Referential(a: Scope, b: Scope): set<string> {
    ((a.entities * b.blast) - b.entities) + ((b.entities * a.blast) - a.entities)
  }

  /** The levels in the order in which they are tried: one shared entity decides for Medium
      before the High level is looked at. */
  function LevelOf(a: Scope, b: Scope): Level {
    if |Shared(a, b)| > 1 then Critical
    else if Shared(a, b) != {} then Medium
    else if Referential(a, b) != {} then High
    else if a.files * b.files != {} then Low
    else NoOverlap
  }

  ghost function Classified(a: Scope, b: Scope): Overlap {
    var level := LevelOf(a, b);
    Overlap(level, a.id, b.id, b.intent,
            if level.NoOverlap? then [] else Sorted(a.files * b.files),
            match level
            case Critical => Sorted(Shared(a, b))
            case Medium => Sorted(Shared(a, b))
            case High => Sorted(Referential(a, b))
            case Low => []
            case NoOverlap => [])
  }

  /** Both workspaces are told the same level, files and entities. */
  lemma ClassifiedSymmetric(a: Scope, b: Scope)
    ensures Classified(a, b).level == Classified(b, a).level
    ensures Classified(a, b).files == Classified(b, a).files
    ensures Classified(a, b).entities == Classified(b, a).entities
  {
    SharedSymmetric(a, b);
    hide Sorted, Shared, Referential;
  }

  /** What one workspace is told about another, by what the two write and may affect: the files
      are those of both; the entities are those that both write or, if there are none, those that
      one writes and that may be affected by what the other, which does not write them, writes. */
  lemma ClassifiedExactly(a: Scope, b: Scope)
    ensures var r := Classified(a, b);
      && r.yours == a.id && r.other == b.id && r.otherIntent == b.intent
      && (forall f :: f in r.files <==> f in a.files && f in b.files)
      && (r.level == NoOverlap <==> r.files == [] && r.entities == [])
      && (r.level == Low <==> r.files != [] && r.entities == [])
      && (r.level == Critical <==>
        exists x, y :: x != y && x in a.entities && x in b.entities && y in a.entities && y in b.entities)
      && (forall x :: x in r.entities <==>
        if a.entities !! b.entities
        then (x in a.entities && x in b.blast) || (x in b.entities && x in a.blast)
        else x in a.entities && x in b.entities)
  {
    var shared := Shared(a, b);
    if |shared| > 1 {
      var x :| x in shared;
      assert shared == {x} + (shared - {x});
      var y :| y in shared - {x};
      assert x != y && x in a.entities && x in b.entities && y in a.entities && y in b.entities;
    }
    if x, y :| x != y && x in a.entities && x in b.entities && y in a.entities && y in b.entities {
      SubsetSize({x, y}, shared);
    }
    if shared == {} {
      forall x | x in a.entities ensures x !in b.entities { assert x !in shared; }
    }
    if shared == {} { assert Referential(a, b) == (a.entities * b.blast) + (b.entities * a.blast); }
    SortedEmpty(a.files * b.files);
    SortedEmpty(shared);
    SortedEmpty(Referential(a, b));
  }

  lemma {:induction false} SubsetSize(a: set<string>, b: set<string>)
    requires a <= b
    ensures |a| <= |b|
  {
    assert b == a + (b - a);
  }

  /** A report says each thing once: two reports of the same scopes have the same overlaps. */
  lemma {:induction false} ReportIsUnique(r: seq<Overlap>, r': seq<Overlap>, scopes: Scopes, id: Uuid)
    requires id in scopes && IsReport(r, scopes, id) && IsReport(r', scopes, id)
    ensures multiset(r) == multiset(r')
  {
    hide Classified;
    forall x ensures multiset(r)[x] == multiset(r')[x] {
      OnceOnly(r, x);
      OnceOnly(r', x);
      assert x in r <==> x in r';
    }
  }

  lemma {:induction false} OnceOnly(r: seq<Overlap>, x: Overlap)
    requires forall i, j | 0 <= i < j < |r| :: r[i].other != r[j].other
    ensures multiset(r)[x] == if x in r then 1 else 0
  {
    if r != [] {
      OnceOnly(r[1..], x);
      assert r == [r[0]] + r[1..];
      if x in r[1..] {
        var j :| 0 <= j < |r[1..]| && r[1..][j] == x;
        assert r[j + 1] == x;
      }
    }
  }

  lemma SharedSymmetric(a: Scope, b: Scope)
    ensures Shared(a, b) == Shared(b, a) && Referential(a, b) == Referential(b, a)
    ensures a.files * b.files == b.files * a.files
  {
  }

  /** Which levels apply at all. */
  predicate Applies(level: Level, a: Scope, b: Scope) {
    match level
    case Critical => |Shared(a, b)| > 1
    case High => Referential(a, b) != {}
    case Medium => Shared(a, b) != {}
    case Low => a.files * b.files != {}
    case NoOverlap => true
  }

  /** The level returned is the worst that applies, except when exactly one entity is shared
      and there is referential overlap besides. */
  lemma WorstLevelExactly(a: Scope, b: Scope)
    ensures Applies(LevelOf(a, b), a, b)
    ensures (forall level | Applies(level, a, b) :: level.Rank() <= LevelOf(a, b).Rank()) <==>
      !(|Shared(a, b)| == 1 && Referential(a, b) != {})
  {
    var s := Shared(a, b);
    assert |s| == 0 <==> s == {};
    if |s| == 1 && Referential(a, b) != {} {
      assert Applies(High, a, b) && LevelOf(a, b) == Medium;
    }
  }

  // ── The engine over a run ───────────────────────────────────────────────

  datatype Op = Update(id: Uuid, intent: string, paths: seq<string>) | Remove(id: Uuid)

  type Scopes = map<Uuid, Scope>

  /** An update replaces intent and files, and keeps the entity sets of a known workspace. */
  function Next(scopes: Scopes, op: Op): Scopes {
    match op
    case Update(id, intent, paths) =>
      var scope := if id in scopes then scopes[id] else Scope(id, intent, {}, {}, {});
      scopes[id := scope.(intent := intent, files := Elems(paths))]
    case Remove(id) => scopes - {id}
  }

  function Run(ops: seq<Op>): Scopes {
    if ops == [] then map[] else Next(Run(ops[..|ops| - 1]), ops[|ops| - 1])
  }

  /** The last thing a run says about a workspace. */
  function Latest(ops: seq<Op>, id: Uuid): Option<Op> {
    if ops == [] then None
    else if ops[|ops| - 1].id == id then Some(ops[|ops| - 1])
    else Latest(ops[..|ops| - 1], id)
  }

  /** The engine tracks exactly the workspaces whose last operation is an update, with the
      files and the intent of that update, and never any entities. */
  lemma {:induction false} EngineHoldsLatest(ops: seq<Op>, id: Uuid)
    ensures match Latest(ops, id)
      case Some(Update(_, intent, paths)) => id in Run(ops) && Run(ops)[id] == Scope(id, intent, Elems(paths), {}, {})
      case _ => id !in Run(ops)
  {
    if ops != [] { EngineHoldsLatest(ops[..|ops| - 1], id); }
  }

  /** What an update reports: one overlap for each other workspace that shares something,
      the most severe first. */
  ghost predicate IsReport(r: seq<Overlap>, scopes: Scopes, id: Uuid)
    requires id in scopes
  {
    && (forall x :: x in r <==>
      x.other in scopes && x.other != id && x == Classified(scopes[id], scopes[x.other]) && !x.level.NoOverlap?)
    && (forall i, j | 0 <= i < j < |r| :: r[i].other != r[j].other && r[i].level.Rank() >= r[j].level.Rank())
  }

  /** Nothing ever gives a tracked workspace entities, so the exception to the worst level does
      not occur: in any run, every level that an update reports is the worst that applies. */
  lemma ReportedLevelIsWorst(ops: seq<Op>, id: Uuid, r: seq<Overlap>, x: Overlap, level: Level)
    requires id in Run(ops) && IsReport(r, Run(ops), id) && x in r
    requires Applies(level, Run(ops)[id], Run(ops)[x.other])
    ensures level.Rank() <= x.level.Rank()
  {
    EngineHoldsLatest(ops, id);
    EngineHoldsLatest(ops, x.other);
    hide Run, Next;
    WorstLevelExactly(Run(ops)[id], Run(ops)[x.other]);
  }

  lemma LatestFrom(ops: seq<Op>, id: Uuid, i: nat)
    requires i < |ops| && ops[i].id == id
    requires forall k | i < k < |ops| :: ops[k].id != id
    ensures Latest(ops, id) == Some(ops[i])
  {
    if i < |ops| - 1 { LatestFrom(ops[..|ops| - 1], id, i); }
  }

  /** For any two workspaces that are live at the end of a run, with last updates at `i < j`:
      if they share files, the report of update `j` contained exactly those files, at the
      level Low that the engine gives to file overlap. */
  lemma {:induction false} LaterUpdaterIsTold(ops: seq<Op>, i: nat, j: nat, r: seq<Overlap>)
    requires i < j < |ops| && ops[i].Update? && ops[j].Update? && ops[i].id != ops[j].id
    requires forall k | i < k < |ops| :: ops[k].id != ops[i].id
    requires forall k | j < k < |ops| :: ops[k].id != ops[j].id
    ensures ops[i].id in Run(ops) && ops[j].id in Run(ops) && ops[j].id in Run(ops[..j + 1])
    ensures var mine, theirs := Run(ops)[ops[j].id], Run(ops)[ops[i].id];
      IsReport(r, Run(ops[..j + 1]), ops[j].id) ==>
        ((exists x | x in r :: x.other == ops[i].id) <==> mine.files * theirs.files != {})
        && (forall x | x in r && x.other == ops[i].id ::
          x == Overlap(Low, ops[j].id, ops[i].id, theirs.intent, Sorted(mine.files * theirs.files), []))
  {
    hide Run, Next;
    var early := ops[..j + 1];
    LatestFrom(ops, ops[i].id, i);
    LatestFrom(ops, ops[j].id, j);
    LatestFrom(early, ops[i].id, i);
    LatestFrom(early, ops[j].id, j);
    EngineHoldsLatest(ops, ops[i].id);
    EngineHoldsLatest(ops, ops[j].id);
    EngineHoldsLatest(early, ops[i].id);
    EngineHoldsLatest(early, ops[j].id);
    var mine, theirs := Run(ops)[ops[j].id], Run(ops)[ops[i].id];
    var x := Classified(mine, theirs);
    if IsReport(r, Run(early), ops[j].id) && mine.files * theirs.files != {} {
      assert x.other == ops[i].id && x in r;
    }
  }

}
