/** The conflict engine: live scopes of workspaces, and overlap checks on each update. */
module ConflictEngines {
  import opened Prelude
  import opened Ordering
  import opened ConflictModel

  predicate MoreSevere(a: Overlap, b: Overlap) { a.level.Rank() >= b.level.Rank() }

  /** `dedup` on a vector: of equal neighbours only the first stays. */
  function Dedup(xs: seq<string>): seq<string> {
    if |xs| <= 1 then xs
    else if xs[0] == xs[1] then Dedup(xs[1..])
    else [xs[0]] + Dedup(xs[1..])
  }

  /** Removing equal neighbours from a sorted vector leaves the sorted list of its elements. */
  lemma {:induction false} DedupSorted(xs: seq<string>)
    requires SortedBy(xs, Leq)
    ensures StrictlySorted(Dedup(xs))
    ensures forall x :: x in Dedup(xs) <==> x in xs
  {
    hide Leq;
    if |xs| > 1 {
      DedupSorted(xs[1..]);
      assert forall x :: x in xs <==> x == xs[0] || x in xs[1..];
      if xs[0] != xs[1] {
        forall x | x in Dedup(xs[1..]) ensures Leq(xs[0], x) && xs[0] != x {
          var k :| 1 <= k < |xs| && xs[k] == x;
          if x == xs[0] { LeqAntisymmetric(xs[0], xs[1]); }
        }
      } else {
        assert xs[1..][0] == xs[0];
      }
    }
  }

  /** Concatenates, sorts and removes equal neighbours. */
  method Merge(x: seq<string>, y: seq<string>, ghost union: set<string>) returns (r: seq<string>)
    requires forall e :: e in union <==> e in x || e in y
    ensures r == Sorted(union)
  {
    hide Leq, Sort;
    var both := Sort(x + y, Leq);
    LeqIsTotalPreorder();
    SortSorts(x + y, Leq);
    SortElements(x + y, Leq);
    DedupSorted(both);
    r := Dedup(both);
    StrictlySortedUnique(r, Sorted(union));
  }

  /** The overlap of two scopes. */
  method ClassifyOverlap(a: Scope, b: Scope) returns (r: Overlap)
    ensures r == Classified(a, b)
  {
    hide Leq, Sort;
    var overlapping := SortedElements(a.files * b.files);
    var shared := SortedElements(a.entities * b.entities);
    var aInB := SortedElements((a.entities * b.blast) - b.entities);
    var bInA := SortedElements((b.entities * a.blast) - a.entities);
    var referential := Merge(aInB, bInA, Referential(a, b));
    SortedSize(Shared(a, b));
    SortedEmpty(Referential(a, b));
    SortedEmpty(a.files * b.files);
    hide Sorted, StrictlySorted, SortedBy, Shared, Referential, Dedup;
    if |shared| > 1 {
      return Overlap(Critical, a.id, b.id, b.intent, overlapping, shared);
    }
    if shared != [] {
      return Overlap(Medium, a.id, b.id, b.intent, overlapping, shared);
    }
    if referential != [] {
      return Overlap(High, a.id, b.id, b.intent, overlapping, referential);
    }
    if overlapping != [] {
      return Overlap(Low, a.id, b.id, b.intent, overlapping, []);
    }
    return Overlap(NoOverlap, a.id, b.id, b.intent, [], []);
  }

  lemma SortedSize(s: set<string>)
    ensures |Sorted(s)| == |s|
  {
    var r := Sorted(s);
    StrictIsDistinct(r);
    assert s == set x | x in r;
  }

  lemma {:induction false} StrictIsDistinct(xs: seq<string>)
    requires StrictlySorted(xs)
    ensures |set x | x in xs| == |xs|
  {
    hide Leq;
    if xs != [] {
      StrictIsDistinct(xs[1..]);
      assert (set x | x in xs) == {xs[0]} + (set x | x in xs[1..]);
      assert xs[0] !in xs[1..];
    }
  }

  class ConflictEngine {
    var scopes: Scopes

    /** Each scope is stored under its own id. */
    ghost predicate Valid()
      reads this
    {
      forall id | id in scopes :: scopes[id].id == id
    }

    constructor ()
      ensures Valid() && scopes == Run([])
    {
      scopes := map[];
    }

    /** Replaces the workspace's files and reports every overlap, the most severe first. */
    method UpdateScope(id: Uuid, intent: string, paths: seq<string>) returns (results: seq<Overlap>)
      requires Valid()
      modifies this
      ensures Valid() && scopes == Next(old(scopes), Update(id, intent, paths))
      ensures IsReport(results, scopes, id)
      ensures id in old(scopes) ==>
        scopes[id].entities == old(scopes)[id].entities && scopes[id].blast == old(scopes)[id].blast
    {
      var scope := if id in scopes then scopes[id] else Scope(id, intent, {}, {}, {});
      var updated := scope.(intent := intent, files := Elems(paths));
      scopes := scopes[id := updated];
      var found := OverlapsOf(id);
      results := Sort(found, MoreSevere);
      assert TotalPreorder(MoreSevere);
      SortReport(found, scopes, id);
    }

    method OverlapsOf(id: Uuid) returns (found: seq<Overlap>)
      requires Valid() && id in scopes
      ensures forall i, j | 0 <= i < j < |found| :: found[i].other != found[j].other
      ensures forall x :: x in found <==>
        x.other in scopes && x.other != id && x == Classified(scopes[id], scopes[x.other]) && !x.level.NoOverlap?
    {
      hide Classified;
      found := [];
      var ids := Elements(scopes.Keys);
      for i := 0 to |ids|
        invariant forall a, b | 0 <= a < b < |found| :: found[a].other != found[b].other
        invariant forall x :: x in found <==>
          x.other in ids[..i] && x.other in scopes && x.other != id
          && x == Classified(scopes[id], scopes[x.other]) && !x.level.NoOverlap?
      {
        assert ids[..i + 1] == ids[..i] + [ids[i]];
        assert ids[i] !in ids[..i] && ids[i] in ids;
        if ids[i] != id {
          var r := ClassifyOverlap(scopes[id], scopes[ids[i]]);
          assert r.other == ids[i] by { OtherOf(scopes[id], scopes[ids[i]]); }
          if r.level != NoOverlap {
            found := found + [r];
          }
        }
      }
      assert ids[..|ids|] == ids;
    }

    method RemoveWorkspace(id: Uuid)
      requires Valid()
      modifies this
      ensures Valid() && scopes == Next(old(scopes), Remove(id))
    {
      scopes := scopes - {id};
    }
  }

  lemma OtherOf(a: Scope, b: Scope)
    ensures Classified(a, b).other == b.id
  {
  }

  lemma SortReport(found: seq<Overlap>, scopes: Scopes, id: Uuid)
    requires id in scopes
    requires forall i, j | 0 <= i < j < |found| :: found[i].other != found[j].other
    requires forall x :: x in found <==>
      x.other in scopes && x.other != id && x == Classified(scopes[id], scopes[x.other]) && !x.level.NoOverlap?
    ensures IsReport(Sort(found, MoreSevere), scopes, id)
  {
    hide Sort, Classified;
    assert TotalPreorder(MoreSevere);
    SortSorts(found, MoreSevere);
    SortElements(found, MoreSevere);
    var r := Sort(found, MoreSevere);
    forall i, j | 0 <= i < j < |r| ensures r[i].other != r[j].other {
      if r[i].other == r[j].other {
        assert r[i] in r && r[j] in r;
        assert r[i] == r[j];
        RepeatedCount(r, i, j);
        assert NoDuplicates(found);
        DistinctCount(found, r[i]);
      }
    }
  }
}
