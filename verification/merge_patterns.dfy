/** The merge pattern library: two tables, updated in place. */
module MergePatterns {
  import opened Prelude
  import opened PatternModel

  datatype PatternError = NotFound(id: nat)

  class MergePatternStore {
    var patterns: seq<Pattern>
    var instances: seq<Instance>

    ghost function State(): Store
      reads this
    {
      Store(patterns, instances)
    }

    ghost predicate Valid()
      reads this
    {
      Sound(State())
    }

    constructor ()
      ensures Valid() && State() == Store([], [])
    {
      patterns, instances := [], [];
    }

    method FindByKey(key: string) returns (found: Option<Pattern>, i: nat)
      ensures i == FindKey(patterns, key)
      ensures found == if i < |patterns| then Some(patterns[i]) else None
    {
      i := 0;
      while i < |patterns|
        invariant i <= |patterns| && FindKey(patterns, key) == i + FindKey(patterns[i..], key)
      {
        assert patterns[i..][1..] == patterns[i + 1..];
        if patterns[i].key == key {
          return Some(patterns[i]), i;
        }
        i := i + 1;
      }
      return None, i;
    }

    /** Sets the promotion flag of a row from its counters, unless a human has disabled it. */
    method UpdatePromotion(i: nat)
      requires i < |patterns|
      modifies `patterns
      ensures patterns == old(patterns)[i := Promoted(old(patterns)[i])]
    {
      var p := patterns[i];
      if p.disabled {
        return;
      }
      var shouldEnable := !p.disabled && p.instances > 10 && 10 * p.successes >= 9 * p.instances;
      patterns := patterns[i := p.(auto := shouldEnable)];
    }

    method RecordResolution(x: Conflict, wasAuto: bool) returns (p: Pattern)
      requires Valid()
      modifies this
      ensures Valid() && State() == Next(old(State()), Resolve(x, wasAuto))
      ensures p in patterns && p.key == ConflictKey(x)
    {
      hide Classify, Count, Standing, Sound, PatternType.AsStr;
      NextSound(State(), Resolve(x, wasAuto));
      var kind := Classify(x);
      var key := KeyOf(kind, x.level);
      var existing, i := FindByKey(key);
      ghost var before := patterns;
      match existing {
        case Some(row) =>
          patterns := patterns[i := row.(instances := row.instances + 1, successes := row.successes + 1)];
        case None =>
          patterns := patterns + [Pattern(|patterns| + 1, kind, key, 1, 1, false, false)];
      }
      instances := instances + [Instance(i + 1, x.id, wasAuto, false)];
      ghost var counted := patterns[i];
      UpdatePromotion(i);
      assert i < |before| ==> before[i := counted][i := Promoted(counted)] == before[i := Promoted(counted)];
      assert i == |before| ==> (before + [counted])[i := Promoted(counted)] == before + [Promoted(counted)];
      p := patterns[i];
    }

    method FindStanding(conflict: Uuid) returns (row: nat)
      ensures row <= |instances|
      ensures row < |instances| ==> RollsBack(State(), conflict, row)
      ensures row == |instances| ==> forall k: nat :: !RollsBack(State(), conflict, k)
    {
      row := 0;
      while row < |instances| && !(instances[row].conflict == conflict && !instances[row].rolledBack)
        invariant row <= |instances|
        invariant forall k: nat | k < row :: !RollsBack(State(), conflict, k)
      {
        row := row + 1;
      }
    }

    /** The first standing instance of the conflict is marked; without one nothing happens. */
    method RecordRollback(conflict: Uuid) returns (r: Option<Pattern>, ghost row: nat)
      requires Valid()
      modifies this
      ensures Valid() && Enabled(old(State()), Rollback(conflict, row))
      ensures State() == Next(old(State()), Rollback(conflict, row))
      ensures r.None? <==> forall x | x in old(instances) :: x.conflict == conflict ==> x.rolledBack
      ensures r.Some? ==> row < |old(instances)| && old(instances)[row].conflict == conflict
      ensures r.Some? ==> !old(instances)[row].rolledBack && instances[row].rolledBack
      ensures r.Some? ==> r.value in patterns && r.value.id == old(instances)[row].patternId
    {
      StandingOf(State(), conflict);
      hide Sound, Count, Standing, MeetsCriteria, RollsBack;
      var k := FindStanding(conflict);
      row := k;
      NextSound(State(), Rollback(conflict, row));
      if k == |instances| {
        return None, row;
      }
      assert 1 <= instances[k].patternId <= |patterns| by { OwnerExists(State(), k); }
      var id := instances[k].patternId;
      assert patterns[id - 1].id == id by { RowIds(State(), id); }
      instances := instances[k := instances[k].(rolledBack := true)];
      ghost var before := patterns;
      var p := patterns[id - 1];
      var fewer := p.(successes := if p.successes == 0 then 0 else p.successes - 1);
      patterns := patterns[id - 1 := fewer];
      UpdatePromotion(id - 1);
      assert before[id - 1 := fewer][id - 1 := Promoted(fewer)] == before[id - 1 := Promoted(fewer)];
      assert patterns[id - 1] in patterns;
      r := Some(patterns[id - 1]);
    }

    method DisablePattern(id: nat) returns (r: Result<Pattern, PatternError>)
      requires Valid()
      modifies this
      ensures Valid() && State() == Next(old(State()), Disable(id))
      ensures r == if 1 <= id <= |patterns| then Ok(patterns[id - 1]) else Err(NotFound(id))
    {
      NextSound(State(), Disable(id));
      if id == 0 || id > |patterns| {
        return Err(NotFound(id));
      }
      patterns := patterns[id - 1 := patterns[id - 1].(disabled := true, auto := false)];
      return Ok(patterns[id - 1]);
    }

    method EnablePattern(id: nat) returns (r: Result<Pattern, PatternError>)
      requires Valid()
      modifies this
      ensures Valid() && State() == Next(old(State()), Enable(id))
      ensures r == if 1 <= id <= |patterns| then Ok(patterns[id - 1]) else Err(NotFound(id))
    {
      NextSound(State(), Enable(id));
      if id == 0 || id > |patterns| {
        return Err(NotFound(id));
      }
      hide Sound, MeetsCriteria;
      ghost var before := patterns;
      var p := patterns[id - 1].(disabled := false);
      patterns := patterns[id - 1 := p];
      UpdatePromotion(id - 1);
      assert before[id - 1 := p][id - 1 := Promoted(p)] == before[id - 1 := Promoted(p)];
      return Ok(patterns[id - 1]);
    }

    /** A pattern is returned exactly when the library has one for the conflict that meets
        the promotion criteria. */
    method CheckAutoResolution(x: Conflict) returns (r: Option<Pattern>)
      requires Valid()
      ensures r == AutoPattern(State(), x)
      ensures r.Some? <==> exists p | p in patterns :: p.key == ConflictKey(x) && MeetsCriteria(p)
      ensures r.Some? ==> r.value in patterns && r.value.key == ConflictKey(x) && MeetsCriteria(r.value)
    {
      hide ConflictKey, Classify, Count, Standing;
      var found, i := FindByKey(ConflictKey(x));
      if found.Some? && found.value.auto {
        assert patterns[i] in patterns;
        return found;
      }
      forall p | p in patterns && p.key == ConflictKey(x) ensures !MeetsCriteria(p) {
        var k :| 0 <= k < |patterns| && patterns[k] == p;
      }
      return None;
    }
  }
}
