/**
 Learned merge patterns: counters of recurring conflicts, a promotion rule for
 resolving them automatically, and a human override. The rate comparison
 `success_rate >= 0.90` is the exact one between integers.
 */
module PatternModel {
  import opened Prelude

  datatype PatternType =
    | TwoAgentsAddImports
    | RenameWithStaleReference
    | TwoAgentsModifySameBody
    | TwoAgentsModifySameStruct
    | TwoAgentsAddMethods
    | ConcurrentTextualModification
    | Generic
  {
    function AsStr(): string {
      match this
      case TwoAgentsAddImports => "two_agents_add_imports"
      case RenameWithStaleReference => "rename_with_stale_reference"
      case TwoAgentsModifySameBody => "two_agents_modify_same_body"
      case TwoAgentsModifySameStruct => "two_agents_modify_same_struct"
      case TwoAgentsAddMethods => "two_agents_add_methods"
      case ConcurrentTextualModification => "concurrent_textual_modification"
      case Generic => "generic"
    }
  }

  type Level = n: nat | n < 256

  /** A conflict as far as classification looks at it. */
  datatype Conflict = Conflict(id: Uuid, level: Level, description: string)

  predicate Contains(s: string, t: string) { t <= s || (s != "" && Contains(s[1..], t)) }

  /** Lower case of ASCII letters. */
  function Lower(s: string): string {
    seq(|s|, i requires 0 <= i < |s| => if 'A' <= s[i] <= 'Z' then s[i] + 32 as char else s[i])
  }

  /** The letters of a lower-case word stand at `i`, each in either case. */
  predicate SpelledAt(d: string, i: nat, word: string) {
    i + |word| <= |d| && forall k | 0 <= k < |word| ::
      d[i + k] == word[k] || ('A' <= d[i + k] <= 'Z' && d[i + k] + 32 as char == word[k])
  }

  /** A word stands somewhere in a description, in either case. */
  ghost predicate Mentions(d: string, word: string) { exists i :: SpelledAt(d, i, word) }

  function Classify(x: Conflict): PatternType {
    var d := Lower(x.description);
    if x.level == 1 then ConcurrentTextualModification
    else if Contains(d, "rename") || Contains(d, "stale") || Contains(d, "old name") then RenameWithStaleReference
    else if Contains(d, "import") || Contains(d, "use statement") || Contains(d, "use decl") then TwoAgentsAddImports
    else if Contains(d, "struct") || Contains(d, "field") then TwoAgentsModifySameStruct
    else if Contains(d, "method") || Contains(d, "impl") || Contains(d, "associated") then TwoAgentsAddMethods
    else if x.level == 3 || Contains(d, "function") || Contains(d, "body") || Contains(d, "fn ") then TwoAgentsModifySameBody
    else Generic
  }

  predicate StandsAt(s: string, i: nat, t: string) { i + |t| <= |s| && s[i..i + |t|] == t }

  lemma {:induction false} ContainsAt(s: string, t: string)
    ensures Contains(s, t) <==> exists i :: StandsAt(s, i, t)
  {
    if t <= s {
      assert StandsAt(s, 0, t);
    } else if s != "" {
      ContainsAt(s[1..], t);
      if i: nat :| StandsAt(s[1..], i, t) {
        assert s[i + 1..i + 1 + |t|] == s[1..][i..i + |t|];
        assert StandsAt(s, i + 1, t);
      }
      if i: nat :| StandsAt(s, i, t) {
        assert i > 0 && s[1..][i - 1..i - 1 + |t|] == s[i..i + |t|];
        assert StandsAt(s[1..], i - 1, t);
      }
    }
  }

  lemma MentionsExactly(d: string, word: string)
    requires forall c | c in word :: !('A' <= c <= 'Z')
    ensures Contains(Lower(d), word) <==> Mentions(d, word)
  {
    hide Contains;
    ContainsAt(Lower(d), word);
    forall i: nat ensures StandsAt(Lower(d), i, word) <==> SpelledAt(d, i, word) { LowerSpells(d, i, word); }
  }

  lemma LowerSpells(d: string, i: nat, word: string)
    requires forall c | c in word :: !('A' <= c <= 'Z')
    ensures StandsAt(Lower(d), i, word) <==> SpelledAt(d, i, word)
  {
    if StandsAt(Lower(d), i, word) {
      forall k | 0 <= k < |word| ensures Lower(d)[i + k] == word[k] {
        assert Lower(d)[i..i + |word|][k] == Lower(d)[i + k];
      }
    }
    if SpelledAt(d, i, word) {
      forall k | 0 <= k < |word| ensures Lower(d)[i + k] == word[k] { assert word[k] in word; }
      assert Lower(d)[i..i + |word|] == word;
    }
  }

  /** A conflict's type: level 1 comes first, then the words of its description, in either case,
      renames before imports before structs before methods, then level 3 or a function's words. */
  lemma ClassifiedByWords(x: Conflict)
    ensures var d := x.description;
      var rename := Mentions(d, "rename") || Mentions(d, "stale") || Mentions(d, "old name");
      var imports := Mentions(d, "import") || Mentions(d, "use statement") || Mentions(d, "use decl");
      var struct := Mentions(d, "struct") || Mentions(d, "field");
      var methods := Mentions(d, "method") || Mentions(d, "impl") || Mentions(d, "associated");
      var code := x.level == 3 || Mentions(d, "function") || Mentions(d, "body") || Mentions(d, "fn ");
      && (Classify(x) == ConcurrentTextualModification <==> x.level == 1)
      && (Classify(x) == RenameWithStaleReference <==> x.level != 1 && rename)
      && (Classify(x) == TwoAgentsAddImports <==> x.level != 1 && !rename && imports)
      && (Classify(x) == TwoAgentsModifySameStruct <==> x.level != 1 && !rename && !imports && struct)
      && (Classify(x) == TwoAgentsAddMethods <==> x.level != 1 && !rename && !imports && !struct && methods)
      && (Classify(x) == TwoAgentsModifySameBody <==>
        x.level != 1 && !rename && !imports && !struct && !methods && code)
  {
    hide Contains, Lower, Mentions;
    MentionsExactly(x.description, "rename");
    MentionsExactly(x.description, "stale");
    MentionsExactly(x.description, "old name");
    MentionsExactly(x.description, "import");
    MentionsExactly(x.description, "use statement");
    MentionsExactly(x.description, "use decl");
    MentionsExactly(x.description, "struct");
    MentionsExactly(x.description, "field");
    MentionsExactly(x.description, "method");
    MentionsExactly(x.description, "impl");
    MentionsExactly(x.description, "associated");
    MentionsExactly(x.description, "function");
    MentionsExactly(x.description, "body");
    MentionsExactly(x.description, "fn ");
  }

  /** What is hashed for a pattern: the name of its type, then the level as one byte. The
      hash itself is taken to be injective. */
  function KeyOf(t: PatternType, level: Level): string { t.AsStr() + [level as char] }

  function ConflictKey(x: Conflict): string { KeyOf(Classify(x), x.level) }

  lemma NamesDiffer(t: PatternType, u: PatternType)
    ensures t.AsStr() == u.AsStr() <==> t == u
  {
  }

  /** Two conflicts share a library entry exactly when their type and their level are the same. */
  lemma SameEntryExactly(x: Conflict, y: Conflict)
    ensures ConflictKey(x) == ConflictKey(y) <==> Classify(x) == Classify(y) && x.level == y.level
  {
    hide Classify, PatternType.AsStr;
    var s, t := ConflictKey(x), ConflictKey(y);
    if s == t {
      assert s[..|s| - 1] == Classify(x).AsStr() && t[..|t| - 1] == Classify(y).AsStr();
      assert s[|s| - 1] == x.level as char && t[|t| - 1] == y.level as char;
      NamesDiffer(Classify(x), Classify(y));
    }
  }

  // ── The store ───────────────────────────────────────────────────────────

  datatype Pattern = Pattern(
    id: nat, kind: PatternType, key: string, instances: nat, successes: nat, auto: bool, disabled: bool)

  datatype Instance = Instance(patternId: nat, conflict: Uuid, auto: bool, rolledBack: bool)

  /** Rows are never deleted, so the row with id n is the n-th one. */
  datatype Store = Store(patterns: seq<Pattern>, instances: seq<Instance>)

  predicate MeetsCriteria(p: Pattern) {
    !p.disabled && p.instances > 10 && 10 * p.successes >= 9 * p.instances
  }

  /** Position of the row with a key, or the length. */
  function FindKey(ps: seq<Pattern>, key: string): (i: nat)
    ensures i <= |ps| && (i < |ps| ==> ps[i].key == key)
    ensures forall j | 0 <= j < i :: ps[j].key != key
  {
    if ps == [] || ps[0].key == key then 0 else 1 + FindKey(ps[1..], key)
  }

  function Promoted(p: Pattern): Pattern {
    if p.disabled then p else p.(auto := MeetsCriteria(p))
  }

  datatype Step =
    | Resolve(conflict: Conflict, auto: bool)
    | Rollback(conflictId: Uuid, row: nat)
    | Disable(patternId: nat)
    | Enable(patternId: nat)

  predicate RollsBack(s: Store, conflict: Uuid, row: nat) {
    row < |s.instances| && s.instances[row].conflict == conflict && !s.instances[row].rolledBack
  }

  /** A rollback takes any instance of the conflict that is not rolled back; `row` says which. */
  ghost predicate Enabled(s: Store, step: Step) {
    step.Rollback? ==>
      RollsBack(s, step.conflictId, step.row) || forall row: nat :: !RollsBack(s, step.conflictId, row)
  }

  function Resolved(s: Store, x: Conflict, auto: bool): Store {
    var i := FindKey(s.patterns, ConflictKey(x));
    var p := if i < |s.patterns|
             then s.patterns[i].(instances := s.patterns[i].instances + 1, successes := s.patterns[i].successes + 1)
             else Pattern(i + 1, Classify(x), ConflictKey(x), 1, 1, false, false);
    Store(if i < |s.patterns| then s.patterns[i := Promoted(p)] else s.patterns + [Promoted(p)],
          s.instances + [Instance(i + 1, x.id, auto, false)])
  }

  function RolledBack(s: Store, row: nat): Store
    requires row < |s.instances|
  {
    var marked := s.instances[row := s.instances[row].(rolledBack := true)];
    var id := s.instances[row].patternId;
    if 1 <= id <= |s.patterns| then
      var p := s.patterns[id - 1];
      var fewer := p.(successes := if p.successes == 0 then 0 else p.successes - 1);
      Store(s.patterns[id - 1 := Promoted(fewer)], marked)
    else Store(s.patterns, marked)
  }

  function Next(s: Store, step: Step): Store {
    match step
    case Resolve(x, auto) => Resolved(s, x, auto)
    case Rollback(conflict, row) => if RollsBack(s, conflict, row) then RolledBack(s, row) else s
    case Disable(id) =>
      if 1 <= id <= |s.patterns| then s.(patterns := s.patterns[id - 1 := s.patterns[id - 1].(disabled := true, auto := false)])
      else s
    case Enable(id) =>
      if 1 <= id <= |s.patterns| then s.(patterns := s.patterns[id - 1 := Promoted(s.patterns[id - 1].(disabled := false))])
      else s
  }

  /** The pattern that resolves a conflict automatically, if there is one. */
  function AutoPattern(s: Store, x: Conflict): Option<Pattern> {
    var i := FindKey(s.patterns, ConflictKey(x));
    if i < |s.patterns| && s.patterns[i].auto then Some(s.patterns[i]) else None
  }

  // ── Conservation ────────────────────────────────────────────────────────

  /** How many instances a pattern has, and how many of them stand. */
  function Count(xs: seq<Instance>, id: nat): nat {
    if xs == [] then 0 else Count(xs[..|xs| - 1], id) + if xs[|xs| - 1].patternId == id then 1 else 0
  }

  function Standing(xs: seq<Instance>, id: nat): nat {
    if xs == [] then 0
    else Standing(xs[..|xs| - 1], id) + if xs[|xs| - 1].patternId == id && !xs[|xs| - 1].rolledBack then 1 else 0
  }

  lemma {:induction false} CountUpdate(xs: seq<Instance>, row: nat, id: nat)
    requires row < |xs| && !xs[row].rolledBack
    ensures var ys := xs[row := xs[row].(rolledBack := true)];
      && Count(ys, id) == Count(xs, id)
      && Standing(xs, id) == Standing(ys, id) + if xs[row].patternId == id then 1 else 0
  {
    var ys := xs[row := xs[row].(rolledBack := true)];
    var n := |xs| - 1;
    if row == n {
      assert ys[..n] == xs[..n];
    } else {
      assert ys[..n] == xs[..n][row := xs[..n][row].(rolledBack := true)];
      CountUpdate(xs[..n], row, id);
    }
  }

  /** The counters tell how many instances were recorded and how many stand, and automatic
      resolution is on exactly when the rule says so. */
  ghost predicate Sound(s: Store) {
    && (forall i | 0 <= i < |s.patterns| ::
      && s.patterns[i].id == i + 1
      && s.patterns[i].instances == Count(s.instances, i + 1)
      && s.patterns[i].successes == Standing(s.instances, i + 1)
      && (s.patterns[i].auto <==> MeetsCriteria(s.patterns[i])))
    && (forall i, j | 0 <= i < j < |s.patterns| :: s.patterns[i].key != s.patterns[j].key)
    && (forall x | x in s.instances :: 1 <= x.patternId <= |s.patterns|)
  }

  lemma {:induction false} CountNone(xs: seq<Instance>, id: nat)
    requires forall x | x in xs :: x.patternId != id
    ensures Count(xs, id) == 0 && Standing(xs, id) == 0
  {
    if xs != [] {
      assert xs[|xs| - 1] in xs && forall x | x in xs[..|xs| - 1] :: x in xs;
      CountNone(xs[..|xs| - 1], id);
    }
  }

  lemma {:induction false} StandingBound(xs: seq<Instance>, id: nat)
    ensures Standing(xs, id) <= Count(xs, id)
  {
    if xs != [] { StandingBound(xs[..|xs| - 1], id); }
  }

  lemma CountSnoc(xs: seq<Instance>, x: Instance, id: nat)
    ensures Count(xs + [x], id) == Count(xs, id) + if x.patternId == id then 1 else 0
    ensures Standing(xs + [x], id) == Standing(xs, id) + if x.patternId == id && !x.rolledBack then 1 else 0
  {
  }

  lemma ResolveSound(s: Store, x: Conflict, auto: bool)
    requires Sound(s)
    ensures Sound(Resolved(s, x, auto))
  {
    hide ConflictKey, Classify, Count, Standing;
    var i := FindKey(s.patterns, ConflictKey(x));
    var row := Instance(i + 1, x.id, auto, false);
    forall id { CountSnoc(s.instances, row, id); }
    if i == |s.patterns| {
      CountNone(s.instances, i + 1);
    }
  }

  /** A rollback counts down a counter that is not zero: the floor is never reached. */
  lemma RollbackSound(s: Store, row: nat)
    requires Sound(s) && row < |s.instances| && !s.instances[row].rolledBack
    ensures Sound(RolledBack(s, row)) && 1 <= s.instances[row].patternId <= |s.patterns|
    ensures s.patterns[s.instances[row].patternId - 1].successes > 0
  {
    hide Count, Standing;
    assert s.instances[row] in s.instances;
    var id := s.instances[row].patternId;
    var marked := s.instances[row := s.instances[row].(rolledBack := true)];
    forall k { CountUpdate(s.instances, row, k); }
    forall x | x in marked ensures 1 <= x.patternId <= |s.patterns| {
      var k :| 0 <= k < |marked| && marked[k] == x;
      assert s.instances[k] in s.instances;
    }
    assert s.patterns[id - 1].successes == Standing(s.instances, id);
  }

  lemma NextSound(s: Store, step: Step)
    requires Sound(s)
    ensures Sound(Next(s, step))
  {
    hide Count, Standing, Resolved, RolledBack;
    match step
    case Resolve(x, auto) => ResolveSound(s, x, auto);
    case Rollback(conflict, row) => if RollsBack(s, conflict, row) { RollbackSound(s, row); }
    case Disable(_) =>
    case Enable(_) =>
  }

  // ── Runs ────────────────────────────────────────────────────────────────

  function Run(s: Store, steps: seq<Step>): Store {
    if steps == [] then s else Next(Run(s, steps[..|steps| - 1]), steps[|steps| - 1])
  }

  /** In every reachable store the counters agree with the recorded instances, and a pattern
      is promoted exactly when it is not disabled, has more than ten instances, and at most
      one in ten of them has been rolled back. */
  lemma {:induction false} RunSound(steps: seq<Step>)
    ensures var s := Run(Store([], []), steps);
      && Sound(s)
      && forall i | 0 <= i < |s.patterns| ::
        && s.patterns[i].successes <= s.patterns[i].instances
        && (s.patterns[i].auto <==>
          && !s.patterns[i].disabled && s.patterns[i].instances > 10
          && s.patterns[i].instances - s.patterns[i].successes <= s.patterns[i].instances / 10)
  {
    hide Next, Count, Standing;
    if steps != [] {
      RunSound(steps[..|steps| - 1]);
      NextSound(Run(Store([], []), steps[..|steps| - 1]), steps[|steps| - 1]);
    }
    var s := Run(Store([], []), steps);
    forall i | 0 <= i < |s.patterns| ensures s.patterns[i].successes <= s.patterns[i].instances {
      StandingBound(s.instances, i + 1);
    }
  }

  function TotalInstances(ps: seq<Pattern>): nat {
    if ps == [] then 0 else TotalInstances(ps[..|ps| - 1]) + ps[|ps| - 1].instances
  }

  lemma {:induction false} TotalIsCounted(ps: seq<Pattern>, xs: seq<Instance>)
    requires forall i | 0 <= i < |ps| :: ps[i].instances == Count(xs, i + 1)
    requires forall x | x in xs :: 1 <= x.patternId <= |ps|
    ensures TotalInstances(ps) == |xs|
    decreases |xs|, |ps|
  {
    if xs == [] {
      if ps != [] { TotalIsCounted(ps[..|ps| - 1], xs); }
    } else {
      var n, x := |xs| - 1, xs[|xs| - 1];
      assert x in xs && forall y | y in xs[..n] :: y in xs;
      var id := x.patternId;
      var fewer := ps[id - 1 := ps[id - 1].(instances := ps[id - 1].instances - 1)];
      TotalIsCounted(fewer, xs[..n]);
      TotalUpdate(ps, id - 1);
    }
  }

  lemma {:induction false} TotalUpdate(ps: seq<Pattern>, i: nat)
    requires i < |ps| && ps[i].instances > 0
    ensures TotalInstances(ps) == TotalInstances(ps[i := ps[i].(instances := ps[i].instances - 1)]) + 1
  {
    var qs := ps[i := ps[i].(instances := ps[i].instances - 1)];
    var n := |ps| - 1;
    if i == n {
      assert qs[..n] == ps[..n];
    } else {
      assert qs[..n] == ps[..n][i := ps[..n][i].(instances := ps[..n][i].instances - 1)];
      TotalUpdate(ps[..n], i);
    }
  }

  /** The instance counts of all patterns add up to the recorded instances. */
  lemma InstancesConserved(steps: seq<Step>)
    ensures TotalInstances(Run(Store([], []), steps).patterns) == |Run(Store([], []), steps).instances|
  {
    RunSound(steps);
    var s := Run(Store([], []), steps);
    TotalIsCounted(s.patterns, s.instances);
  }

  // ── Demotion ────────────────────────────────────────────────────────────

  /** `steps` rolls back instances of the pattern `id`, one each. */
  ghost predicate RollsBackOnly(s: Store, steps: seq<Step>, id: nat) {
    forall k | 0 <= k < |steps| ::
      var before := Run(s, steps[..k]);
      && steps[k].Rollback? && RollsBack(before, steps[k].conflictId, steps[k].row)
      && before.instances[steps[k].row].patternId == id
  }

  lemma OneRollback(s: Store, step: Step)
    requires Sound(s) && step.Rollback? && RollsBack(s, step.conflictId, step.row)
    ensures var id, t := s.instances[step.row].patternId, Next(s, step);
      && Sound(t) && 1 <= id <= |s.patterns| == |t.patterns|
      && t.patterns[id - 1].instances == s.patterns[id - 1].instances
      && t.patterns[id - 1].successes == s.patterns[id - 1].successes - 1
      && t.patterns[id - 1].disabled == s.patterns[id - 1].disabled
  {
    hide Count, Standing, Sound, MeetsCriteria;
    NextSound(s, step);
    RollbackSound(s, step.row);
  }

  lemma StandingOf(s: Store, conflict: Uuid)
    ensures forall k: nat :: RollsBack(s, conflict, k) <==>
      k < |s.instances| && s.instances[k].conflict == conflict && !s.instances[k].rolledBack
    ensures (forall k: nat :: !RollsBack(s, conflict, k)) <==>
      forall x | x in s.instances :: x.conflict == conflict ==> x.rolledBack
  {
    if x :| x in s.instances && x.conflict == conflict && !x.rolledBack {
      var k :| 0 <= k < |s.instances| && s.instances[k] == x;
      assert RollsBack(s, conflict, k);
    }
  }

  lemma RowIds(s: Store, id: nat)
    requires Sound(s) && 1 <= id <= |s.patterns|
    ensures s.patterns[id - 1].id == id
  {
  }

  lemma OwnerExists(s: Store, row: nat)
    requires Sound(s) && row < |s.instances|
    ensures 1 <= s.instances[row].patternId <= |s.patterns|
  {
  }

  lemma {:induction false} RollbacksCount(s: Store, steps: seq<Step>, id: nat)
    requires Sound(s) && 1 <= id <= |s.patterns| && RollsBackOnly(s, steps, id)
    ensures var t := Run(s, steps);
      && Sound(t) && |t.patterns| == |s.patterns|
      && t.patterns[id - 1].instances == s.patterns[id - 1].instances
      && t.patterns[id - 1].successes == s.patterns[id - 1].successes - |steps|
      && t.patterns[id - 1].disabled == s.patterns[id - 1].disabled
  {
    hide Count, Standing, Sound, Next, RollsBack;
    if steps != [] {
      var n := |steps| - 1;
      var before := Run(s, steps[..n]);
      assert RollsBackOnly(s, steps[..n], id) by {
        forall k | 0 <= k < n ensures steps[..n][..k] == steps[..k] {}
      }
      RollbacksCount(s, steps[..n], id);
      OneRollback(before, steps[n]);
    }
  }

  /** A pattern with n > 10 instances, none rolled back, that no one has disabled stays
      promoted through n / 10 rollbacks and is demoted by the next one. */
  lemma {:induction false} DemotedExactly(s: Store, steps: seq<Step>, id: nat)
    requires Sound(s) && 1 <= id <= |s.patterns| && RollsBackOnly(s, steps, id)
    requires var p := s.patterns[id - 1]; p.instances > 10 && p.successes == p.instances && !p.disabled
    ensures |Run(s, steps).patterns| == |s.patterns|
    ensures Run(s, steps).patterns[id - 1].auto <==> |steps| <= s.patterns[id - 1].instances / 10
  {
    RollbacksCount(s, steps, id);
  }

  // ── The human override ──────────────────────────────────────────────────

  lemma {:induction false} DisabledStays(s: Store, steps: seq<Step>, id: nat)
    requires Sound(s) && 1 <= id <= |s.patterns| && s.patterns[id - 1].disabled
    requires forall step | step in steps :: step != Enable(id)
    ensures var t := Run(s, steps);
      && Sound(t) && |t.patterns| >= |s.patterns| && t.patterns[id - 1].disabled
      && t.patterns[id - 1].key == s.patterns[id - 1].key
  {
    hide Count, Standing, ConflictKey, Classify, Sound;
    if steps != [] {
      var n := |steps| - 1;
      assert steps[n] in steps && forall x | x in steps[..n] :: x in steps;
      DisabledStays(s, steps[..n], id);
      NextSound(Run(s, steps[..n]), steps[n]);
      StepKeepsDisabled(Run(s, steps[..n]), steps[n], id);
    }
  }

  lemma StepKeepsDisabled(s: Store, step: Step, id: nat)
    requires 1 <= id <= |s.patterns| && s.patterns[id - 1].disabled && step != Enable(id)
    ensures var t := Next(s, step);
      |t.patterns| >= |s.patterns| && t.patterns[id - 1].disabled && t.patterns[id - 1].key == s.patterns[id - 1].key
  {
    hide ConflictKey, Classify;
  }

  /** Once a pattern is disabled, no run without a call that enables it again makes any
      conflict resolve through it, whatever its rate. */
  lemma DisabledNeverApplies(s: Store, steps: seq<Step>, id: nat, x: Conflict)
    requires Sound(s) && 1 <= id <= |s.patterns|
    requires forall step | step in steps :: step != Enable(id)
    ensures var t := Run(Next(s, Disable(id)), steps);
      match AutoPattern(t, x) { case Some(p) => p.id != id && MeetsCriteria(p) case None => true }
  {
    hide ConflictKey, Classify, Count, Standing, MeetsCriteria;
    NextSound(s, Disable(id));
    DisabledStays(Next(s, Disable(id)), steps, id);
    var t := Run(Next(s, Disable(id)), steps);
    var i := FindKey(t.patterns, ConflictKey(x));
    if i == id - 1 { assert !t.patterns[i].auto by { DisabledNotAuto(t, i); } }
  }

  lemma DisabledNotAuto(s: Store, i: nat)
    requires Sound(s) && i < |s.patterns| && s.patterns[i].disabled
    ensures !s.patterns[i].auto
  {
  }
}
