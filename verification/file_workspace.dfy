/** A workspace of one client, and the server it talks to. */
module FileWorkspaces {
  import opened Prelude
  import opened Ordering
  import opened ServerModel
  import opened WorkspaceModel
  import D = Diff

  datatype Surprise =
    | ServerHasFileLocalDoesNot(path: string)
    | BaseDrifted(expected: Version, actual: Version)

  datatype Plan = Plan(
    adds: seq<string>, mods: seq<string>, dels: seq<string>, entityChanges: seq<D.EntityChange>,
    surprises: seq<Surprise>, baseVersion: Version, headVersion: Version)
  {
    predicate IsEmpty() { adds == [] && mods == [] && dels == [] && entityChanges == [] }
  }

  /** Of the files in `sent`, those at `paths` have been stored over `before`. */
  ghost predicate Holds(now: Files, before: Files, sent: Files, paths: seq<string>) {
    && (forall x :: x in now <==> x in before || (x in sent && x in paths))
    && (forall x | x in now :: now[x] == if x in sent && x in paths then sent[x] else before[x])
  }

  lemma HoldsFirst(before: Files, sent: Files)
    ensures Holds(before, before, sent, [])
  {
  }

  lemma HoldsNext(now: Files, before: Files, sent: Files, paths: seq<string>, path: string)
    requires Holds(now, before, sent, paths)
    ensures Holds(if path in sent then now[path := sent[path]] else now, before, sent, paths + [path])
  {
    assert forall x :: x in paths + [path] <==> x in paths || x == path;
  }

  lemma HoldsAll(now: Files, before: Files, sent: Files, paths: seq<string>)
    requires Holds(now, before, sent, paths) && forall x | x in sent :: x in paths
    ensures now == before + sent
  {
  }

  predicate IsChange(head: Files, sent: Files, path: string)
    requires path in sent
  {
    path !in head || head[path] != sent[path]
  }

  /** The changed files that an upload stores. */
  function Sent(head: Files, u: Upload, outcome: Outcome): Files {
    map x | x in Changed(head, u) && (outcome.UploadCut? ==> x in outcome.stored) :: u.files[x]
  }

  lemma SentIs(head: Files, u: Upload, outcome: Outcome)
    ensures forall x :: x in Sent(head, u, outcome) <==>
      x in u.files && IsChange(head, u.files, x) && (outcome.UploadCut? ==> x in outcome.stored)
    ensures forall x | x in Sent(head, u, outcome) :: Sent(head, u, outcome)[x] == u.files[x]
  {
  }

  lemma SentStores(head: Files, stage: Stage, u: Upload, outcome: Outcome)
    ensures stage.(files := stage.files + Sent(head, u, outcome)) ==
      if outcome.UploadCut? then CutShort(head, stage, u, outcome.stored)
      else stage.(files := stage.files + Changed(head, u))
  {
  }

  /** The server, with its record of the caller's workspace. How far a call gets is an input. */
  class RemoteRepo {
    var head: Version
    var files: Files
    var stage: Stage

    ghost function State(): Server
      reads this
    {
      Server(head, files)
    }

    constructor (head: Version, files: Files)
      ensures State() == Server(head, files) && stage == Stage(head, map[], {})
    {
      this.head, this.files := head, files;
      stage := Stage(head, map[], {});
    }

    /** Stores the changed files, checks how much would be deleted, and records the deletions. */
    method UploadWorkspace(u: Upload, outcome: Outcome) returns (r: Result<(), FwError>)
      modifies `stage
      ensures r == if outcome.UploadCut? || outcome.UploadUnanswered? || Destructive(files, u) then Err(Remote) else Ok(())
      ensures stage == if outcome.UploadCut? then CutShort(files, old(stage), u, outcome.stored)
                       else Uploaded(files, old(stage), u)
    {
      hide Changed, Doomed, CutShort, Destructive, NonEmpty;
      RailExactly(files, u);
      StoreChanged(u, outcome);
      if outcome.UploadCut? {
        return Err(Remote);
      }
      var doomed := DeletedPaths(u);
      if |files| >= 3 && |doomed| * 2 > |files| {
        return Err(Remote);
      }
      stage := stage.(deleted := stage.deleted + Elems(doomed));
      return if outcome.UploadUnanswered? then Err(Remote) else Ok(());
    }

    method StoreChanged(u: Upload, outcome: Outcome)
      modifies `stage
      ensures stage == if outcome.UploadCut? then CutShort(files, old(stage), u, outcome.stored)
                       else old(stage).(files := old(stage).files + Changed(files, u))
    {
      ghost var sent := Sent(files, u, outcome);
      SentIs(files, u, outcome);
      hide Sent, CutShort, Changed, IsChange;
      var paths := Elements(u.files.Keys);
      ghost var first := stage;
      hide Holds, NoDuplicates;
      HoldsFirst(stage.files, sent);
      assert paths[..0] == [];
      for i := 0 to |paths|
        invariant stage == first.(files := stage.files)
        invariant Holds(stage.files, first.files, sent, paths[..i])
      {
        HoldsNext(stage.files, first.files, sent, paths[..i], paths[i]);
        assert paths[..i + 1] == paths[..i] + [paths[i]];
        if IsChange(files, u.files, paths[i]) && !(outcome.UploadCut? && paths[i] !in outcome.stored) {
          stage := stage.(files := stage.files[paths[i] := u.files[paths[i]]]);
        }
      }
      assert paths[..|paths|] == paths;
      HoldsAll(stage.files, first.files, sent, paths);
      SentStores(files, first, u, outcome);
    }

    method DeletedPaths(u: Upload) returns (doomed: seq<string>)
      ensures Elems(doomed) == Doomed(files, u)
      ensures |doomed| == if u.Full? then |files.Keys - u.files.Keys| else |u.deleted| - multiset(u.deleted)[""]
    {
      match u {
        case Full(f) =>
          doomed := Elements(files.Keys - f.Keys);
          ElementCount(doomed, files.Keys - f.Keys);
        case Delta(_, deleted) =>
          doomed := NonEmpty(deleted);
          NonEmptyCount(deleted);
      }
    }

    /** Merges what is stored for the workspace: files first, then deletions. */
    method SubmitWorkspace(outcome: Outcome) returns (r: Result<Version, FwError>)
      requires outcome.MergeFails? || outcome.Merges?
      modifies `head, `files
      ensures Unchanged(old(files), stage) || Unmergeable(old(State()), stage, outcome.merge) ==>
        && State() == old(State())
        && r == Err(if Unchanged(old(files), stage) && outcome.Merges? && !outcome.finish.NoReply? then WorkspaceEmpty
                    else Remote)
      ensures !Unchanged(old(files), stage) && !Unmergeable(old(State()), stage, outcome.merge) ==>
        match outcome
        case MergeFails(merge, written) =>
          r == Err(Remote) && State() == Server(old(head), Interrupted(old(State()), stage, merge, written))
        case Merges(merge, advances, finish) =>
          && State() ==
            Server(if advances then old(head) + 1 else old(head), MergedFiles(old(State()), stage, merge))
          && r == if finish.NoReply? then Err(Remote) else Ok(old(head) + 1)
    {
      var doomed := Elements(stage.deleted);
      if stage.files == map[] && stage.deleted !! files.Keys {
        return Err(if outcome.Merges? && !outcome.finish.NoReply? then WorkspaceEmpty else Remote);
      }
      if stage.base != head && exists x | x in stage.deleted :: x in files && x !in stage.files {
        return Err(Remote);
      }
      if stage.base != head && exists x | x in stage.files :: outcome.merge(x, At(files, x), stage.files[x]).None? {
        return Err(Remote);
      }
      var contents := Contents(Server(head, files), stage, outcome.merge);
      match outcome {
        case MergeFails(_, written) =>
          InsertAll(map x | x in contents && x in written && x !in stage.deleted :: contents[x]);
          return Err(Remote);
        case Merges(_, advances, finish) =>
          InsertAll(contents);
          RemoveAll(doomed);
          assert Elems(doomed) == stage.deleted;
          var made := head + 1;
          if advances {
            head := made;
          }
          return if finish.NoReply? then Err(Remote) else Ok(made);
      }
    }

    method RemoveAll(paths: seq<string>)
      modifies `files
      ensures files == old(files) - Elems(paths)
    {
      for i := 0 to |paths|
        invariant files == old(files) - Elems(paths[..i])
      {
        assert Elems(paths[..i + 1]) == Elems(paths[..i]) + {paths[i]};
        files := files - {paths[i]};
      }
      assert paths[..|paths|] == paths;
    }

    method InsertAll(added: Files)
      modifies `files
      ensures files == old(files) + added
    {
      var paths := Elements(added.Keys);
      for i := 0 to |paths|
        invariant files.Keys == old(files).Keys + Elems(paths[..i])
        invariant forall x | x in files :: files[x] == if x in paths[..i] then added[x] else old(files)[x]
      {
        assert paths[..i + 1] == paths[..i] + [paths[i]];
        assert Elems(paths[..i + 1]) == Elems(paths[..i]) + {paths[i]};
        files := files[paths[i] := added[paths[i]]];
      }
      assert paths[..|paths|] == paths;
      assert Elems(paths) == added.Keys;
    }

    /** One request per path. All paths arrive with their content, or the whole download fails:
        when the network does, and when some path is not at the head. */
    method DownloadFiles(paths: seq<string>, answers: bool) returns (r: Result<Files, FwError>)
      ensures r.Ok? <==> (answers || paths == []) && forall x | x in paths :: x in files
      ensures r.Ok? ==> r.value.Keys == Elems(paths) && forall x | x in paths :: r.value[x] == files[x]
      ensures r.Err? ==> r.error == Remote
    {
      var got: Files := map[];
      for i := 0 to |paths|
        invariant answers || i == 0
        invariant forall x | x in paths[..i] :: x in files
        invariant got.Keys == Elems(paths[..i])
        invariant forall x | x in got :: x in files && got[x] == files[x]
      {
        if !answers || paths[i] !in files {
          assert paths[i] in paths;
          return Err(Remote);
        }
        assert paths[..i + 1] == paths[..i] + [paths[i]];
        got := got[paths[i] := files[paths[i]]];
      }
      assert paths[..|paths|] == paths;
      return Ok(got);
    }
  }

  lemma {:induction false} ElementCount(xs: seq<string>, s: set<string>)
    requires NoDuplicates(xs) && forall x :: x in xs <==> x in s
    ensures |xs| == |s| && Elems(xs) == s
  {
    if xs != [] {
      assert xs == [xs[0]] + xs[1..];
      assert forall x :: x in xs[1..] <==> x in s - {xs[0]};
      ElementCount(xs[1..], s - {xs[0]});
    } else {
      assert s == {};
    }
  }

  /** The drift surprise of a plan, if there is one. */
  function Drift(s: Server, c: Client): seq<Surprise> {
    if s.head == c.baseVersion then [] else [BaseDrifted(c.baseVersion, s.head)]
  }

  /** The drift comes first, then the server's files that the client does not know. */
  ghost predicate IsListed(surprises: seq<Surprise>, s: Server, c: Client) {
    && Drift(s, c) <= surprises
    && (forall x :: ServerHasFileLocalDoesNot(x) in surprises[|Drift(s, c)|..] <==> x in ServerOnly(s, c))
    && (forall x | x in surprises[|Drift(s, c)|..] :: x.ServerHasFileLocalDoesNot?)
  }

  /** What a plan says. The paths of an overlay plan come in the order in which files are
      listed; those of a push from the root are sorted. */
  ghost predicate IsPlan(plan: Plan, s: Server, c: Client) {
    && plan.baseVersion == c.baseVersion && plan.headVersion == s.head
    && IsListed(plan.surprises, s, c)
    && if c.pushFromRoot then
         && plan.dels == [] && plan.entityChanges == []
         && plan.adds == Sorted(c.base.Keys - s.files.Keys)
         && plan.mods == Sorted(c.base.Keys * s.files.Keys)
         && |plan.surprises| == |Drift(s, c)| + |Sorted(ServerOnly(s, c))|
         && (forall i | 0 <= i < |Sorted(ServerOnly(s, c))| ::
              plan.surprises[|Drift(s, c)| + i] == ServerHasFileLocalDoesNot(Sorted(ServerOnly(s, c))[i]))
       else
         && plan.dels == c.deleted
         && (forall x :: x in plan.adds <==> x in c.overlay && x !in c.base)
         && (forall x :: x in plan.mods <==> x in c.overlay && x in c.base)
         && NoDuplicates(plan.adds) && NoDuplicates(plan.mods)
         && (plan.entityChanges != [] ==> !NothingToSubmit(c))
  }

  /** The planner's diff parses every overlay file, and the base file it replaces. */
  predicate Parses(tools: D.Tools, c: Client) {
    c.pushFromRoot || forall path | path in c.overlay :: !D.Unparsable(path, c.base, c.overlay, tools)
  }

  lemma ListedIsPlan(plan: Plan, s: Server, c: Client)
    requires !c.pushFromRoot && plan.baseVersion == c.baseVersion && plan.headVersion == s.head
    requires IsListed(plan.surprises, s, c) && plan.dels == c.deleted
    requires forall x :: x in plan.adds <==> x in c.overlay && x !in c.base
    requires forall x :: x in plan.mods <==> x in c.overlay && x in c.base
    requires NoDuplicates(plan.adds) && NoDuplicates(plan.mods)
    requires plan.entityChanges != [] ==> c.overlay != map[] || c.deleted != []
    ensures IsPlan(plan, s, c)
  {
    hide IsListed, NoDuplicates;
  }

  /** A plan has no surprises, and is empty, exactly when the model says so. */
  lemma PlanMeaning(plan: Plan, s: Server, c: Client)
    requires IsPlan(plan, s, c)
    ensures plan.surprises == [] <==> SurpriseFree(s, c)
    ensures plan.IsEmpty() <==> NothingToSubmit(c)
    ensures var source, against := if c.pushFromRoot then c.base else c.overlay, if c.pushFromRoot then s.files else c.base;
      && (forall x :: x in plan.adds <==> x in source && x !in against)
      && (forall x :: x in plan.mods <==> x in source && x in against)
      && plan.dels == if c.pushFromRoot then [] else c.deleted
    ensures c.pushFromRoot ==> StrictlySorted(plan.adds) && StrictlySorted(plan.mods)
    ensures forall x :: ServerHasFileLocalDoesNot(x) in plan.surprises <==>
      x in s.files && !(if c.pushFromRoot then x in c.base else (x in c.base || x in c.overlay) && x !in c.deleted)
    ensures (exists x | x in plan.surprises :: x.BaseDrifted?) <==> c.baseVersion != s.head
    ensures forall x | x in plan.surprises && x.BaseDrifted? :: x == BaseDrifted(c.baseVersion, s.head) && plan.surprises[0] == x
  {
    PlanSurprises(plan, s, c);
    PlanEmptiness(plan, s, c);
    SurprisesExactly(plan, s, c);
    hide IsListed, Drift, ServerOnly;
  }

  lemma SurprisesExactly(plan: Plan, s: Server, c: Client)
    requires IsListed(plan.surprises, s, c)
    ensures forall x :: ServerHasFileLocalDoesNot(x) in plan.surprises <==>
      x in s.files && !(if c.pushFromRoot then x in c.base else (x in c.base || x in c.overlay) && x !in c.deleted)
    ensures (exists x | x in plan.surprises :: x.BaseDrifted?) <==> c.baseVersion != s.head
    ensures forall x | x in plan.surprises && x.BaseDrifted? :: x == BaseDrifted(c.baseVersion, s.head) && plan.surprises[0] == x
  {
    var drift, rest := Drift(s, c), plan.surprises[|Drift(s, c)|..];
    assert plan.surprises == drift + rest;
    assert forall x :: x in plan.surprises <==> x in drift || x in rest;
    if drift != [] { assert drift[0] in plan.surprises; }
  }

  lemma PlanSurprises(plan: Plan, s: Server, c: Client)
    requires IsPlan(plan, s, c)
    ensures plan.surprises == [] <==> SurpriseFree(s, c)
  {
    var rest := plan.surprises[|Drift(s, c)|..];
    assert plan.surprises == Drift(s, c) + rest;
    if rest != [] {
      assert rest[0] in rest;
      assert rest[0].path in ServerOnly(s, c);
    }
    if ServerOnly(s, c) != {} {
      var x :| x in ServerOnly(s, c);
      assert ServerHasFileLocalDoesNot(x) in rest;
    }
  }

  lemma PlanEmptiness(plan: Plan, s: Server, c: Client)
    requires IsPlan(plan, s, c)
    ensures plan.IsEmpty() <==> NothingToSubmit(c)
  {
    if c.pushFromRoot {
      SortedEmpty(c.base.Keys - s.files.Keys);
      SortedEmpty(c.base.Keys * s.files.Keys);
      assert c.base.Keys == (c.base.Keys - s.files.Keys) + (c.base.Keys * s.files.Keys);
      assert c.base == map[] <==> c.base.Keys == {};
    } else {
      if plan.adds != [] { assert plan.adds[0] in plan.adds; }
      if plan.mods != [] { assert plan.mods[0] in plan.mods; }
      if c.overlay != map[] {
        var x :| x in c.overlay;
        assert x in plan.adds || x in plan.mods;
      }
    }
  }

  class FileWorkspace {
    const remote: RemoteRepo
    const pushFromRoot: bool
    var baseVersion: Version
    var localHead: Version
    var status: WorkspaceStatus
    var base: Files
    var overlay: Files
    var deleted: seq<string>

    ghost function State(): Client
      reads this, remote
    {
      Client(baseVersion, localHead, status, base, overlay, deleted, pushFromRoot, remote.stage)
    }

    constructor (remote: RemoteRepo, c: Client)
      requires remote.stage == c.stage
      ensures this.remote == remote && State() == c
    {
      this.remote, pushFromRoot := remote, c.pushFromRoot;
      baseVersion, localHead, status := c.baseVersion, c.localHead, c.status;
      base, overlay, deleted := c.base, c.overlay, c.deleted;
    }

    /** The server files that are not in `local`, in some order. */
    method NotIn(local: set<string>) returns (found: seq<string>)
      ensures Elems(found) == remote.files.Keys - local && NoDuplicates(found)
      ensures found == [] <==> remote.files.Keys - local == {}
      ensures forall x | x in found :: x in remote.files
    {
      found := Elements(remote.files.Keys - local);
      if found != [] { assert found[0] in found; }
    }

    /** Fails exactly when the diff does. */
    method PlanOverlay(tools: D.Tools) returns (r: Result<Plan, FwError>)
      requires !pushFromRoot
      ensures r.Err? <==> !Parses(tools, State())
      ensures r == Err(NoPlan) || (r.Ok? && IsPlan(r.value, remote.State(), State()))
      ensures r.Ok? ==> NoDuplicates(r.value.surprises) && forall x :: x in r.value.entityChanges <==>
        D.ChangedIn(x, base, overlay, tools) || D.RemovedIn(x, base, deleted, tools)
    {
      var diff, part, pieces := D.ComputeWithFs(tools, base, overlay, deleted);
      if diff.None? {
        return Err(NoPlan);
      }
      var adds, mods := AddsAndMods(diff.value.fileDiffs, part, tools);
      D.EmptyDiff(part, diff.value.fileDiffs, pieces, base, overlay, deleted, tools);
      hide D.IsOverlayPart, D.PiecesFit, D.Concat, D.DeletedPart, D.Unparsable, D.ChangedIn, D.RemovedIn, Parses, NoDuplicates;
      forall x { D.DiffEntities(part, diff.value.fileDiffs, pieces, base, overlay, deleted, tools, x); }
      var surprises := OverlaySurprises();
      hide IsListed;
      var plan := Plan(adds, mods, deleted, diff.value.entityChanges, surprises, baseVersion, remote.head);
      ListedIsPlan(plan, remote.State(), State());
      return Ok(plan);
    }

    method OverlaySurprises() returns (surprises: seq<Surprise>)
      requires !pushFromRoot
      ensures IsListed(surprises, remote.State(), State()) && NoDuplicates(surprises)
    {
      surprises := [];
      if remote.head != baseVersion {
        surprises := surprises + [BaseDrifted(baseVersion, remote.head)];
      }
      var local := (base.Keys + overlay.Keys) - Elems(deleted);
      var unknown := NotIn(local);
      ghost var drift := surprises;
      for i := 0 to |unknown|
        invariant |surprises| == |drift| + i && drift <= surprises
        invariant forall k | 0 <= k < i :: surprises[|drift| + k] == ServerHasFileLocalDoesNot(unknown[k])
      {
        surprises := surprises + [ServerHasFileLocalDoesNot(unknown[i])];
      }
      MissingListed(surprises, drift, unknown);
      assert forall x :: x in unknown <==> x in Elems(unknown);
    }

    method AddsAndMods(diffs: seq<D.FileDiff>, ghost part: seq<D.FileDiff>, ghost tools: D.Tools)
      returns (adds: seq<string>, mods: seq<string>)
      requires D.IsOverlayPart(part, base, overlay, tools) && diffs == part + D.DeletedPart(deleted, base)
      ensures forall x :: x in adds <==> x in overlay && x !in base
      ensures forall x :: x in mods <==> x in overlay && x in base
      ensures NoDuplicates(adds) && NoDuplicates(mods)
    {
      D.DeletedPartChanges(deleted, base);
      adds, mods := [], [];
      for i := 0 to |diffs|
        invariant adds == PathsOf(diffs[..i], D.Added) && mods == PathsOf(diffs[..i], D.Modified)
      {
        assert diffs[..i + 1][..i] == diffs[..i];
        match diffs[i].change {
          case Added => adds := adds + [diffs[i].path];
          case Modified => mods := mods + [diffs[i].path];
          case Deleted =>
        }
      }
      assert diffs[..|diffs|] == diffs;
      PathsExactly(part, diffs, base, overlay, tools);
    }

    method PlanRepoRootPush() returns (plan: Plan)
      requires pushFromRoot
      ensures IsPlan(plan, remote.State(), State())
    {
      var adds := SortedElements(base.Keys - remote.files.Keys);
      var mods := SortedElements(base.Keys * remote.files.Keys);
      var surprises := [];
      if remote.head != baseVersion {
        surprises := surprises + [BaseDrifted(baseVersion, remote.head)];
      }
      var serverOnly := SortedElements(remote.files.Keys - base.Keys);
      ghost var drift := surprises;
      for i := 0 to |serverOnly|
        invariant |surprises| == |drift| + i && drift <= surprises
        invariant forall k | 0 <= k < i :: surprises[|drift| + k] == ServerHasFileLocalDoesNot(serverOnly[k])
      {
        surprises := surprises + [ServerHasFileLocalDoesNot(serverOnly[i])];
      }
      plan := Plan(adds, mods, [], [], surprises, baseVersion, remote.head);
      MissingListed(surprises, drift, serverOnly);
    }

    method MakePlan(tools: D.Tools, answers: bool) returns (r: Result<Plan, FwError>)
      ensures r.Err? <==> !answers || !Parses(tools, State())
      ensures r == Err(NoPlan) || (r.Ok? && IsPlan(r.value, remote.State(), State()))
    {
      if !answers {
        return Err(NoPlan);
      }
      if pushFromRoot {
        var plan := PlanRepoRootPush();
        return Ok(plan);
      }
      r := PlanOverlay(tools);
    }

    method DoSubmit(plan: Plan, large: bool, outcome: Outcome) returns (r: Result<Version, FwError>)
      requires IsPlan(plan, remote.State(), State()) && !outcome.PlanFails?
      modifies this, remote
      ensures SubmitStep(old(remote.State()), old(State()), large, true, outcome)
           == Submission(remote.State(), State(), r)
    {
      hide IsPlan, Uploaded, CutShort, Destructive, Unchanged, Unmergeable, MergedFiles, Interrupted, Packed;
      PlanEmptiness(plan, remote.State(), State());
      if plan.IsEmpty() {
        return Err(Empty);
      }
      var source := if pushFromRoot then base else overlay;
      var deletions := if pushFromRoot then [] else deleted;
      var upload := if large then Delta(Packed(source), deletions) else Full(Packed(base));
      var uploaded := remote.UploadWorkspace(upload, outcome);
      if uploaded.Err? {
        return Err(Remote);
      }
      var submitted := remote.SubmitWorkspace(outcome);
      if submitted.Err? {
        return submitted;
      }
      if outcome.finish.HeadNotWritten? {
        return Err(Local);
      }
      localHead := submitted.value;
      if !pushFromRoot {
        if outcome.finish.StatusNotWritten? {
          return Err(Local);
        }
        status := Submitted;
      }
      return submitted;
    }

    method Submit(tools: D.Tools, large: bool, outcome: Outcome) returns (r: Result<Version, FwError>)
      modifies this, remote
      ensures SubmitStep(old(remote.State()), old(State()), large, false,
                         if Parses(tools, old(State())) then outcome else PlanFails)
           == Submission(remote.State(), State(), r)
    {
      hide IsPlan, Parses, Uploaded, CutShort, Destructive, Unchanged, Unmergeable, MergedFiles, Interrupted, UploadOf;
      var plan := MakePlan(tools, !outcome.PlanFails?);
      if plan.Err? {
        return Err(NoPlan);
      }
      PlanMeaning(plan.value, remote.State(), State());
      if plan.value.surprises != [] {
        return Err(Surprises);
      }
      r := DoSubmit(plan.value, large, outcome);
    }

    /** Ignores every surprise of the plan, base drift included. */
    method SubmitForcingDeletions(tools: D.Tools, large: bool, outcome: Outcome) returns (r: Result<Version, FwError>)
      modifies this, remote
      ensures SubmitStep(old(remote.State()), old(State()), large, true,
                         if Parses(tools, old(State())) then outcome else PlanFails)
           == Submission(remote.State(), State(), r)
    {
      hide IsPlan, Parses, Uploaded, CutShort, Destructive, Unchanged, Unmergeable, MergedFiles, Interrupted, UploadOf;
      var plan := MakePlan(tools, !outcome.PlanFails?);
      if plan.Err? {
        return Err(NoPlan);
      }
      r := DoSubmit(plan.value, large, outcome);
    }

    method DoPull(downloads: bool) returns (r: Result<(Version, nat), FwError>)
      modifies this
      ensures PullStep(remote.State(), old(State()), downloads) == Pulled(State(), r)
    {
      hide NoDuplicates, Fetched, Elems, PullStep;
      ghost var s, c := remote.State(), State();
      var missing := NotIn(base.Keys + overlay.Keys);
      PullCases(s, c);
      if missing == [] {
        return Ok((remote.head, 0));
      }
      var downloaded := remote.DownloadFiles(missing, downloads);
      if downloaded.Err? {
        return Err(Remote);
      }
      FetchedIs(s, missing, downloaded.value);
      base := base + downloaded.value;
      baseVersion := remote.head;
      localHead := remote.head;
      return Ok((remote.head, |downloaded.value.Keys|));
    }
  }

  /** The paths of the diffs with one kind of change. */
  function PathsOf(diffs: seq<D.FileDiff>, change: D.FileChange): seq<string> {
    if diffs == [] then []
    else
      var last := diffs[|diffs| - 1];
      PathsOf(diffs[..|diffs| - 1], change) + (if last.change == change then [last.path] else [])
  }

  lemma {:induction false} PathsOfIn(diffs: seq<D.FileDiff>, change: D.FileChange)
    ensures forall x :: x in PathsOf(diffs, change) <==> exists d | d in diffs :: d.change == change && d.path == x
  {
    if diffs != [] {
      var n := |diffs| - 1;
      PathsOfIn(diffs[..n], change);
      assert forall d :: d in diffs <==> d in diffs[..n] || d == diffs[n];
    }
  }

  lemma {:induction false} PathsOfDistinct(diffs: seq<D.FileDiff>, change: D.FileChange)
    requires forall i, j | 0 <= i < j < |diffs| :: diffs[i].path != diffs[j].path
    ensures NoDuplicates(PathsOf(diffs, change))
  {
    if diffs != [] {
      var n := |diffs| - 1;
      PathsOfDistinct(diffs[..n], change);
      PathsOfIn(diffs[..n], change);
      var before := PathsOf(diffs[..n], change);
      forall i | 0 <= i < |before| ensures before[i] != diffs[n].path {
        assert before[i] in before;
        var d :| d in diffs[..n] && d.change == change && d.path == before[i];
        assert d.path != diffs[n].path;
      }
    }
  }

  lemma {:induction false} PathsOfSkip(a: seq<D.FileDiff>, b: seq<D.FileDiff>, change: D.FileChange)
    requires forall d | d in b :: d.change != change
    ensures PathsOf(a + b, change) == PathsOf(a, change)
  {
    if b == [] {
      assert a + b == a;
    } else {
      assert (a + b)[..|a + b| - 1] == a + b[..|b| - 1];
      PathsOfSkip(a, b[..|b| - 1], change);
    }
  }

  lemma PathsExactly(part: seq<D.FileDiff>, diffs: seq<D.FileDiff>, base: Files, overlay: Files, tools: D.Tools)
    requires D.IsOverlayPart(part, base, overlay, tools) && |part| <= |diffs| && diffs[..|part|] == part
    requires forall d | d in diffs[|part|..] :: d.change == D.Deleted
    ensures var adds, mods := PathsOf(diffs, D.Added), PathsOf(diffs, D.Modified);
      && NoDuplicates(adds) && NoDuplicates(mods)
      && (forall x :: x in adds <==> x in overlay && x !in base)
      && (forall x :: x in mods <==> x in overlay && x in base)
  {
    assert diffs == part + diffs[|part|..];
    PathsOfSkip(part, diffs[|part|..], D.Added);
    PathsOfSkip(part, diffs[|part|..], D.Modified);
    PathsOfDistinct(part, D.Added);
    PathsOfDistinct(part, D.Modified);
    PathsOfIn(part, D.Added);
    PathsOfIn(part, D.Modified);
    forall x | x in overlay ensures D.OverlayDiff(x, base, overlay[x], tools) in part {}
  }

  lemma FetchedIs(s: Server, paths: seq<string>, got: Files)
    requires got.Keys == Elems(paths) && forall x | x in paths :: x in s.files && got[x] == s.files[x]
    ensures got == Fetched(s, Elems(paths))
  {
  }

  lemma PullCases(s: Server, c: Client)
    ensures Missing(s, c) == s.files.Keys - (c.base.Keys + c.overlay.Keys)
    ensures Missing(s, c) == {} ==> forall d :: PullStep(s, c, d) == Pulled(c, Ok((s.head, 0)))
    ensures Missing(s, c) != {} ==> PullStep(s, c, false) == Pulled(c, Err(Remote))
    ensures Missing(s, c) != {} ==>
      var fetched := Fetched(s, Missing(s, c));
      PullStep(s, c, true) == Pulled(
        c.(base := c.base + fetched, baseVersion := s.head, localHead := s.head), Ok((s.head, |fetched.Keys|)))
  {
    assert Fetched(s, Missing(s, c)).Keys == Missing(s, c);
  }

  lemma MissingListed(surprises: seq<Surprise>, drift: seq<Surprise>, paths: seq<string>)
    requires drift <= surprises && |surprises| == |drift| + |paths|
    requires forall k | 0 <= k < |paths| :: surprises[|drift| + k] == ServerHasFileLocalDoesNot(paths[k])
    ensures forall x :: ServerHasFileLocalDoesNot(x) in surprises[|drift|..] <==> x in paths
    ensures forall x | x in surprises[|drift|..] :: x.ServerHasFileLocalDoesNot?
    ensures NoDuplicates(paths) && |drift| <= 1 && (drift == [] || drift[0].BaseDrifted?) ==> NoDuplicates(surprises)
  {
    assert forall i | |drift| <= i < |surprises| :: surprises[i] == ServerHasFileLocalDoesNot(paths[i - |drift|]);
    var rest := surprises[|drift|..];
    assert forall k | 0 <= k < |rest| :: rest[k] == ServerHasFileLocalDoesNot(paths[k]);
    forall x ensures ServerHasFileLocalDoesNot(x) in rest <==> x in paths {
      if x in paths {
        var k :| 0 <= k < |paths| && paths[k] == x;
        assert rest[k] == ServerHasFileLocalDoesNot(x);
      }
    }
  }
}
