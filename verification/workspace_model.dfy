/**
 The plan / submit / pull protocol: any number of clients against one server,
 as a transition system. Planning, uploading and merging happen in one step
 here; `Late submits` at the end says what that atomicity is worth.
 */
module WorkspaceModel {
  import opened Prelude
  import opened ServerModel

  /** A client's working state: the version its workspace is based on, the local head, the
      files of the project root and of the overlay, the explicitly deleted paths, and the
      server's record of the workspace. A client that pushes from the root uploads the root
      itself. */
  datatype Client = Client(
    baseVersion: Version, localHead: Version, status: WorkspaceStatus,
    base: Files, overlay: Files, deleted: seq<string>, pushFromRoot: bool, stage: Stage)

  /** `NoPlan`: the planner's calls to the server or its diff fail. `Empty` is found by the client,
      `WorkspaceEmpty` by the server; `Local` is a file of the client that cannot be written. */
  datatype FwError = NoPlan | Surprises | Empty | WorkspaceEmpty | Remote | Local

  // ── Planning ────────────────────────────────────────────────────────────

  /** The paths that the plan takes to be present locally. */
  function Known(c: Client): set<string> {
    if c.pushFromRoot then c.base.Keys else (c.base.Keys + c.overlay.Keys) - Elems(c.deleted)
  }

  /** Server files the client would silently lose. */
  function ServerOnly(s: Server, c: Client): set<string> { s.files.Keys - Known(c) }

  predicate SurpriseFree(s: Server, c: Client) {
    s.head == c.baseVersion && ServerOnly(s, c) == {}
  }

  predicate NothingToSubmit(c: Client) {
    if c.pushFromRoot then c.base == map[] else c.overlay == map[] && c.deleted == []
  }

  // ── Submitting and pulling ──────────────────────────────────────────────

  /** What a client means to submit. */
  function Source(c: Client): Files { if c.pushFromRoot then c.base else c.overlay }

  /** A small root is sent whole, even when an overlay is to be submitted; next to a large
      one, only the source is sent. */
  function UploadOf(c: Client, large: bool): Upload {
    if large then Delta(Packed(Source(c)), if c.pushFromRoot then [] else c.deleted)
    else Full(Packed(c.base))
  }

  /** How a submit goes that the server accepts: whether the client hears of it and can write
      its own files. */
  datatype Finish = Answered | NoReply | HeadNotWritten | StatusNotWritten

  /** What becomes of the plan and of the two calls. `contents` is what merging makes of files
      when the workspace is behind the head; `stored` and `written` are how far a call got; the
      server answers a merge even if it cannot write its new head, so `advances` says whether it
      did. */
  datatype Outcome =
    | PlanFails
    | UploadCut(stored: set<string>)
    | UploadUnanswered
    | MergeFails(merge: Merger, written: set<string>)
    | Merges(merge: Merger, advances: bool, finish: Finish)

  datatype Submission = Submission(server: Server, client: Client, result: Result<Version, FwError>)

  ghost function SubmitStep(s: Server, c: Client, large: bool, forced: bool, outcome: Outcome): Submission {
    if outcome.PlanFails? then Submission(s, c, Err(NoPlan))
    else if !forced && !SurpriseFree(s, c) then Submission(s, c, Err(Surprises))
    else if NothingToSubmit(c) then Submission(s, c, Err(Empty))
    else
      var u := UploadOf(c, large);
      var stage := Uploaded(s.files, c.stage, u);
      match outcome
      case UploadCut(stored) => Submission(s, c.(stage := CutShort(s.files, c.stage, u, stored)), Err(Remote))
      case UploadUnanswered => Submission(s, c.(stage := stage), Err(Remote))
      case MergeFails(merge, written) =>
        var files :=
          if Destructive(s.files, u) || Unchanged(s.files, stage) || Unmergeable(s, stage, merge) then s.files
          else Interrupted(s, stage, merge, written);
        Submission(s.(files := files), c.(stage := stage), Err(Remote))
      case Merges(merge, advances, finish) =>
        if Destructive(s.files, u) then Submission(s, c.(stage := stage), Err(Remote))
        else if Unchanged(s.files, stage) then
          Submission(s, c.(stage := stage), Err(if finish.NoReply? then Remote else WorkspaceEmpty))
        else if Unmergeable(s, stage, merge) then Submission(s, c.(stage := stage), Err(Remote))
        else
          Finished(Server(if advances then s.head + 1 else s.head, MergedFiles(s, stage, merge)), s.head + 1,
                   c.(stage := stage), finish)
  }

  /** The local writes after a merge that made version `made`. A push from the root has no
      status to write. */
  function Finished(s: Server, made: Version, c: Client, finish: Finish): Submission {
    match finish
    case NoReply => Submission(s, c, Err(Remote))
    case HeadNotWritten => Submission(s, c, Err(Local))
    case _ =>
      var c' := c.(localHead := made);
      if c.pushFromRoot then Submission(s, c', Ok(made))
      else if finish.StatusNotWritten? then Submission(s, c', Err(Local))
      else Submission(s, c'.(status := Submitted), Ok(made))
  }

  /** No check stops the submit: it is up to the server's merge. */
  ghost predicate Merging(s: Server, c: Client, large: bool, forced: bool, merge: Merger) {
    var u := UploadOf(c, large);
    var stage := Uploaded(s.files, c.stage, u);
    && (forced || SurpriseFree(s, c)) && !NothingToSubmit(c)
    && !Destructive(s.files, u) && !Unchanged(s.files, stage) && !Unmergeable(s, stage, merge)
  }

  /** The paths a pull downloads. Deleted paths play no part here. */
  function Missing(s: Server, c: Client): set<string> { s.files.Keys - (c.base.Keys + c.overlay.Keys) }

  function Fetched(s: Server, paths: set<string>): Files {
    map x | x in s.files && x in paths :: s.files[x]
  }

  datatype Pulled = Pulled(client: Client, result: Result<(Version, nat), FwError>)

  /** Nothing changes when no file is missing, not even the base version. */
  function PullStep(s: Server, c: Client, downloads: bool): Pulled {
    var missing := Missing(s, c);
    if missing == {} then Pulled(c, Ok((s.head, 0)))
    else if !downloads then Pulled(c, Err(Remote))
    else
      Pulled(c.(base := c.base + Fetched(s, missing), baseVersion := s.head, localHead := s.head), Ok((s.head, |missing|)))
  }

  /** A new workspace: based on the local head, registered at the server's. */
  function Opened(s: Server, c: Client, push: bool): Client {
    c.(baseVersion := c.localHead, status := Created, overlay := map[], deleted := [],
       pushFromRoot := push, stage := Stage(s.head, map[], {}))
  }

  lemma {:induction false} ServerOnlyEmpty(s: Server, c: Client)
    ensures ServerOnly(s, c) == {} <==> s.files.Keys <= Known(c)
  {
    if ServerOnly(s, c) == {} {
      forall x | x in s.files ensures x in Known(c) { assert x !in ServerOnly(s, c); }
    }
  }

  // ── One submit ──────────────────────────────────────────────────────────

  /** The server merges exactly when no check stops the submit and the merge goes through; its
      head then moves exactly when it can be written. */
  lemma {:induction false} HeadMoves(s: Server, c: Client, large: bool, forced: bool, outcome: Outcome)
    ensures var after := SubmitStep(s, c, large, forced, outcome);
      var stage := Uploaded(s.files, c.stage, UploadOf(c, large));
      if outcome.Merges? && Merging(s, c, large, forced, outcome.merge) then
        && after.server ==
          Server(if outcome.advances then s.head + 1 else s.head, MergedFiles(s, stage, outcome.merge))
        && after.client.stage == stage
      else
        && after.server.head == s.head && after.result.Err?
        && (outcome.Merges? ==> after.server == s)
  {
    hide UploadOf, Uploaded, CutShort, Destructive, Unchanged, Unmergeable, MergedFiles, Interrupted, SurpriseFree, NothingToSubmit;
  }

  /** What the client hears after a merge, and what it writes: success only when the reply arrives
      and its own files can be written. A push from the root has no status. */
  lemma {:induction false} AnswerAfterMerge(s: Server, c: Client, large: bool, forced: bool, outcome: Outcome)
    requires outcome.Merges? && Merging(s, c, large, forced, outcome.merge)
    ensures var after := SubmitStep(s, c, large, forced, outcome);
      && (after.result.Ok? <==> outcome.finish == Answered || (outcome.finish == StatusNotWritten && c.pushFromRoot))
      && (after.result.Ok? ==> after.result.value == s.head + 1)
      && (after.result.Err? ==> after.result.error == if outcome.finish == NoReply then Remote else Local)
      && after.client.localHead == (if outcome.finish in {NoReply, HeadNotWritten} then c.localHead else s.head + 1)
      && after.client.status == (if outcome.finish == Answered && !c.pushFromRoot then Submitted else c.status)
  {
    hide UploadOf, Uploaded, Destructive, Unchanged, Unmergeable, MergedFiles, SurpriseFree, NothingToSubmit;
  }

  /** What an unforced upload takes from the server: nothing as a delta, and as a full snapshot
      what is not in the root or does not arrive. */
  lemma {:induction false} DoomedBySurpriseFree(s: Server, c: Client, large: bool)
    requires SurpriseFree(s, c)
    ensures s.files.Keys !! Doomed(s.files, UploadOf(c, large)) <==>
      large || forall x | x in s.files :: x in c.base && !Dropped(x)
  {
    hide Dropped;
    ServerOnlyEmpty(s, c);
    if large {
      NonEmptyElems(if c.pushFromRoot then [] else c.deleted);
      assert Elems([]) == {};
    } else {
      forall x | x in s.files
        ensures x in Doomed(s.files, UploadOf(c, false)) <==> !(x in c.base && !Dropped(x)) {}
    }
  }

  /** A submit without surprises that the server merges keeps every server path exactly when
      no deletion staged earlier is on the server, and the upload is a delta or the root
      holds every server path where the tarball walk finds it. */
  lemma {:induction false} SurpriseFreeKeepsPaths(s: Server, c: Client, large: bool, outcome: Outcome)
    requires outcome.Merges? && Merging(s, c, large, false, outcome.merge)
    ensures s.files.Keys <= SubmitStep(s, c, large, false, outcome).server.files.Keys <==>
      && s.files.Keys !! c.stage.deleted
      && (large || forall x | x in s.files :: x in c.base && !Dropped(x))
  {
    HeadMoves(s, c, large, false, outcome);
    DoomedBySurpriseFree(s, c, large);
    assert !Destructive(s.files, UploadOf(c, large));
    var stage := Uploaded(s.files, c.stage, UploadOf(c, large));
    KeepsUndeleted(s, stage, outcome.merge);
    hide Dropped, UploadOf, Doomed, Merging, SubmitStep, SurpriseFree;
    assert stage.deleted == c.stage.deleted + Doomed(s.files, UploadOf(c, large));
  }

  lemma {:induction false} KeepsUndeleted(s: Server, stage: Stage, merge: Merger)
    ensures s.files.Keys <= MergedFiles(s, stage, merge).Keys <==> s.files.Keys !! stage.deleted
  {
    var after := MergedFiles(s, stage, merge);
    if s.files.Keys !! stage.deleted {
      forall x | x in s.files ensures x in after { assert x !in stage.deleted; }
    } else {
      var x :| x in s.files && x in stage.deleted;
      assert x !in after;
    }
  }

  /** When the first upload of a workspace is accepted, forced or not: without force there must
      be neither drift nor an unknown or deleted server path; there must be something to submit;
      no more than half of the server's files may go; as a full snapshot, the root must differ
      from the server, as a delta, some file sent must, or a deleted path be there; and a
      workspace behind the head must not delete a server path, unless it also sends new content
      for it, nor conflict with the head. */
  lemma {:induction false} AcceptedExactly(s: Server, c: Client, large: bool, forced: bool, merge: Merger)
    requires c.stage.Fresh()
    ensures SubmitStep(s, c, large, forced, Merges(merge, true, Answered)).result.Ok? <==>
      && (forced || (c.baseVersion == s.head && forall x | x in s.files ::
            if c.pushFromRoot then x in c.base else (x in c.base || x in c.overlay) && x !in c.deleted))
      && (if c.pushFromRoot then c.base != map[] else c.overlay != map[] || c.deleted != [])
      && (var count :=
            if !large then |set x | x in s.files && !(x in c.base && !Dropped(x))|
            else if c.pushFromRoot then 0 else |c.deleted| - multiset(c.deleted)[""];
          |s.files| < 3 || count * 2 <= |s.files|)
      && (var source := if c.pushFromRoot then c.base else c.overlay;
          if large then
            || (exists x :: x in source && !Dropped(x) && !(x in s.files && s.files[x] == source[x]))
            || (!c.pushFromRoot && exists x | x in s.files && x != "" :: x in c.deleted)
          else Packed(c.base) != s.files)
      && (c.stage.base == s.head || (DeletesNothing(s, c, large) && NoConflict(s, UploadOf(c, large), merge)))
  {
    ClientRail(s, c, large);
    AcceptedWhen(s, c, large, forced, merge);
    SomethingToSubmit(c);
    assert Source(c) == if c.pushFromRoot then c.base else c.overlay;
    hide *;
    hide Source, Known;
  }

  lemma SomethingToSubmit(c: Client)
    ensures !NothingToSubmit(c) <==> if c.pushFromRoot then c.base != map[] else c.overlay != map[] || c.deleted != []
  {
  }

  /** The same in terms of the model's own predicates. */
  lemma {:induction false} AcceptedWhen(s: Server, c: Client, large: bool, forced: bool, merge: Merger)
    requires c.stage.Fresh()
    ensures SubmitStep(s, c, large, forced, Merges(merge, true, Answered)).result.Ok? <==>
      && (forced || (c.baseVersion == s.head && forall x | x in s.files ::
            if c.pushFromRoot then x in c.base else (x in c.base || x in c.overlay) && x !in c.deleted))
      && !NothingToSubmit(c)
      && !Destructive(s.files, UploadOf(c, large))
      && (if large then
            || (exists x :: x in Source(c) && !Dropped(x) && !(x in s.files && s.files[x] == Source(c)[x]))
            || (!c.pushFromRoot && exists x | x in s.files && x != "" :: x in c.deleted)
          else Packed(c.base) != s.files)
      && (c.stage.base == s.head || (DeletesNothing(s, c, large) && NoConflict(s, UploadOf(c, large), merge)))
  {
    OkExactly(s, c, large, forced, merge);
    ServerOnlyEmpty(s, c);
    var u := UploadOf(c, large);
    if !Destructive(s.files, u) {
      if large { DeltaUnchanged(s.files, c); } else { FullUnchanged(s.files, c.stage, u); }
      FirstUnmergeable(s, c, large, merge);
    }
    hide SubmitStep, UploadOf, Uploaded, Unchanged, Unmergeable, Destructive, Dropped, NothingToSubmit, Source, Known,
      ServerOnly, DeletesNothing, NoConflict;
  }

  lemma ClientRail(s: Server, c: Client, large: bool)
    ensures var count :=
        if !large then |set x | x in s.files && !(x in c.base && !Dropped(x))|
        else if c.pushFromRoot then 0 else |c.deleted| - multiset(c.deleted)[""];
      Destructive(s.files, UploadOf(c, large)) <==> |s.files| >= 3 && count * 2 > |s.files|
  {
    hide Dropped, Destructive;
    RailExactly(s.files, UploadOf(c, large));
    assert s.files.Keys - Packed(c.base).Keys == set x | x in s.files && !(x in c.base && !Dropped(x));
  }

  /** No server path is deleted by the client's upload, except those it also sends anew. */
  predicate DeletesNothing(s: Server, c: Client, large: bool) {
    if large then
      c.pushFromRoot || forall x | x in s.files && x in c.deleted && x != "" ::
        x in c.overlay && !Dropped(x) && c.overlay[x] != s.files[x]
    else forall x | x in s.files :: x in c.base && !Dropped(x)
  }

  lemma {:induction false} FirstUnmergeable(s: Server, c: Client, large: bool, merge: Merger)
    requires c.stage.Fresh() && !Destructive(s.files, UploadOf(c, large))
    ensures Unmergeable(s, Uploaded(s.files, c.stage, UploadOf(c, large)), merge) <==>
      c.stage.base != s.head && !(DeletesNothing(s, c, large) && NoConflict(s, UploadOf(c, large), merge))
  {
    var u := UploadOf(c, large);
    StagedByFresh(s.files, c.stage, u);
    if large {
      NonEmptyIn(u.deleted);
      DeltaDeletes(s, c);
    } else {
      FullDeletes(s, c);
    }
    hide *;
    hide Unmergeable, Conflicts, NoConflict;
  }

  /** Merging makes something of every file that the upload changes. */
  predicate NoConflict(s: Server, u: Upload, merge: Merger) {
    forall x | x in Changed(s.files, u) :: merge(x, At(s.files, x), u.files[x]).Some?
  }

  lemma {:induction false} DeltaDeletes(s: Server, c: Client)
    ensures var u := UploadOf(c, true);
      DeletesNothing(s, c, true) <==> forall x | x in Doomed(s.files, u) && x in s.files :: x in Changed(s.files, u)
  {
    hide Dropped;
    var u := UploadOf(c, true);
    NonEmptyIn(u.deleted);
    assert forall x :: x in Doomed(s.files, u) <==> x in u.deleted && x != "";
  }

  lemma {:induction false} FullDeletes(s: Server, c: Client)
    ensures var u := UploadOf(c, false);
      DeletesNothing(s, c, false) <==> forall x | x in Doomed(s.files, u) && x in s.files :: x in Changed(s.files, u)
  {
    hide Dropped;
    var u := UploadOf(c, false);
    assert forall x | x in s.files :: x in Doomed(s.files, u) <==> !(x in c.base && !Dropped(x));
  }

  /** A workspace behind the head that deletes a server path without sending it is refused. */
  lemma {:induction false} BehindDeletionRefused(s: Server, c: Client, path: string, forced: bool, merge: Merger)
    requires c.stage.Fresh() && c.stage.base != s.head && !c.pushFromRoot
    requires path in s.files && path in c.deleted && path != "" && path !in c.overlay
    ensures var r := SubmitStep(s, c, true, forced, Merges(merge, true, Answered)); r.result.Err? && r.server == s
  {
    AcceptedWhen(s, c, true, forced, merge);
    assert !DeletesNothing(s, c, true);
    OkExactly(s, c, true, forced, merge);
    hide *;
    HeadMoves(s, c, true, forced, Merges(merge, true, Answered));
  }

  lemma {:induction false} OkExactly(s: Server, c: Client, large: bool, forced: bool, merge: Merger)
    ensures SubmitStep(s, c, large, forced, Merges(merge, true, Answered)).result.Ok? <==>
      Merging(s, c, large, forced, merge)
  {
    hide UploadOf, Uploaded, Destructive, Unchanged, Unmergeable, MergedFiles, SurpriseFree, NothingToSubmit;
  }

  lemma {:induction false} DeltaUnchanged(head: Files, c: Client)
    requires c.stage.Fresh() && !Destructive(head, UploadOf(c, true))
    ensures !Unchanged(head, Uploaded(head, c.stage, UploadOf(c, true))) <==>
      || (exists x :: x in Source(c) && !Dropped(x) && !(x in head && head[x] == Source(c)[x]))
      || (!c.pushFromRoot && exists x | x in head && x != "" :: x in c.deleted)
  {
    hide Dropped, Source;
    var u := UploadOf(c, true);
    StagedByFresh(head, c.stage, u);
    NonEmptyElems(u.deleted);
    assert Elems([]) == {};
    assert forall x :: x in Changed(head, u) <==> x in u.files && !(x in head && head[x] == u.files[x]);
    assert forall x :: x in u.files <==> x in Source(c) && !Dropped(x);
  }

  lemma {:induction false} FullUnchanged(head: Files, stage: Stage, u: Upload)
    requires stage.Fresh() && u.Full? && !Destructive(head, u)
    ensures Unchanged(head, Uploaded(head, stage, u)) <==> u.files == head
  {
    StagedByFresh(head, stage, u);
    if Changed(head, u) == map[] && head.Keys - u.files.Keys == {} {
      forall x | x in head ensures x in u.files { assert x !in head.Keys - u.files.Keys; }
      forall x | x in u.files ensures x in head && head[x] == u.files[x] { assert x !in Changed(head, u); }
    }
  }

  lemma {:induction false} StagedByFresh(head: Files, stage: Stage, u: Upload)
    requires stage.Fresh() && !Destructive(head, u)
    ensures Uploaded(head, stage, u) == Stage(stage.base, Changed(head, u), Doomed(head, u))
  {
    hide Destructive, Changed, Doomed;
    assert map[] + Changed(head, u) == Changed(head, u);
    assert {} + Doomed(head, u) == Doomed(head, u);
  }

  /** What an error tells. It never closes the workspace. The server has merged exactly when no
      check stopped the submit and the merge went through: never after a refusal by either side,
      always when a local write failed. Then its head has moved if it could be written, and the
      local head if only the status could not. Otherwise both heads are as they were, no server
      path is lost, and each has its old content or what the merge would have written. */
  lemma {:induction false} FailedSubmit(s: Server, c: Client, large: bool, forced: bool, outcome: Outcome)
    requires SubmitStep(s, c, large, forced, outcome).result.Err?
    ensures var after := SubmitStep(s, c, large, forced, outcome);
      var merged := outcome.Merges? && Merging(s, c, large, forced, outcome.merge);
      && after.client == c.(stage := after.client.stage, localHead := after.client.localHead)
      && after.server.head == (if merged && outcome.advances then s.head + 1 else s.head)
      && after.client.localHead ==
         (if merged && outcome.finish.StatusNotWritten? && !c.pushFromRoot then s.head + 1 else c.localHead)
      && (after.result == Err(Local) ==> merged)
      && (after.result.error in {NoPlan, Surprises, Empty, WorkspaceEmpty} ==> !merged && after.server == s)
      && (!merged ==> s.files.Keys <= after.server.files.Keys && forall x | x in after.server.files ::
            || (x in s.files && after.server.files[x] == s.files[x])
            || (x in after.client.stage.files && outcome.MergeFails?
                && after.server.files[x] == Contents(s, after.client.stage, outcome.merge)[x]))
  {
    HeadMoves(s, c, large, forced, outcome);
    hide UploadOf, Uploaded, CutShort, Destructive, Unchanged, Unmergeable, MergedFiles, SurpriseFree, NothingToSubmit;
  }

  /** A submit that was accepted although its client saw an error is not accepted again: without
      force, the next attempt is refused as drifted. */
  lemma {:induction false} AcceptedOnce(s: Server, c: Client, large: bool, large': bool, outcome: Outcome, outcome': Outcome)
    requires var r := SubmitStep(s, c, large, false, outcome); r.result.Err? && r.server.head != s.head
    ensures var r := SubmitStep(s, c, large, false, outcome);
      SubmitStep(r.server, r.client, large', false, outcome').result in {Err(NoPlan), Err(Surprises)}
  {
    HeadMoves(s, c, large, false, outcome);
    FailedSubmit(s, c, large, false, outcome);
    hide UploadOf, Uploaded, CutShort, Destructive, Unchanged, Unmergeable, MergedFiles, Interrupted, ServerOnly, NothingToSubmit;
  }

  /** Of what a merge writes, some has reached the head's files. */
  predicate Progress(s: Server, now: Files, stage: Stage, merge: Merger) {
    && s.files.Keys <= now.Keys
    && forall x | x in now ::
      || (x in s.files && now[x] == s.files[x])
      || (x in stage.files && x !in stage.deleted && now[x] == Contents(s, stage, merge)[x])
  }

  lemma {:induction false} HalfDone(s: Server, c: Client, large: bool, forced: bool, failure: Outcome, merge: Merger)
    requires c.stage.Fresh() && Merging(s, c, large, forced, merge) && !failure.Merges? && !failure.PlanFails?
    requires failure.MergeFails? ==> failure.merge == merge
    ensures var u, mid := UploadOf(c, large), SubmitStep(s, c, large, forced, failure);
      var stage := Stage(c.stage.base, Changed(s.files, u), Doomed(s.files, u));
      && mid.server.head == s.head && Progress(s, mid.server.files, stage, merge)
      && mid.client == c.(stage := mid.client.stage)
      && if failure.UploadCut? then
           mid.server == s && mid.client.stage == CutShort(s.files, c.stage, u, failure.stored)
         else mid.client.stage == stage
  {
    var u := UploadOf(c, large);
    hide UploadOf, Uploaded, CutShort, Destructive, Unchanged, Unmergeable, Interrupted, Doomed, Changed, Progress,
      SurpriseFree, NothingToSubmit;
    var stage := Stage(c.stage.base, Changed(s.files, u), Doomed(s.files, u));
    StagedByFresh(s.files, c.stage, u);
    InterruptedProgress(s, stage, merge, {});
    match failure {
      case MergeFails(_, written) => InterruptedProgress(s, stage, merge, written);
      case _ =>
    }
  }

  lemma {:induction false} InterruptedProgress(s: Server, stage: Stage, merge: Merger, written: set<string>)
    ensures Progress(s, s.files, stage, merge) && Progress(s, Interrupted(s, stage, merge, written), stage, merge)
  {
    assert Contents(s, stage, merge).Keys == stage.files.Keys;
  }

  lemma {:induction false} UploadAfter(s: Server, now: Files, u: Upload, base: Version, merge: Merger)
    requires Progress(s, now, Stage(base, Changed(s.files, u), Doomed(s.files, u)), merge)
    ensures var stage := Stage(base, Changed(s.files, u), Doomed(s.files, u));
      Uploaded(now, stage, u) == stage
  {
    hide Destructive, Contents;
    assert Changed(s.files, u) + Changed(now, u) == Changed(s.files, u);
    assert Doomed(now, u) <= Doomed(s.files, u);
  }

  /** Every file that a failed flush has written merges again to what it is. */
  predicate MergesAgain(head: Files, now: Files, ours: Files, merge: Merger) {
    forall x | x in now && x in ours && At(head, x) != Some(now[x]) :: merge(x, Some(now[x]), ours[x]) == Some(now[x])
  }

  lemma {:induction false} MergedAfter(s: Server, now: Files, stage: Stage, merge: Merger)
    requires Progress(s, now, stage, merge) && !Unmergeable(s, stage, merge)
    ensures var s' := Server(s.head, now);
      && (Unchanged(now, stage) ==> Unchanged(s.files, stage))
      && (!Unmergeable(s', stage, merge) && MergedFiles(s', stage, merge) == MergedFiles(s, stage, merge) <==>
          stage.base == s.head || MergesAgain(s.files, now, stage.files, merge))
  {
    var s' := Server(s.head, now);
    var first, second := Contents(s, stage, merge), Contents(s', stage, merge);
    assert first.Keys == stage.files.Keys == second.Keys;
    if stage.base == s.head {
      assert now + second == s.files + first;
    } else {
      assert !Conflicts(s, stage, merge);
      if MergesAgain(s.files, now, stage.files, merge) {
        SameContents(s, now, stage, merge);
        assert now + second == s.files + first;
      } else if !Unmergeable(s', stage, merge) {
        var x :| x in now && x in stage.files && At(s.files, x) != Some(now[x])
          && merge(x, Some(now[x]), stage.files[x]) != Some(now[x]);
        assert x in MergedFiles(s, stage, merge) && MergedFiles(s, stage, merge)[x] == first[x] == now[x];
        assert x in MergedFiles(s', stage, merge) && MergedFiles(s', stage, merge)[x] == second[x];
        assert !Conflicts(s', stage, merge);
      }
    }
  }

  lemma {:induction false} SameContents(s: Server, now: Files, stage: Stage, merge: Merger)
    requires Progress(s, now, stage, merge) && stage.base != s.head && !Unmergeable(s, stage, merge)
    requires MergesAgain(s.files, now, stage.files, merge)
    ensures Contents(Server(s.head, now), stage, merge) == Contents(s, stage, merge)
    ensures !Unmergeable(Server(s.head, now), stage, merge)
  {
    var s' := Server(s.head, now);
    forall x | x in stage.files
      ensures merge(x, At(now, x), stage.files[x]) == merge(x, At(s.files, x), stage.files[x])
    {
      assert merge(x, At(s.files, x), stage.files[x]).Some?;
    }
    assert !Conflicts(s', stage, merge);
  }

  /** All or nothing, by trying again. If the first submit of a workspace fails anywhere before
      its merge, trying again leaves exactly what it would have left by succeeding at once, if
      and only if the files that were flushed neither put the upload over the safety rail nor,
      without force, are a surprise, and, in a workspace behind the head, all merge again to
      what they are. */
  lemma {:induction false} RetryCompletes(s: Server, c: Client, large: bool, forced: bool, failure: Outcome, success: Outcome)
    requires c.stage.Fresh() && success.Merges? && success.advances && Merging(s, c, large, forced, success.merge)
    requires !failure.Merges? && (failure.MergeFails? ==> failure.merge == success.merge)
    ensures var u, mid := UploadOf(c, large), SubmitStep(s, c, large, forced, failure);
      SubmitStep(mid.server, mid.client, large, forced, success) == SubmitStep(s, c, large, forced, success) <==>
        && !Destructive(mid.server.files, u)
        && (forced || SurpriseFree(mid.server, c))
        && (c.stage.base == s.head || MergesAgain(s.files, mid.server.files, Changed(s.files, u), success.merge))
  {
    hide *;
    hide Progress, MergesAgain;
    var u, mid, merge := UploadOf(c, large), SubmitStep(s, c, large, forced, failure), success.merge;
    HeadMoves(s, c, large, forced, success);
    MergingChecks(s, c, large, forced, merge);
    if failure.PlanFails? {
      NothingHappened(s, c, large, forced);
      NothingFlushed(s.files, Changed(s.files, u), merge);
    } else {
      var stage := Stage(c.stage.base, Changed(s.files, u), Doomed(s.files, u));
      StagedByFresh(s.files, c.stage, u);
      HalfDone(s, c, large, forced, failure, merge);
      SameRest(c, mid.client, mid.server, large);
      HeadMoves(mid.server, mid.client, large, forced, success);
      MergingIs(s, c, large, forced, merge);
      MergingIs(mid.server, mid.client, large, forced, merge);
      UploadAfter(s, mid.server.files, u, c.stage.base, merge);
      if failure.UploadCut? { UploadAgain(s.files, c.stage, u, failure.stored); }
      MergedAfter(s, mid.server.files, stage, merge);
      if Merging(mid.server, mid.client, large, forced, merge) {
        SucceedsAs(s, c, large, forced, success, stage);
        SucceedsAs(mid.server, mid.client, large, forced, success, stage);
      }
    }
  }

  lemma NothingFlushed(head: Files, ours: Files, merge: Merger)
    ensures MergesAgain(head, head, ours, merge)
  {
  }

  lemma NothingHappened(s: Server, c: Client, large: bool, forced: bool)
    ensures SubmitStep(s, c, large, forced, PlanFails) == Submission(s, c, Err(NoPlan))
  {
  }

  lemma MergingIs(s: Server, c: Client, large: bool, forced: bool, merge: Merger)
    ensures var u := UploadOf(c, large);
      var stage := Uploaded(s.files, c.stage, u);
      Merging(s, c, large, forced, merge) <==>
        && (forced || SurpriseFree(s, c)) && !NothingToSubmit(c)
        && !Destructive(s.files, u) && !Unchanged(s.files, stage) && !Unmergeable(s, stage, merge)
  {
  }

  /** The rail can refuse a retry for good. Two deletions are allowed on a server with two files;
      once a failed flush has added a third, they are more than half. */
  lemma {:induction false} RetryRefused(s: Server, c: Client, path: string, gone: seq<string>, merge: Merger, merge': Merger)
    requires |s.files| == 2 && SurpriseFree(s, c) && !c.pushFromRoot && c.stage == Stage(s.head, map[], {})
    requires c.deleted == gone && |NonEmpty(gone)| == 2 && path !in gone
    requires path in c.overlay && path !in s.files && !Dropped(path)
    ensures SubmitStep(s, c, true, false, Merges(merge, true, Answered)).result.Ok?
    ensures var mid := SubmitStep(s, c, true, false, MergeFails(merge, {path}));
      var again := SubmitStep(mid.server, mid.client, true, false, Merges(merge', true, Answered));
      && mid.server.files == s.files[path := c.overlay[path]]
      && again == mid.(result := Err(Remote))
  {
    var u := UploadOf(c, true);
    var stage := Stage(s.head, Changed(s.files, u), Doomed(s.files, u));
    var mid := SubmitStep(s, c, true, false, MergeFails(merge, {path}));
    TwoThenThree(s.files, c, path, gone);
    AcceptedAtTwo(s, c, path, merge);
    assert c.stage.Fresh();
    hide *;
    StagedByFresh(s.files, c.stage, u);
    OkExactly(s, c, true, false, merge);
    FlushedOne(s, c, stage, path, merge);
    HalfDone(s, c, true, false, MergeFails(merge, {path}), merge);
    StillKnown(s, c, path, mid.server.files);
    SameRest(c, mid.client, mid.server, true);
    UploadAfter(s, mid.server.files, u, s.head, merge);
    RailRefuses(mid.server, mid.client, merge');
  }

  lemma {:induction false} TwoThenThree(head: Files, c: Client, path: string, gone: seq<string>)
    requires |head| == 2 && !c.pushFromRoot && c.deleted == gone && |NonEmpty(gone)| == 2 && path !in gone
    requires path in c.overlay && path !in head && !Dropped(path)
    ensures var u := UploadOf(c, true);
      && !Destructive(head, u) && Destructive(head[path := c.overlay[path]], u)
      && path in Changed(head, u) && Changed(head, u)[path] == c.overlay[path] && path !in Doomed(head, u)
  {
    var more := head[path := c.overlay[path]];
    NonEmptyIn(gone);
    SizeIs(head.Keys);
    SizeIs(more.Keys);
    assert more.Keys == head.Keys + {path};
    hide Dropped;
    assert |more.Keys| == 3 && |head.Keys| == 2;
  }

  lemma {:induction false} AcceptedAtTwo(s: Server, c: Client, path: string, merge: Merger)
    requires SurpriseFree(s, c) && !c.pushFromRoot && c.stage == Stage(s.head, map[], {})
    requires !Destructive(s.files, UploadOf(c, true)) && path in c.overlay && path !in s.files && !Dropped(path)
    ensures SubmitStep(s, c, true, false, Merges(merge, true, Answered)).result.Ok?
  {
    ServerOnlyEmpty(s, c);
    assert path in Source(c);
    hide SubmitStep, Dropped, Destructive, UploadOf, Source, Known;
    AcceptedWhen(s, c, true, false, merge);
  }

  lemma {:induction false} FlushedOne(s: Server, c: Client, stage: Stage, path: string, merge: Merger)
    requires Merging(s, c, true, false, merge) && stage.base == s.head && path in stage.files && path !in stage.deleted
    requires Uploaded(s.files, c.stage, UploadOf(c, true)) == stage
    ensures SubmitStep(s, c, true, false, MergeFails(merge, {path})).server.files == s.files[path := stage.files[path]]
  {
    hide UploadOf, Uploaded, SurpriseFree, NothingToSubmit, Destructive, Unchanged, Unmergeable;
    assert Interrupted(s, stage, merge, {path}) == s.files[path := stage.files[path]];
  }

  lemma {:induction false} StillKnown(s: Server, c: Client, path: string, now: Files)
    requires SurpriseFree(s, c) && !c.pushFromRoot && path in c.overlay && path !in c.deleted
    requires now.Keys == s.files.Keys + {path}
    ensures SurpriseFree(Server(s.head, now), c)
  {
    ServerOnlyEmpty(s, c);
    ServerOnlyEmpty(Server(s.head, now), c);
  }

  lemma {:induction false} RailRefuses(s: Server, c: Client, merge: Merger)
    requires SurpriseFree(s, c) && !NothingToSubmit(c) && Destructive(s.files, UploadOf(c, true))
    ensures var again := SubmitStep(s, c, true, false, Merges(merge, true, Answered));
      again == Submission(s, c.(stage := Uploaded(s.files, c.stage, UploadOf(c, true))), Err(Remote))
  {
    hide UploadOf, Uploaded, SurpriseFree, NothingToSubmit, Destructive, Unchanged, Unmergeable, MergedFiles;
  }

  lemma SameRest(c: Client, d: Client, s: Server, large: bool)
    requires d == c.(stage := d.stage)
    ensures UploadOf(d, large) == UploadOf(c, large) && NothingToSubmit(d) == NothingToSubmit(c)
    ensures SurpriseFree(s, d) == SurpriseFree(s, c)
  {
  }

  lemma {:induction false} SucceedsAs(s: Server, c: Client, large: bool, forced: bool, success: Outcome, stage: Stage)
    requires success.Merges? && Merging(s, c, large, forced, success.merge) && Uploaded(s.files, c.stage, UploadOf(c, large)) == stage
    ensures SubmitStep(s, c, large, forced, success) ==
      Finished(Server(if success.advances then s.head + 1 else s.head, MergedFiles(s, stage, success.merge)),
               s.head + 1, c.(stage := stage), success.finish)
  {
    hide UploadOf, Uploaded, Destructive, Unchanged, Unmergeable, MergedFiles, SurpriseFree, NothingToSubmit, Finished;
  }

  /** The server after a submit without surprises that is merged at the head. */
  lemma {:induction false} MergedAtHead(s: Server, c: Client, large: bool, outcome: Outcome)
    requires c.stage == Stage(s.head, map[], {}) && outcome.Merges? && Merging(s, c, large, false, outcome.merge)
    ensures SubmitStep(s, c, large, false, outcome).server.files ==
      if !large then Packed(c.base)
      else if c.pushFromRoot then s.files + Packed(c.base)
      else s.files + (Packed(c.overlay) - Elems(NonEmpty(c.deleted)))
  {
    var u := UploadOf(c, large);
    var stage := Stage(s.head, Changed(s.files, u), Doomed(s.files, u));
    assert c.stage.Fresh();
    hide *;
    UploadShape(c, large);
    MergingChecks(s, c, large, false, outcome.merge);
    HeadMoves(s, c, large, false, outcome);
    StagedByFresh(s.files, c.stage, u);
    AppliedExactly(s.files, u);
    DoomedBySurpriseFree(s, c, large);
    FilesMergedAtHead(s, stage, outcome.merge);
    if large { LessNothing(s.files, Doomed(s.files, u)); }
  }

  lemma LessNothing(files: Files, gone: set<string>)
    requires files.Keys !! gone
    ensures files - gone == files
  {
  }

  lemma FilesMergedAtHead(s: Server, stage: Stage, merge: Merger)
    requires stage.base == s.head
    ensures MergedFiles(s, stage, merge) == (s.files + stage.files) - stage.deleted
  {
  }

  lemma {:induction false} UploadShape(c: Client, large: bool)
    ensures !large ==> UploadOf(c, large) == Full(Packed(c.base))
    ensures large && c.pushFromRoot ==> UploadOf(c, large) == Delta(Packed(c.base), [])
    ensures large && !c.pushFromRoot ==> UploadOf(c, large) == Delta(Packed(c.overlay), c.deleted)
    ensures Packed(c.base) - Elems(NonEmpty([])) == Packed(c.base)
  {
    assert Elems([]) == {};
  }

  lemma AppliedExactly(head: Files, u: Upload)
    ensures (head + Changed(head, u)) - Doomed(head, u) ==
      match u
      case Full(f) => f
      case Delta(f, deleted) => (head - Doomed(head, u)) + (f - Elems(NonEmpty(deleted)))
  {
  }

  /** An accepted overlay: next to a large root its files arrive and nothing else changes; next
      to a small one the root is sent instead, and the overlay arrives exactly when the root
      has the same files. */
  lemma {:induction false} OverlayArrivesExactly(s: Server, c: Client, large: bool, outcome: Outcome)
    requires !c.pushFromRoot && c.stage == Stage(s.head, map[], {})
    requires outcome.Merges? && Merging(s, c, large, false, outcome.merge)
    ensures var after := SubmitStep(s, c, large, false, outcome).server.files;
      && (forall x | x in c.overlay && !Dropped(x) && x !in NonEmpty(c.deleted) ::
            x in after && after[x] == c.overlay[x]) <==>
         (large || forall x | x in c.overlay && !Dropped(x) && x !in NonEmpty(c.deleted) ::
            x in c.base && c.base[x] == c.overlay[x])
  {
    MergedAtHead(s, c, large, outcome);
    hide Dropped, SubmitStep, Merging;
  }

  /** A submitted root: with either upload mode every root file that arrives is on the server as
      written. The two modes leave the same files exactly when all server paths arrive; those
      that do not are only kept by the delta. */
  lemma {:induction false} RootPushApplies(s: Server, c: Client, outcome: Outcome)
    requires c.pushFromRoot && c.stage == Stage(s.head, map[], {}) && outcome.Merges?
    requires Merging(s, c, false, false, outcome.merge) && Merging(s, c, true, false, outcome.merge)
    ensures var full, delta := SubmitStep(s, c, false, false, outcome), SubmitStep(s, c, true, false, outcome);
      && full.server.files == Packed(c.base)
      && Packed(delta.server.files) == Packed(c.base)
      && (full.server.files == delta.server.files <==> NoneDropped(s.files))
  {
    hide SubmitStep, Merging, Packed;
    MergedAtHead(s, c, false, outcome);
    MergedAtHead(s, c, true, outcome);
    ServerOnlyEmpty(s, c);
    MergingChecks(s, c, false, false, outcome.merge);
    PackedOver(s.files, c.base);
  }

  lemma MergingChecks(s: Server, c: Client, large: bool, forced: bool, merge: Merger)
    requires Merging(s, c, large, forced, merge)
    ensures !Destructive(s.files, UploadOf(c, large)) && (forced || SurpriseFree(s, c)) && !NothingToSubmit(c)
  {
  }

  lemma {:induction false} PackedOver(files: Files, root: Files)
    requires files.Keys <= root.Keys
    ensures Packed(files + Packed(root)) == Packed(root)
    ensures Packed(root) == files + Packed(root) <==> NoneDropped(files)
  {
    hide Dropped;
    var delta := files + Packed(root);
    assert Packed(delta).Keys == Packed(root).Keys;
    if NoneDropped(files) {
      assert delta.Keys == Packed(root).Keys;
    } else {
      var x :| x in files && Dropped(x);
      assert x in delta && x !in Packed(root);
    }
  }

  /** A forced submit does not look at the base version at all: drift, like every other
      surprise, changes neither what it does nor what it answers. */
  lemma {:induction false} ForcedIgnoresDrift(s: Server, c: Client, v: Version, large: bool, outcome: Outcome)
    ensures var r, r' := SubmitStep(s, c, large, true, outcome), SubmitStep(s, c.(baseVersion := v), large, true, outcome);
      r' == r.(client := r.client.(baseVersion := v))
  {
    hide Uploaded, CutShort, Destructive, Unchanged, Unmergeable, MergedFiles, Interrupted, UploadOf, NothingToSubmit;
    SameUpload(c, v, large);
  }

  lemma SameUpload(c: Client, v: Version, large: bool)
    ensures UploadOf(c.(baseVersion := v), large) == UploadOf(c, large)
    ensures NothingToSubmit(c.(baseVersion := v)) == NothingToSubmit(c)
  {
  }

  /** A workspace opened at an outdated local head is registered at the current one. Forced, its
      overlay overwrites files that the client has never seen, whatever merging would have made
      of them: the server finds nothing to merge. */
  lemma {:induction false} ForcedOverDrift(s: Server, c: Client, overlay: Files, merge: Merger)
    requires c.localHead != s.head && NoneDropped(overlay)
    requires overlay != map[] && exists x | x in overlay :: !(x in s.files && s.files[x] == overlay[x])
    ensures var stale := Opened(s, c, false).(overlay := overlay);
      && SubmitStep(s, stale, true, false, Merges(merge, true, Answered)).result == Err(Surprises)
      && SubmitStep(s, stale, true, true, Merges(merge, true, Answered)).server == Server(s.head + 1, s.files + overlay)
  {
    var stale := Opened(s, c, false).(overlay := overlay);
    var u, outcome := Delta(overlay, []), Merges(merge, true, Answered);
    OverlayUpload(s.files, stale, overlay);
    assert stale.stage.Fresh() && !NothingToSubmit(stale);
    hide *;
    StagedByFresh(s.files, stale.stage, u);
    MergingAtHead(s, stale, u, merge);
    HeadMoves(s, stale, true, true, outcome);
    FilesMergedAtHead(s, Stage(s.head, Changed(s.files, u), {}), merge);
    Refused(s, stale, true, outcome);
    SurprisesOnly(s, stale, true, outcome);
  }

  lemma {:induction false} SurprisesOnly(s: Server, c: Client, large: bool, outcome: Outcome)
    requires outcome.Merges?
    ensures SubmitStep(s, c, large, false, outcome).result != Err(NoPlan)
  {
    hide UploadOf, Uploaded, Destructive, Unchanged, Unmergeable, MergedFiles, SurpriseFree, NothingToSubmit;
  }

  lemma {:induction false} OverlayUpload(head: Files, c: Client, overlay: Files)
    requires !c.pushFromRoot && c.overlay == overlay && c.deleted == [] && NoneDropped(overlay)
    ensures var u := Delta(overlay, []);
      && UploadOf(c, true) == u && !Destructive(head, u) && Doomed(head, u) == {}
      && (head + Changed(head, u)) - {} == head + overlay
  {
    hide Dropped;
    assert Packed(overlay) == overlay;
    assert Elems([]) == {};
  }

  lemma {:induction false} MergingAtHead(s: Server, c: Client, u: Upload, merge: Merger)
    requires c.stage == Stage(s.head, map[], {}) && !NothingToSubmit(c)
    requires UploadOf(c, true) == u && !Destructive(s.files, u)
    requires Uploaded(s.files, c.stage, u) == Stage(s.head, Changed(s.files, u), Doomed(s.files, u))
    requires exists x | x in u.files :: !(x in s.files && s.files[x] == u.files[x])
    ensures Merging(s, c, true, true, merge)
  {
    hide UploadOf, Uploaded, Destructive, Doomed;
    var x :| x in u.files && !(x in s.files && s.files[x] == u.files[x]);
    assert x in Changed(s.files, u);
  }

  // ── Pulling ─────────────────────────────────────────────────────────────

  /** A pull touches no file that was present, and afterwards every server path is present
      whether or not anything was missing. */
  lemma {:induction false} PullCovers(s: Server, c: Client)
    ensures var after := PullStep(s, c, true).client;
      && after.overlay == c.overlay && after.deleted == c.deleted && after.status == c.status
      && c.base.Keys <= after.base.Keys && (forall x | x in c.base :: after.base[x] == c.base[x])
      && s.files.Keys <= after.base.Keys + after.overlay.Keys
      && (forall x | x in Missing(s, c) :: x in after.base && after.base[x] == s.files[x])
  {
    var got := Fetched(s, Missing(s, c));
    assert PullStep(s, c, true).client.base == c.base + got by { PulledIs(s, c); }
    assert PullStep(s, c, true).client == c.(
      base := c.base + got, baseVersion := PullStep(s, c, true).client.baseVersion,
      localHead := PullStep(s, c, true).client.localHead) by { PulledIs(s, c); }
    hide Missing, Fetched, PullStep;
  }

  lemma {:induction false} PulledIs(s: Server, c: Client)
    ensures var after := PullStep(s, c, true).client;
      after == c.(base := c.base + Fetched(s, Missing(s, c)), baseVersion := after.baseVersion, localHead := after.localHead)
  {
    if Missing(s, c) == {} { assert c.base + Fetched(s, Missing(s, c)) == c.base; }
    hide Missing, Fetched;
  }

  /** After a pull, a plan is free of surprises exactly when something was missing or the
      base was the head already, and no deleted path is on the server (for a push from the
      root: and nothing is present in the overlay only). */
  lemma {:induction false} PlanAfterPull(s: Server, c: Client)
    ensures SurpriseFree(s, PullStep(s, c, true).client) <==>
      && (Missing(s, c) != {} || c.baseVersion == s.head)
      && (if c.pushFromRoot then s.files.Keys * c.overlay.Keys <= c.base.Keys
          else s.files.Keys !! Elems(c.deleted))
  {
    PulledKnown(s, c);
    ServerOnlyEmpty(s, PullStep(s, c, true).client);
  }

  lemma {:induction false} PulledKnown(s: Server, c: Client)
    ensures s.files.Keys <= Known(PullStep(s, c, true).client) <==>
      if c.pushFromRoot then s.files.Keys * c.overlay.Keys <= c.base.Keys
      else s.files.Keys !! Elems(c.deleted)
  {
    var after := PullStep(s, c, true).client;
    PullCovers(s, c);
    if c.pushFromRoot {
      if s.files.Keys <= Known(after) {
        forall x | x in s.files.Keys * c.overlay.Keys ensures x in c.base { assert x in Known(after); }
      } else {
        var x :| x in s.files && x !in Known(after);
        assert x !in Missing(s, c);
      }
    }
  }

  /** Two file sets have the same content wherever both have a file. */
  predicate Agree(a: Files, b: Files) { forall x | x in a && x in b :: a[x] == b[x] }

  /** A pull compares paths, not contents: once it has moved the base version, the pulled
      root agrees with the server exactly when the files it already had agreed before. */
  lemma {:induction false} PullAgreesExactly(s: Server, c: Client)
    requires Missing(s, c) != {}
    ensures var after := PullStep(s, c, true).client.base;
      (forall x | x in s.files && x in after :: after[x] == s.files[x]) <==>
        forall x | x in s.files && x in c.base :: c.base[x] == s.files[x]
    ensures Agree(PullStep(s, c, true).client.base, s.files) <==> Agree(c.base, s.files)
  {
    var after := PullStep(s, c, true).client;
    forall x | x in s.files && x in after.base ensures x in c.base || after.base[x] == s.files[x] {
      if x !in c.base { assert x in Missing(s, c); }
    }
    assert forall x | x in c.base :: after.base[x] == c.base[x];
  }

  /** A pull that fetches anything makes the base version current without refreshing the files
      that were present. The push that follows leaves the content of every server file alone
      exactly when those files agreed with the server; otherwise it is accepted, and puts the
      outdated ones back. */
  lemma {:induction false} PullThenPushExactly(s: Server, c: Client, large: bool, merge: Merger)
    requires Missing(s, c) != {} && NoneDropped(s.files) && s.files.Keys * c.overlay.Keys <= c.base.Keys
    ensures var r := SubmitStep(s, Opened(s, PullStep(s, c, true).client, true), large, false, Merges(merge, true, Answered));
      && s.files.Keys <= r.server.files.Keys
      && ((forall x | x in s.files :: r.server.files[x] == s.files[x]) <==>
        forall x | x in s.files && x in c.base :: c.base[x] == s.files[x])
      && (!(forall x | x in s.files && x in c.base :: c.base[x] == s.files[x]) ==>
        r.result.Ok? && forall x | x in s.files && x in c.base :: r.server.files[x] == c.base[x])
  {
    var pulled := PullStep(s, c, true).client;
    var again := Opened(s, pulled, true);
    var server := SubmitStep(s, again, large, false, Merges(merge, true, Answered)).server.files;
    PullCovers(s, c);
    PullAgreesExactly(s, c);
    PulledRoot(s, c);
    hide SubmitStep, PullStep, Dropped, Missing, Opened, SurpriseFree;
    PushOverServer(s, again, large, merge);
  }

  /** What a push from the root starts from after a pull that fetched something. */
  lemma {:induction false} PulledRoot(s: Server, c: Client)
    requires Missing(s, c) != {} && s.files.Keys * c.overlay.Keys <= c.base.Keys
    ensures var again := Opened(s, PullStep(s, c, true).client, true);
      && again.base == PullStep(s, c, true).client.base
      && s.files.Keys <= again.base.Keys && SurpriseFree(s, again) && again.stage == Stage(s.head, map[], {})
      && again.pushFromRoot
  {
    var again := Opened(s, PullStep(s, c, true).client, true);
    ServerOnlyEmpty(s, again);
    forall x | x in s.files ensures x in again.base { assert x in Missing(s, c) || x in c.base || x in c.overlay; }
  }

  lemma {:induction false} PushOverServer(s: Server, c: Client, large: bool, merge: Merger)
    requires c.pushFromRoot && c.stage == Stage(s.head, map[], {}) && SurpriseFree(s, c)
    requires NoneDropped(s.files) && s.files.Keys <= c.base.Keys
    ensures var r := SubmitStep(s, c, large, false, Merges(merge, true, Answered));
      && s.files.Keys <= r.server.files.Keys
      && (Agree(c.base, s.files) ==> Agree(r.server.files, s.files))
      && (!Agree(c.base, s.files) ==>
        r.result.Ok? && !Agree(r.server.files, s.files) && forall x | x in s.files :: r.server.files[x] == c.base[x])
  {
    var outcome := Merges(merge, true, Answered);
    ServerOnlyEmpty(s, c);
    hide SubmitStep, Merging, Dropped, UploadOf, Destructive;
    HeadMoves(s, c, large, false, outcome);
    OkExactly(s, c, large, false, merge);
    AcceptedWhen(s, c, large, false, merge);
    PushIsHarmless(s, c, large);
    if Merging(s, c, large, false, merge) { MergedAtHead(s, c, large, outcome); }
    if x :| x in s.files && c.base[x] != s.files[x] {
      assert x in Source(c) && !Dropped(x);
      assert x in Packed(c.base) && Packed(c.base)[x] != s.files[x];
    }
  }

  lemma {:induction false} PushIsHarmless(s: Server, c: Client, large: bool)
    requires c.pushFromRoot && NoneDropped(s.files) && s.files.Keys <= c.base.Keys
    ensures !Destructive(s.files, UploadOf(c, large))
  {
    hide Dropped;
    if !large { assert s.files.Keys - Packed(c.base).Keys == {}; }
  }

  // ── Runs ────────────────────────────────────────────────────────────────

  datatype System = System(server: Server, clients: map<nat, Client>)

  /** One step of one client. An edit replaces local files and deletions by anything. */
  datatype Step =
    | Open(client: nat, pushFromRoot: bool)
    | Edit(client: nat, base: Files, overlay: Files, deleted: seq<string>)
    | Pull(client: nat, downloads: bool)
    | Submit(client: nat, large: bool, forced: bool, outcome: Outcome)

  ghost function Next(sys: System, step: Step): System {
    if step.client !in sys.clients then sys
    else
      var c := sys.clients[step.client];
      match step
      case Open(i, push) => sys.(clients := sys.clients[i := Opened(sys.server, c, push)])
      case Edit(i, base, overlay, deleted) =>
        sys.(clients := sys.clients[i := c.(base := base, overlay := overlay, deleted := deleted)])
      case Pull(i, downloads) =>
        sys.(clients := sys.clients[i := PullStep(sys.server, c, downloads).client])
      case Submit(i, large, forced, outcome) =>
        var r := SubmitStep(sys.server, c, large, forced, outcome);
        System(r.server, sys.clients[i := r.client])
  }

  ghost function Run(sys: System, steps: seq<Step>): System {
    if steps == [] then sys else Next(Run(sys, steps[..|steps| - 1]), steps[|steps| - 1])
  }

  /** The paths that uploads of a client's present workspace have listed as deleted, given those
      listed before a step. */
  ghost function ListedAfter(sys: System, listed: set<string>, step: Step, i: nat): set<string> {
    if step.client != i || i !in sys.clients then listed
    else
      match step
      case Open(_, _) => {}
      case Submit(_, large, forced, outcome) =>
        var c := sys.clients[i];
        if c.pushFromRoot
           || SubmitStep(sys.server, c, large, forced, outcome).result in {Err(NoPlan), Err(Surprises), Err(Empty)}
        then listed else listed + Elems(c.deleted)
      case _ => listed
  }

  ghost function Listed(sys: System, steps: seq<Step>, i: nat): set<string> {
    if steps == [] then {}
    else
      var before := steps[..|steps| - 1];
      ListedAfter(Run(sys, before), Listed(sys, before, i), steps[|steps| - 1], i)
  }

  /** Submits are not forced; an overlay goes next to a large root, or to one that holds all server
      paths, and still lists what earlier uploads of its workspace listed as deleted. A push from
      the root may be retried freely. */
  ghost predicate Plain(sys: System, listed: set<string>, step: Step) {
    step.Submit? && step.client in sys.clients ==>
      var c := sys.clients[step.client];
      !step.forced && (c.pushFromRoot ||
        ((step.large || sys.server.files.Keys <= c.base.Keys) && listed <= Elems(c.deleted)))
  }

  ghost predicate PlainRun(sys: System, steps: seq<Step>) {
    steps == [] ||
    var before, step := steps[..|steps| - 1], steps[|steps| - 1];
    PlainRun(sys, before) && Plain(Run(sys, before), Listed(sys, before, step.client), step)
  }

  /** What is staged for a client arrives in tarballs, and deletes only what was listed. */
  ghost predicate SafeClient(c: Client, listed: set<string>) {
    NoneDropped(c.stage.files) && c.stage.deleted <= (if c.pushFromRoot then {} else listed)
  }

  lemma {:induction false} UploadArrives(c: Client, large: bool)
    ensures NoneDropped(UploadOf(c, large).files)
  {
    hide Dropped;
  }

  lemma {:induction false} StagedArrives(head: Files, stage: Stage, u: Upload, stored: set<string>)
    requires NoneDropped(stage.files) && NoneDropped(u.files)
    ensures NoneDropped(Uploaded(head, stage, u).files) && NoneDropped(CutShort(head, stage, u, stored).files)
  {
    hide Dropped, Destructive, Doomed;
  }

  lemma {:induction false} MergedArrives(s: Server, stage: Stage, merge: Merger, written: set<string>)
    requires NoneDropped(s.files) && NoneDropped(stage.files)
    ensures NoneDropped(MergedFiles(s, stage, merge)) && NoneDropped(Interrupted(s, stage, merge, written))
    ensures s.files.Keys <= Interrupted(s, stage, merge, written).Keys
  {
    hide Dropped;
    assert Contents(s, stage, merge).Keys == stage.files.Keys;
  }

  lemma {:induction false} SubmitArrives(s: Server, c: Client, large: bool, forced: bool, outcome: Outcome)
    requires NoneDropped(s.files) && NoneDropped(c.stage.files)
    ensures var r := SubmitStep(s, c, large, forced, outcome);
      && NoneDropped(r.server.files) && NoneDropped(r.client.stage.files)
      && (!outcome.Merges? ==> s.files.Keys <= r.server.files.Keys)
      && (r.result in {Err(NoPlan), Err(Surprises), Err(Empty)} ==> r.client == c)
  {
    hide *;
    hide NoneDropped;
    var u := UploadOf(c, large);
    var stage := Uploaded(s.files, c.stage, u);
    UploadArrives(c, large);
    StagedArrives(s.files, c.stage, u, if outcome.UploadCut? then outcome.stored else {});
    match outcome
    case MergeFails(merge, written) => MergedArrives(s, stage, merge, written); SubmitCases(s, c, large, forced, outcome);
    case Merges(merge, _, _) => MergedArrives(s, stage, merge, {}); SubmitCases(s, c, large, forced, outcome);
    case _ => SubmitCases(s, c, large, forced, outcome);
  }

  lemma {:induction false} SubmitCases(s: Server, c: Client, large: bool, forced: bool, outcome: Outcome)
    ensures var r := SubmitStep(s, c, large, forced, outcome);
      var u := UploadOf(c, large);
      var stage := Uploaded(s.files, c.stage, u);
      && (r.client.stage == c.stage || r.client.stage == stage
          || (outcome.UploadCut? && r.client.stage == CutShort(s.files, c.stage, u, outcome.stored)))
      && (r.server.files == s.files
          || (outcome.Merges? && r.server.files == MergedFiles(s, stage, outcome.merge))
          || (outcome.MergeFails? && r.server.files == Interrupted(s, stage, outcome.merge, outcome.written)))
      && (r.result in {Err(NoPlan), Err(Surprises), Err(Empty)} ==> r.client == c)
  {
    hide UploadOf, Uploaded, CutShort, Destructive, Unchanged, Unmergeable, MergedFiles, Interrupted, SurpriseFree, NothingToSubmit;
  }

  /** A plain step keeps all paths, and its client safe. */
  lemma {:induction false} StepKeepsPaths(sys: System, listed: set<string>, step: Step)
    requires NoneDropped(sys.server.files) && Plain(sys, listed, step)
    requires step.client in sys.clients && SafeClient(sys.clients[step.client], listed)
    ensures var next := Next(sys, step);
      && NoneDropped(next.server.files) && sys.server.files.Keys <= next.server.files.Keys
      && next.clients.Keys == sys.clients.Keys
      && (forall j | j in sys.clients && j != step.client :: next.clients[j] == sys.clients[j])
      && SafeClient(next.clients[step.client], ListedAfter(sys, listed, step, step.client))
  {
    hide NoneDropped, SubmitStep, PullStep;
    var s, c := sys.server, sys.clients[step.client];
    match step
    case Open(_, _) => NothingArrives();
    case Edit(_, _, _, _) =>
    case Pull(_, downloads) => PullKeepsStage(s, c, downloads);
    case Submit(_, large, forced, outcome) => PlainSubmit(s, c, large, listed, outcome);
  }

  lemma NothingArrives()
    ensures NoneDropped(map[])
  {
  }

  lemma {:induction false} PlainSubmit(s: Server, c: Client, large: bool, listed: set<string>, outcome: Outcome)
    requires NoneDropped(s.files) && SafeClient(c, listed)
    requires c.pushFromRoot || ((large || s.files.Keys <= c.base.Keys) && listed <= Elems(c.deleted))
    ensures var r := SubmitStep(s, c, large, false, outcome);
      && NoneDropped(r.server.files) && s.files.Keys <= r.server.files.Keys
      && SafeClient(r.client, if c.pushFromRoot || r.result in {Err(NoPlan), Err(Surprises), Err(Empty)} then listed
                              else listed + Elems(c.deleted))
  {
    hide NoneDropped, SubmitStep, Merging, SurpriseFree;
    SubmitArrives(s, c, large, false, outcome);
    HeadMoves(s, c, large, false, outcome);
    if outcome.Merges? && Merging(s, c, large, false, outcome.merge) {
      MergingChecks(s, c, large, false, outcome.merge);
      KeptIfListed(s, c, large, listed, outcome);
    }
    SubmitDeletes(s, c, large, outcome);
  }

  /** What an unforced submit adds to the staged deletions. */
  lemma {:induction false} SubmitDeletes(s: Server, c: Client, large: bool, outcome: Outcome)
    requires NoneDropped(s.files) && (c.pushFromRoot || large || s.files.Keys <= c.base.Keys)
    ensures var r := SubmitStep(s, c, large, false, outcome);
      && r.client.pushFromRoot == c.pushFromRoot
      && (r.result in {Err(NoPlan), Err(Surprises), Err(Empty)} ==> r.client == c)
      && r.client.stage.deleted <= c.stage.deleted + if c.pushFromRoot then {} else Elems(c.deleted)
  {
    hide NoneDropped, UploadOf, Destructive, Unchanged, Unmergeable, MergedFiles, Interrupted, NothingToSubmit, Changed,
      Doomed, SurpriseFree;
    if SurpriseFree(s, c) { DoomedIfPlain(s, c, large); }
  }

  lemma {:induction false} DoomedIfPlain(s: Server, c: Client, large: bool)
    requires SurpriseFree(s, c) && NoneDropped(s.files)
    requires c.pushFromRoot || large || s.files.Keys <= c.base.Keys
    ensures Doomed(s.files, UploadOf(c, large)) <= if c.pushFromRoot then {} else Elems(c.deleted)
  {
    hide Dropped;
    ServerOnlyEmpty(s, c);
    NonEmptyElems(if large && !c.pushFromRoot then c.deleted else []);
    assert Elems([]) == {};
  }

  lemma PullKeepsStage(s: Server, c: Client, downloads: bool)
    ensures var d := PullStep(s, c, downloads).client; d.stage == c.stage && d.pushFromRoot == c.pushFromRoot
  {
  }

  lemma {:induction false} KeptIfListed(s: Server, c: Client, large: bool, listed: set<string>, outcome: Outcome)
    requires NoneDropped(s.files) && SafeClient(c, listed) && SurpriseFree(s, c)
    requires c.pushFromRoot || ((large || s.files.Keys <= c.base.Keys) && listed <= Elems(c.deleted))
    requires outcome.Merges? && Merging(s, c, large, false, outcome.merge)
    ensures s.files.Keys <= SubmitStep(s, c, large, false, outcome).server.files.Keys
  {
    hide Dropped, SubmitStep, Merging;
    SurpriseFreeKeepsPaths(s, c, large, outcome);
    ServerOnlyEmpty(s, c);
  }

  lemma {:induction false} RunKeepsPaths(sys: System, steps: seq<Step>)
    requires NoneDropped(sys.server.files) && PlainRun(sys, steps)
    requires forall i | i in sys.clients :: SafeClient(sys.clients[i], {})
    ensures NoneDropped(Run(sys, steps).server.files) && sys.server.files.Keys <= Run(sys, steps).server.files.Keys
    ensures forall i | i in Run(sys, steps).clients :: SafeClient(Run(sys, steps).clients[i], Listed(sys, steps, i))
  {
    hide NoneDropped, SafeClient, Next, Plain;
    if steps != [] {
      var before, step := steps[..|steps| - 1], steps[|steps| - 1];
      RunKeepsPaths(sys, before);
      var now := Run(sys, before);
      if step.client in now.clients {
        StepKeepsPaths(now, Listed(sys, before, step.client), step);
      } else {
        NoSuchClient(now, step);
      }
    }
  }

  lemma NoSuchClient(sys: System, step: Step)
    requires step.client !in sys.clients
    ensures Next(sys, step) == sys
  {
  }

  /** Over every run of many clients that edit, pull and submit without force, retries after
      failures of any kind included, the server's set of paths never shrinks, provided that at
      the start all server paths arrive in tarballs and nothing is staged, that no overlay is
      submitted next to a small root that lacks a server path, and that no overlay workspace takes back a deletion that it
      has uploaded. `SkippedPathIsLost`, `OverlayOnlyPathIsLost` and `DeletionTakenBack` show runs
      that lose a path without one of these. */
  lemma {:induction false} PathsNeverShrink(sys: System, steps: seq<Step>)
    requires NoneDropped(sys.server.files) && forall i | i in sys.clients :: sys.clients[i].stage.Fresh()
    requires PlainRun(sys, steps)
    ensures NoneDropped(Run(sys, steps).server.files)
    ensures sys.server.files.Keys <= Run(sys, steps).server.files.Keys
  {
    forall i | i in sys.clients ensures SafeClient(sys.clients[i], {}) { NothingArrives(); }
    hide SafeClient;
    RunKeepsPaths(sys, steps);
  }

  /** A full push loses the paths under a directory that the tarball walk skips, `target` say. */
  lemma {:induction false} SkippedPathIsLost(dir: string, rest: string, other: string, content: Bytes, merge: Merger)
    requires '/' !in dir && dir in IGNORED && !Dropped(other)
    ensures var path := dir + "/" + rest;
      var s := Server(1, map[path := content, other := content]);
      var c := Client(1, 1, Active, s.files, map[], [], true, Stage(1, map[], {}));
      SubmitStep(s, c, false, false, Merges(merge, true, Answered)).server == Server(2, map[other := content])
  {
    var path := dir + "/" + rest;
    SkippedUnder(dir, rest);
    var s := Server(1, map[path := content, other := content]);
    var c := Client(1, 1, Active, s.files, map[], [], true, Stage(1, map[], {}));
    hide Dropped, SubmitStep;
    assert Packed(c.base) == map[other := content] && path !in Packed(c.base);
    TwoFiles(s.files, path, other);
    FullPushIs(s, c, merge);
  }

  lemma {:induction false} TwoFiles(files: Files, a: string, b: string)
    requires files.Keys == {a, b}
    ensures |files| <= 2 && files != map[]
  {
    SubsetSize(files.Keys, {a, b});
    assert |files| == |files.Keys|;
    assert a in files;
  }

  /** An overlay next to a small root loses the path that only the overlay knows. */
  lemma {:induction false} OverlayOnlyPathIsLost(a: string, b: string, content: Bytes, mine: Bytes, merge: Merger)
    requires a != b && !Dropped(a)
    ensures var s := Server(1, map[a := content, b := content]);
      var c := Client(1, 1, Active, map[a := content], map[b := mine], [], false, Stage(1, map[], {}));
      SubmitStep(s, c, false, false, Merges(merge, true, Answered)).server == Server(2, map[a := content])
  {
    var s := Server(1, map[a := content, b := content]);
    var c := Client(1, 1, Active, map[a := content], map[b := mine], [], false, Stage(1, map[], {}));
    hide Dropped, SubmitStep;
    assert Packed(c.base) == map[a := content] && b in c.overlay && Elems([]) == {};
    TwoFiles(s.files, a, b);
    FullPushIs(s, c, merge);
  }

  /** A small server takes a full snapshot without surprises that differs from it. */
  lemma {:induction false} FullPushIs(s: Server, c: Client, merge: Merger)
    requires c.stage == Stage(s.head, map[], {}) && SurpriseFree(s, c) && !NothingToSubmit(c)
    requires |s.files| <= 2 && Packed(c.base) != s.files
    ensures SubmitStep(s, c, false, false, Merges(merge, true, Answered)).server == Server(s.head + 1, Packed(c.base))
  {
    var u := Full(Packed(c.base));
    UploadShape(c, false);
    SizeIs(s.files.Keys);
    assert !Destructive(s.files, u) && c.stage.Fresh();
    hide SubmitStep, UploadOf, Packed, Destructive, Unchanged, Uploaded, SurpriseFree, NothingToSubmit;
    FullUnchanged(s.files, c.stage, u);
    assert Merging(s, c, false, false, merge) by { StagedAtHead(s, c.stage, u, merge); }
    hide Merging;
    HeadMoves(s, c, false, false, Merges(merge, true, Answered));
    MergedAtHead(s, c, false, Merges(merge, true, Answered));
  }

  lemma StagedAtHead(s: Server, stage: Stage, u: Upload, merge: Merger)
    requires stage.base == s.head
    ensures !Unmergeable(s, Uploaded(s.files, stage, u), merge)
  {
  }

  /** A deletion that was taken back still happens. A workspace lists a path that the server does
      not have as deleted; the submit is refused as empty, but the deletion stays on record.
      Then someone adds the path. The client pulls it, changes it, and submits it without any
      deletion and without surprises: the server deletes it. */
  lemma {:induction false} DeletionTakenBack(s: Server, later: Server, c: Client, path: string, mine: Bytes, merge: Merger)
    requires SurpriseFree(s, c) && !c.pushFromRoot && c.stage == Stage(s.head, map[], {})
    requires c.overlay == map[] && c.deleted == [path] && path != "" && !Dropped(path) && path !in c.base
    requires later.head != s.head && path in later.files && later.files[path] != mine
    requires merge(path, Some(later.files[path]), mine).Some?
    ensures var first := SubmitStep(s, c, true, false, Merges(merge, true, Answered));
      var pulled := PullStep(later, first.client, true).client;
      var second := SubmitStep(later, pulled.(overlay := map[path := mine], deleted := []), true, false,
                               Merges(merge, true, Answered));
      && first.server == s && first.result == Err(WorkspaceEmpty)
      && second.result.Ok? && path !in second.server.files
  {
    hide *;
    PresentAt(later.files, path);
    var first := SubmitStep(s, c, true, false, Merges(merge, true, Answered));
    OnlyDeletes(s, c, path, merge);
    PulledThenEdited(later, first.client, path, mine);
    var d := PullStep(later, first.client, true).client.(overlay := map[path := mine], deleted := []);
    DeletedOnRecord(later, d, path, merge);
  }

  lemma PresentAt(files: Files, path: string)
    requires path in files
    ensures At(files, path) == Some(files[path])
  {
  }

  lemma {:induction false} PulledThenEdited(s: Server, c: Client, path: string, mine: Bytes)
    requires !c.pushFromRoot && c.overlay == map[] && path in s.files && path !in c.base
    ensures var d := PullStep(s, c, true).client.(overlay := map[path := mine], deleted := []);
      SurpriseFree(s, d) && d.stage == c.stage && !d.pushFromRoot
  {
    var pulled := PullStep(s, c, true).client;
    var d := pulled.(overlay := map[path := mine], deleted := []);
    assert path in Missing(s, c);
    ServerOnlyEmpty(s, d);
    assert Elems([]) == {};
    forall x | x in s.files ensures x in d.base { assert x in Missing(s, c) || x in c.base; }
  }

  lemma {:induction false} OnlyDeletes(s: Server, c: Client, path: string, merge: Merger)
    requires SurpriseFree(s, c) && !c.pushFromRoot && c.stage == Stage(s.head, map[], {})
    requires c.overlay == map[] && c.deleted == [path] && path != ""
    ensures SubmitStep(s, c, true, false, Merges(merge, true, Answered)) ==
      Submission(s, c.(stage := Stage(s.head, map[], {path})), Err(WorkspaceEmpty))
  {
    hide Uploaded, UploadOf, Destructive, Unmergeable, MergedFiles, SurpriseFree, Finished, Changed, Doomed;
    OneDeletion(s, c, path);
  }

  lemma {:induction false} OneDeletion(s: Server, c: Client, path: string)
    requires SurpriseFree(s, c) && !c.pushFromRoot && c.stage == Stage(s.head, map[], {})
    requires c.overlay == map[] && c.deleted == [path] && path != ""
    ensures var u := UploadOf(c, true);
      !Destructive(s.files, u) && Uploaded(s.files, c.stage, u) == Stage(s.head, map[], {path}) && path !in s.files
  {
    assert UploadOf(c, true) == Delta(map[], [path]) by {
      hide Dropped;
      assert Packed(map[]) == map[];
    }
    OnlyPath(s.files, path);
    assert c.stage.Fresh();
    hide SurpriseFree, UploadOf, Destructive, Changed, Doomed, Uploaded;
    StagedByFresh(s.files, c.stage, Delta(map[], [path]));
    UnknownIfDeleted(s, c, path);
  }

  lemma {:induction false} OnlyPath(head: Files, path: string)
    requires path != ""
    ensures var u := Delta(map[], [path]);
      !Destructive(head, u) && Changed(head, u) == map[] && Doomed(head, u) == {path}
  {
    OnePath(path);
  }

  lemma {:induction false} UnknownIfDeleted(s: Server, c: Client, path: string)
    requires SurpriseFree(s, c) && !c.pushFromRoot && path in c.deleted
    ensures path !in s.files
  {
    ServerOnlyEmpty(s, c);
  }

  lemma {:induction false} OnePath(path: string)
    requires path != ""
    ensures NonEmpty([path]) == [path] && Elems([path]) == {path}
  {
    assert [path][1..] == [];
  }

  lemma {:induction false} DeletedOnRecord(s: Server, d: Client, path: string, merge: Merger)
    requires !d.pushFromRoot && d.deleted == [] && SurpriseFree(s, d)
    requires d.overlay.Keys == {path} && !Dropped(path) && !(path in s.files && s.files[path] == d.overlay[path])
    requires d.stage.files == map[] && d.stage.deleted == {path} && merge(path, At(s.files, path), d.overlay[path]).Some?
    ensures var r := SubmitStep(s, d, true, false, Merges(merge, true, Answered)); r.result.Ok? && path !in r.server.files
  {
    hide *;
    var outcome := Merges(merge, true, Answered);
    SentOnRecord(s, d, path);
    MergingIf(s, d, path, merge);
    HeadMoves(s, d, true, false, outcome);
    OkExactly(s, d, true, false, merge);
    NoneDeleted(s, Uploaded(s.files, d.stage, UploadOf(d, true)), path, merge);
  }

  lemma {:induction false} SentOnRecord(s: Server, d: Client, path: string)
    requires !d.pushFromRoot && d.deleted == []
    requires d.overlay.Keys == {path} && !Dropped(path) && !(path in s.files && s.files[path] == d.overlay[path])
    requires d.stage.files == map[] && d.stage.deleted == {path}
    ensures var u := UploadOf(d, true);
      var stage := Uploaded(s.files, d.stage, u);
      && !Destructive(s.files, u) && !NothingToSubmit(d)
      && stage.files == map[path := d.overlay[path]] && stage.deleted == {path}
  {
    assert path in d.overlay && Packed(d.overlay) == d.overlay && Elems([]) == {};
    hide Dropped, Packed;
  }

  lemma {:induction false} MergingIf(s: Server, d: Client, path: string, merge: Merger)
    requires SurpriseFree(s, d) && !NothingToSubmit(d) && !Destructive(s.files, UploadOf(d, true))
    requires path in d.overlay && merge(path, At(s.files, path), d.overlay[path]).Some?
    requires var stage := Uploaded(s.files, d.stage, UploadOf(d, true));
      stage.files == map[path := d.overlay[path]] && stage.deleted == {path}
    ensures Merging(s, d, true, false, merge)
  {
    var stage := Uploaded(s.files, d.stage, UploadOf(d, true));
    assert path in stage.files && !Conflicts(s, stage, merge);
    hide SurpriseFree, NothingToSubmit, Destructive, UploadOf, Uploaded, Conflicts;
  }

  lemma NoneDeleted(s: Server, stage: Stage, path: string, merge: Merger)
    requires path in stage.deleted
    ensures path !in MergedFiles(s, stage, merge)
  {
  }

  // ── The chain of versions ───────────────────────────────────────────────

  /** A merged submit, whether or not its client heard of it: the base version it was made from,
      the head it was merged into, and whether the head then moved. */
  datatype Accept = Accept(base: Version, from: Version, advances: bool, forced: bool)

  ghost function AcceptOf(sys: System, step: Step): seq<Accept> {
    if step.Submit? && step.client in sys.clients && step.outcome.Merges?
       && Merging(sys.server, sys.clients[step.client], step.large, step.forced, step.outcome.merge)
    then [Accept(sys.clients[step.client].baseVersion, sys.server.head, step.outcome.advances, step.forced)]
    else []
  }

  ghost function Accepts(sys: System, steps: seq<Step>): seq<Accept> {
    if steps == [] then []
    else
      var before := steps[..|steps| - 1];
      Accepts(sys, before) + AcceptOf(Run(sys, before), steps[|steps| - 1])
  }

  /** One step: the head moves exactly when a submit is merged and the head can be written. */
  lemma {:induction false} AcceptMovesHead(sys: System, step: Step)
    ensures var acc, head := AcceptOf(sys, step), sys.server.head;
      && |acc| <= 1
      && Next(sys, step).server.head == (if acc != [] && acc[0].advances then head + 1 else head)
      && (acc != [] ==> acc[0].from == head)
      && (acc != [] && !acc[0].forced ==> acc[0].base == head)
  {
    hide SubmitStep, PullStep, Merging;
    if step.Submit? && step.client in sys.clients {
      var c := sys.clients[step.client];
      HeadMoves(sys.server, c, step.large, step.forced, step.outcome);
      if step.outcome.Merges? && Merging(sys.server, c, step.large, step.forced, step.outcome.merge) {
        MergingChecks(sys.server, c, step.large, step.forced, step.outcome.merge);
      }
    }
  }

  /** How often the head moved. */
  function Advances(acc: seq<Accept>): nat {
    if acc == [] then 0 else Advances(acc[..|acc| - 1]) + if acc[|acc| - 1].advances then 1 else 0
  }

  lemma {:induction false} AdvancesSnoc(acc: seq<Accept>, a: Accept)
    ensures Advances(acc + [a]) == Advances(acc) + if a.advances then 1 else 0
  {
    assert (acc + [a])[..|acc|] == acc;
  }

  lemma {:induction false} HeadsOfRun(sys: System, steps: seq<Step>)
    ensures var acc := Accepts(sys, steps);
      && Run(sys, steps).server.head == sys.server.head + Advances(acc)
      && (forall i | 0 <= i < |acc| :: acc[i].from == sys.server.head + Advances(acc[..i]))
      && (forall i | 0 <= i < |acc| && !acc[i].forced :: acc[i].base == acc[i].from)
  {
    hide AcceptOf, Next, Advances;
    if steps == [] {
      assert Advances([]) == 0 by { NoAdvances(); }
    } else {
      var before := steps[..|steps| - 1];
      HeadsOfRun(sys, before);
      var step, now, acc := steps[|steps| - 1], Run(sys, before), Accepts(sys, before);
      AcceptMovesHead(now, step);
      var more := AcceptOf(now, step);
      if more != [] {
        assert more == [more[0]];
        AdvancesSnoc(acc, more[0]);
        assert forall i | 0 <= i <= |acc| :: (acc + more)[..i] == acc[..i];
        assert acc[..|acc|] == acc;
      } else {
        assert acc + more == acc;
      }
    }
  }

  lemma NoAdvances()
    ensures Advances([]) == 0
  {
  }

  lemma {:induction false} AdvancesBetween(acc: seq<Accept>, i: nat, j: nat)
    requires i <= j <= |acc|
    ensures Advances(acc[..i]) <= Advances(acc[..j])
    ensures Advances(acc[..i]) == Advances(acc[..j]) <==> forall k | i <= k < j :: !acc[k].advances
    decreases j
  {
    if i < j {
      AdvancesBetween(acc, i, j - 1);
      assert acc[..j] == acc[..j - 1] + [acc[j - 1]];
      AdvancesSnoc(acc[..j - 1], acc[j - 1]);
    }
  }

  /** The merged submits of any run, in order: each is merged into the head that the earlier ones
      left, and every unforced one was based on it. No version is replaced twice, so of all
      workspaces with the same base at most one is merged without force, if and only if every
      merge before the last could write the new head. */
  lemma {:induction false} SubmitsFormAChain(sys: System, steps: seq<Step>)
    ensures var acc := Accepts(sys, steps);
      && Run(sys, steps).server.head == sys.server.head + Advances(acc)
      && (acc != [] ==> acc[0].from == sys.server.head)
      && (forall i | 0 <= i < |acc| - 1 :: acc[i + 1].from == acc[i].from + if acc[i].advances then 1 else 0)
      && (forall i | 0 <= i < |acc| && !acc[i].forced :: acc[i].base == acc[i].from)
      && ((forall i, j | 0 <= i < j < |acc| :: acc[i].from != acc[j].from) <==>
          forall i | 0 <= i < |acc| - 1 :: acc[i].advances)
      && ((forall i | 0 <= i < |acc| - 1 :: acc[i].advances) ==>
          forall i, j | 0 <= i < j < |acc| && !acc[i].forced && !acc[j].forced :: acc[i].base != acc[j].base)
  {
    HeadsOfRun(sys, steps);
    hide *;
    ChainOf(Accepts(sys, steps), sys.server.head);
  }

  lemma {:induction false} ChainOf(acc: seq<Accept>, head: Version)
    requires forall i | 0 <= i < |acc| :: acc[i].from == head + Advances(acc[..i])
    requires forall i | 0 <= i < |acc| && !acc[i].forced :: acc[i].base == acc[i].from
    ensures acc != [] ==> acc[0].from == head
    ensures forall i | 0 <= i < |acc| - 1 :: acc[i + 1].from == acc[i].from + if acc[i].advances then 1 else 0
    ensures (forall i, j | 0 <= i < j < |acc| :: acc[i].from != acc[j].from) <==>
      forall i | 0 <= i < |acc| - 1 :: acc[i].advances
    ensures (forall i | 0 <= i < |acc| - 1 :: acc[i].advances) ==>
      forall i, j | 0 <= i < j < |acc| && !acc[i].forced && !acc[j].forced :: acc[i].base != acc[j].base
  {
    hide Advances;
    if acc != [] {
      NoAdvances();
      assert acc[..0] == [];
    }
    forall i | 0 <= i < |acc| - 1 ensures acc[i + 1].from == acc[i].from + if acc[i].advances then 1 else 0 {
      assert acc[..i + 1] == acc[..i] + [acc[i]];
      AdvancesSnoc(acc[..i], acc[i]);
    }
    forall i, j | 0 <= i < j < |acc| && acc[i].advances ensures acc[i].from != acc[j].from {
      AdvancesBetween(acc, i, j);
    }
    if i :| 0 <= i < |acc| - 1 && !acc[i].advances {
      assert acc[i].from == acc[i + 1].from;
    }
  }

  /** An answered submit closes the workspace: submitting it again without force is refused as
      drifted, until a workspace is opened at the new local head, which is the server's. */
  lemma {:induction false} SubmitCloses(s: Server, c: Client, large: bool, forced: bool, merge: Merger,
                                       large': bool, outcome: Outcome, push: bool)
    requires SubmitStep(s, c, large, forced, Merges(merge, true, Answered)).result.Ok?
    requires !forced || c.baseVersion != s.head + 1
    ensures var r := SubmitStep(s, c, large, forced, Merges(merge, true, Answered));
      && SubmitStep(r.server, r.client, large', false, outcome).result in {Err(NoPlan), Err(Surprises)}
      && (!c.pushFromRoot ==> r.client.status == Submitted)
      && Opened(r.server, r.client, push).baseVersion == r.server.head
  {
    hide UploadOf, Uploaded, CutShort, Destructive, Unchanged, Unmergeable, MergedFiles, Interrupted,
      ServerOnly, NothingToSubmit;
    var r := SubmitStep(s, c, large, forced, Merges(merge, true, Answered));
    assert r.server.head == s.head + 1 && r.client.baseVersion == c.baseVersion;
    hide SubmitStep;
    Refused(r.server, r.client, large', outcome);
  }

  lemma {:induction false} Refused(s: Server, c: Client, large: bool, outcome: Outcome)
    ensures SubmitStep(s, c, large, false, outcome).result in {Err(NoPlan), Err(Surprises)} <==>
      outcome.PlanFails? || !SurpriseFree(s, c)
  {
    hide UploadOf, Uploaded, CutShort, Destructive, Unchanged, Unmergeable, MergedFiles, Interrupted,
      ServerOnly, NothingToSubmit;
  }

  /** Whether a client has pulled since it opened its workspace. */
  predicate PulledSince(steps: seq<Step>, i: nat) {
    steps != [] &&
    var before, step := steps[..|steps| - 1], steps[|steps| - 1];
    if step.client == i && (step.Open? || step.Pull?) then step.Pull? else PulledSince(before, i)
  }

  /** A client is not ahead of the server, and its workspace, if not pulled, is not based on a
      later version than it is registered at. */
  predicate Ordered(s: Server, c: Client, pulled: bool) {
    c.localHead <= s.head && c.stage.base <= s.head && (!pulled ==> c.baseVersion <= c.stage.base)
  }

  lemma {:induction false} RunOrdered(sys: System, steps: seq<Step>, i: nat)
    requires i in sys.clients && Ordered(sys.server, sys.clients[i], false)
    requires forall step | step in steps && step.client == i && step.Submit? && step.outcome.Merges? :: step.outcome.advances
    ensures i in Run(sys, steps).clients
    ensures Ordered(Run(sys, steps).server, Run(sys, steps).clients[i], PulledSince(steps, i))
  {
    hide SubmitStep, PullStep;
    if steps != [] {
      var before, step := steps[..|steps| - 1], steps[|steps| - 1];
      assert step in steps && forall other | other in before :: other in steps;
      RunOrdered(sys, before, i);
      var now := Run(sys, before);
      if step.client in now.clients {
        var c := now.clients[step.client];
        match step
        case Submit(_, large, forced, outcome) => SubmitVersions(now.server, c, large, forced, outcome);
        case Pull(_, downloads) => PullVersions(now.server, c, downloads);
        case _ =>
      }
    }
  }

  lemma PullVersions(s: Server, c: Client, downloads: bool)
    ensures var d := PullStep(s, c, downloads).client;
      d.stage == c.stage && d.localHead in {c.localHead, s.head}
  {
  }

  lemma {:induction false} SubmitVersions(s: Server, c: Client, large: bool, forced: bool, outcome: Outcome)
    ensures var r := SubmitStep(s, c, large, forced, outcome);
      && s.head <= r.server.head && r.client.baseVersion == c.baseVersion && r.client.stage.base == c.stage.base
      && (outcome.Merges? && outcome.advances ==> r.client.localHead in {c.localHead, r.server.head})
      && (!outcome.Merges? ==> r.client.localHead == c.localHead)
  {
    hide UploadOf, Destructive, Unchanged, Unmergeable, MergedFiles, Interrupted, SurpriseFree, NothingToSubmit,
      Changed, Doomed;
  }

  /** In any run in which the server could write its head whenever it merged for this client, an
      unforced submit that passes the surprise check in a workspace not pulled since it was
      opened is merged at the head: its files arrive as they are, and no merging of contents
      takes place. */
  lemma {:induction false} UnpulledIsFastForward(sys: System, steps: seq<Step>, i: nat)
    requires i in sys.clients && sys.clients[i].localHead <= sys.server.head
    requires sys.clients[i].baseVersion <= sys.clients[i].stage.base <= sys.server.head
    requires forall step | step in steps && step.client == i && step.Submit? && step.outcome.Merges? :: step.outcome.advances
    requires i in Run(sys, steps).clients && SurpriseFree(Run(sys, steps).server, Run(sys, steps).clients[i])
    requires !PulledSince(steps, i)
    ensures Run(sys, steps).clients[i].stage.base == Run(sys, steps).server.head
  {
    RunOrdered(sys, steps, i);
  }

  // ── Late submits ────────────────────────────────────────────────────────

  /** Upload and merge of a plan made earlier, without planning again. */
  ghost function LateSubmit(s: Server, c: Client, large: bool, merge: Merger): Submission {
    SubmitStep(s, c, large, true, Merges(merge, true, Answered))
  }

  /** The server moves on between a plan without surprises and its upload. If the server still
      merges it, it loses a path exactly when a path that was added in between is both sent and
      listed as deleted in a delta of an overlay. */
  lemma {:induction false} LateSubmitKeepsPaths(planned: Server, s: Server, c: Client, large: bool, merge: Merger)
    requires SurpriseFree(planned, c) && c.stage.Fresh() && c.stage.base != s.head
    requires Merging(s, c, large, true, merge)
    ensures s.files.Keys <= LateSubmit(s, c, large, merge).server.files.Keys <==>
      !(large && !c.pushFromRoot
        && exists x | x in s.files && x !in planned.files :: x in NonEmpty(c.deleted))
  {
    var u := UploadOf(c, large);
    var stage := Stage(c.stage.base, Changed(s.files, u), Doomed(s.files, u));
    HeadMoves(s, c, large, true, Merges(merge, true, Answered));
    StagedByFresh(s.files, c.stage, u);
    KeepsUndeleted(s, stage, merge);
    DoomedBySurpriseFree(planned, c, large);
    assert !Unmergeable(s, stage, merge);
    hide Dropped, SubmitStep, Merging, SurpriseFree, Destructive;
    if !large {
      forall x | x in s.files ensures x !in stage.deleted {
        assert x in stage.deleted ==> x !in stage.files;
      }
    }
    UploadShape(c, large);
    assert Elems([]) == {};
  }

  /** In particular, a late full snapshot of a root that lacks a path of the server is refused. */
  lemma {:induction false} LatePushRefused(planned: Server, s: Server, c: Client, path: string, merge: Merger)
    requires SurpriseFree(planned, c) && c.stage.Fresh() && c.stage.base != s.head
    requires path in s.files && path !in Packed(c.base)
    ensures LateSubmit(s, c, false, merge).server == s
  {
    hide Dropped, SubmitStep, Merging, Destructive, SurpriseFree, Packed;
    HeadMoves(s, c, false, true, Merges(merge, true, Answered));
    if Merging(s, c, false, true, merge) {
      LateSubmitKeepsPaths(planned, s, c, false, merge);
      LateSubmitDeletes(s, c, path, merge);
    }
  }

  lemma {:induction false} LateSubmitDeletes(s: Server, c: Client, path: string, merge: Merger)
    requires c.stage.Fresh() && Merging(s, c, false, true, merge) && path in s.files && path !in Packed(c.base)
    ensures path !in LateSubmit(s, c, false, merge).server.files
  {
    var u := UploadOf(c, false);
    assert !Destructive(s.files, u);
    hide Dropped, SubmitStep, Merging, Destructive, Packed;
    HeadMoves(s, c, false, true, Merges(merge, true, Answered));
    StagedByFresh(s.files, c.stage, u);
    assert path in Doomed(s.files, u);
  }
}
