/** Events, their payloads, and the accessors that feed the index columns. */
module EventModel {
  import opened Prelude

  datatype EntitySummary = EntitySummary(
    id: string, kind: string, name: string, qualifiedName: string, filePath: string)

  datatype ConflictSeverity = Low | Medium | High

  datatype ConflictInfo = ConflictInfo(
    conflictId: Uuid, entityA: string, entityB: string, description: string, severity: ConflictSeverity)

  datatype EventKind =
    | RepoInitialized(repoId: Uuid, repoName: string)
    | VersionCreated(versionId: string, parentVersionId: Option<string>, intent: string)
    | WorkspaceCreated(workspaceId: Uuid, intent: string, baseVersion: string)
    | WorkspaceSubmitted(workspaceId: Uuid, changesSummary: string)
    | WorkspaceDiscarded(workspaceId: Uuid, reason: string)
    | EntityAdded(workspaceId: Uuid, entity: EntitySummary)
    | EntityModified(workspaceId: Uuid, entityId: string, changeDescription: string)
    | EntityRemoved(workspaceId: Uuid, entityId: string)
    | FileAdded(workspaceId: Uuid, path: string, hash: string)
    | FileModified(workspaceId: Uuid, path: string, oldHash: string, newHash: string)
    | FileRemoved(workspaceId: Uuid, path: string)
    | MergeCompleted(workspaceId: Uuid, newVersionId: string, autoResolvedConflicts: nat)
    | MergeConflictDetected(workspaceId: Uuid, conflict: ConflictInfo)
    | MergeConflictResolved(conflictId: Uuid, resolution: string, resolvedBy: string)
    | RollbackCreated(targetVersionId: string, newVersionId: string, entityFilter: Option<string>)
    | IssueCreated(issueId: Uuid, title: string, creator: string, priority: string)
    | IssueUpdated(issueId: Uuid, fieldsChanged: seq<string>)
    | IssueAssigned(issueId: Uuid, agentId: string)
    | IssueLinkedToWorkspace(issueId: Uuid, linkedWorkspace: Uuid)
    | IssueResolved(issueId: Uuid, resolution: string, resolvedVersion: Option<string>)
    | IssueClosed(issueId: Uuid, resolution: string)
    | EscalationCreated(escalationId: Uuid, escalationType: string, severity: string,
                        workspaceIds: seq<string>, summary: string)
    | EscalationResolved(escalationId: Uuid, resolution: string, resolvedBy: string)
    | CommentCreated(issueId: Uuid, commentId: Uuid, author: string, authorType: string,
                     parentId: Option<Uuid>, mentions: seq<Uuid>)
    | RepoAgentSecretSet(repoId: Uuid, key: string)
    | RepoAgentSecretDeleted(repoId: Uuid, key: string)
  {
    /** The discriminant stored in the `event_type` column. */
    function EventType(): string {
      match this
      case RepoInitialized(_, _) => "RepoInitialized"
      case VersionCreated(_, _, _) => "VersionCreated"
      case WorkspaceCreated(_, _, _) => "WorkspaceCreated"
      case WorkspaceSubmitted(_, _) => "WorkspaceSubmitted"
      case WorkspaceDiscarded(_, _) => "WorkspaceDiscarded"
      case EntityAdded(_, _) => "EntityAdded"
      case EntityModified(_, _, _) => "EntityModified"
      case EntityRemoved(_, _) => "EntityRemoved"
      case FileAdded(_, _, _) => "FileAdded"
      case FileModified(_, _, _, _) => "FileModified"
      case FileRemoved(_, _) => "FileRemoved"
      case MergeCompleted(_, _, _) => "MergeCompleted"
      case MergeConflictDetected(_, _) => "MergeConflictDetected"
      case MergeConflictResolved(_, _, _) => "MergeConflictResolved"
      case RollbackCreated(_, _, _) => "RollbackCreated"
      case IssueCreated(_, _, _, _) => "IssueCreated"
      case IssueUpdated(_, _) => "IssueUpdated"
      case IssueAssigned(_, _) => "IssueAssigned"
      case IssueLinkedToWorkspace(_, _) => "IssueLinkedToWorkspace"
      case IssueResolved(_, _, _) => "IssueResolved"
      case IssueClosed(_, _) => "IssueClosed"
      case EscalationCreated(_, _, _, _, _) => "EscalationCreated"
      case EscalationResolved(_, _, _) => "EscalationResolved"
      case CommentCreated(_, _, _, _, _, _) => "CommentCreated"
      case RepoAgentSecretSet(_, _) => "RepoAgentSecretSet"
      case RepoAgentSecretDeleted(_, _) => "RepoAgentSecretDeleted"
    }

    /** The workspace of the kinds that carry one. An issue-to-workspace link names a
        workspace but is not one of them. */
    function Workspace(): Option<Uuid> {
      match this
      case WorkspaceCreated(w, _, _) => Some(w)
      case WorkspaceSubmitted(w, _) => Some(w)
      case WorkspaceDiscarded(w, _) => Some(w)
      case EntityAdded(w, _) => Some(w)
      case EntityModified(w, _, _) => Some(w)
      case EntityRemoved(w, _) => Some(w)
      case FileAdded(w, _, _) => Some(w)
      case FileModified(w, _, _, _) => Some(w)
      case FileRemoved(w, _) => Some(w)
      case MergeCompleted(w, _, _) => Some(w)
      case MergeConflictDetected(w, _) => Some(w)
      case _ => None
    }

    function Entity(): Option<string> {
      match this
      case EntityAdded(_, entity) => Some(entity.id)
      case EntityModified(_, id, _) => Some(id)
      case EntityRemoved(_, id) => Some(id)
      case _ => None
    }
  }

  datatype Event = Event(id: nat, timestamp: int, kind: EventKind)

  /** What a query asks for: one of the `WHERE` clauses of the query functions. */
  datatype Query =
    | ByType(eventType: string)
    | ByWorkspace(workspace: Uuid)
    | ByEntity(entity: string)
    | All
    | ById(id: nat)

  predicate Wanted(q: Query, e: Event) {
    match q
    case ByType(t) => e.kind.EventType() == t
    case ByWorkspace(w) => e.kind.Workspace() == Some(w)
    case ByEntity(x) => e.kind.Entity() == Some(x)
    case All => true
    case ById(i) => e.id == i
  }

  /** A query by type wants exactly the events of the kind of that name. */
  lemma TypesByName(e: Event)
    ensures Wanted(ByType("RepoInitialized"), e) <==> e.kind.RepoInitialized?
    ensures Wanted(ByType("VersionCreated"), e) <==> e.kind.VersionCreated?
    ensures Wanted(ByType("WorkspaceCreated"), e) <==> e.kind.WorkspaceCreated?
    ensures Wanted(ByType("WorkspaceSubmitted"), e) <==> e.kind.WorkspaceSubmitted?
    ensures Wanted(ByType("WorkspaceDiscarded"), e) <==> e.kind.WorkspaceDiscarded?
    ensures Wanted(ByType("EntityAdded"), e) <==> e.kind.EntityAdded?
    ensures Wanted(ByType("EntityModified"), e) <==> e.kind.EntityModified?
    ensures Wanted(ByType("EntityRemoved"), e) <==> e.kind.EntityRemoved?
    ensures Wanted(ByType("FileAdded"), e) <==> e.kind.FileAdded?
    ensures Wanted(ByType("FileModified"), e) <==> e.kind.FileModified?
    ensures Wanted(ByType("FileRemoved"), e) <==> e.kind.FileRemoved?
    ensures Wanted(ByType("MergeCompleted"), e) <==> e.kind.MergeCompleted?
    ensures Wanted(ByType("MergeConflictDetected"), e) <==> e.kind.MergeConflictDetected?
    ensures Wanted(ByType("MergeConflictResolved"), e) <==> e.kind.MergeConflictResolved?
    ensures Wanted(ByType("RollbackCreated"), e) <==> e.kind.RollbackCreated?
    ensures Wanted(ByType("IssueCreated"), e) <==> e.kind.IssueCreated?
    ensures Wanted(ByType("IssueUpdated"), e) <==> e.kind.IssueUpdated?
    ensures Wanted(ByType("IssueAssigned"), e) <==> e.kind.IssueAssigned?
    ensures Wanted(ByType("IssueLinkedToWorkspace"), e) <==> e.kind.IssueLinkedToWorkspace?
    ensures Wanted(ByType("IssueResolved"), e) <==> e.kind.IssueResolved?
    ensures Wanted(ByType("IssueClosed"), e) <==> e.kind.IssueClosed?
    ensures Wanted(ByType("EscalationCreated"), e) <==> e.kind.EscalationCreated?
    ensures Wanted(ByType("EscalationResolved"), e) <==> e.kind.EscalationResolved?
    ensures Wanted(ByType("CommentCreated"), e) <==> e.kind.CommentCreated?
    ensures Wanted(ByType("RepoAgentSecretSet"), e) <==> e.kind.RepoAgentSecretSet?
    ensures Wanted(ByType("RepoAgentSecretDeleted"), e) <==> e.kind.RepoAgentSecretDeleted?
  {
    hide *;
    WorkspaceTypes(e);
    FileTypes(e);
    MergeTypes(e);
    IssueTypes(e);
    OtherTypes(e);
  }

  lemma WorkspaceTypes(e: Event)
    ensures Wanted(ByType("RepoInitialized"), e) <==> e.kind.RepoInitialized?
    ensures Wanted(ByType("VersionCreated"), e) <==> e.kind.VersionCreated?
    ensures Wanted(ByType("WorkspaceCreated"), e) <==> e.kind.WorkspaceCreated?
    ensures Wanted(ByType("WorkspaceSubmitted"), e) <==> e.kind.WorkspaceSubmitted?
    ensures Wanted(ByType("WorkspaceDiscarded"), e) <==> e.kind.WorkspaceDiscarded?
    ensures Wanted(ByType("EntityAdded"), e) <==> e.kind.EntityAdded?
  {
  }

  lemma FileTypes(e: Event)
    ensures Wanted(ByType("EntityModified"), e) <==> e.kind.EntityModified?
    ensures Wanted(ByType("EntityRemoved"), e) <==> e.kind.EntityRemoved?
    ensures Wanted(ByType("FileAdded"), e) <==> e.kind.FileAdded?
    ensures Wanted(ByType("FileModified"), e) <==> e.kind.FileModified?
    ensures Wanted(ByType("FileRemoved"), e) <==> e.kind.FileRemoved?
  {
  }

  lemma MergeTypes(e: Event)
    ensures Wanted(ByType("MergeCompleted"), e) <==> e.kind.MergeCompleted?
    ensures Wanted(ByType("MergeConflictDetected"), e) <==> e.kind.MergeConflictDetected?
    ensures Wanted(ByType("MergeConflictResolved"), e) <==> e.kind.MergeConflictResolved?
    ensures Wanted(ByType("RollbackCreated"), e) <==> e.kind.RollbackCreated?
    ensures Wanted(ByType("IssueCreated"), e) <==> e.kind.IssueCreated?
  {
    assert "MergeConflictDetected"[13] == 'D' && "MergeConflictResolved"[13] == 'R';
  }

  lemma IssueTypes(e: Event)
    ensures Wanted(ByType("IssueUpdated"), e) <==> e.kind.IssueUpdated?
    ensures Wanted(ByType("IssueAssigned"), e) <==> e.kind.IssueAssigned?
    ensures Wanted(ByType("IssueLinkedToWorkspace"), e) <==> e.kind.IssueLinkedToWorkspace?
    ensures Wanted(ByType("IssueResolved"), e) <==> e.kind.IssueResolved?
    ensures Wanted(ByType("IssueClosed"), e) <==> e.kind.IssueClosed?
  {
  }

  lemma OtherTypes(e: Event)
    ensures Wanted(ByType("EscalationCreated"), e) <==> e.kind.EscalationCreated?
    ensures Wanted(ByType("EscalationResolved"), e) <==> e.kind.EscalationResolved?
    ensures Wanted(ByType("CommentCreated"), e) <==> e.kind.CommentCreated?
    ensures Wanted(ByType("RepoAgentSecretSet"), e) <==> e.kind.RepoAgentSecretSet?
    ensures Wanted(ByType("RepoAgentSecretDeleted"), e) <==> e.kind.RepoAgentSecretDeleted?
  {
  }

  /** A query by workspace wants the events of a workspace's life, of its changes and of its
      merges, and neither the resolution of its conflicts nor its links. */
  lemma WorkspacesByKind(e: Event, w: Uuid)
    ensures Wanted(ByWorkspace(w), e) <==>
      && (e.kind.WorkspaceCreated? || e.kind.WorkspaceSubmitted? || e.kind.WorkspaceDiscarded?
          || e.kind.EntityAdded? || e.kind.EntityModified? || e.kind.EntityRemoved?
          || e.kind.FileAdded? || e.kind.FileModified? || e.kind.FileRemoved?
          || e.kind.MergeCompleted? || e.kind.MergeConflictDetected?)
      && e.kind.workspaceId == w
  {
  }

  /** A query by entity wants the changes of that entity. */
  lemma EntitiesByKind(e: Event, x: string)
    ensures Wanted(ByEntity(x), e) <==>
      || (e.kind.EntityAdded? && e.kind.entity.id == x)
      || ((e.kind.EntityModified? || e.kind.EntityRemoved?) && e.kind.entityId == x)
  {
  }
}
