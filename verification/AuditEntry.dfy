/** The audit record of `src/audit/mod.rs`. */
module AuditEntry {
  import opened Wrappers
  import opened Policy
  import Json

  datatype Entry = Entry(
    id: Uuid,
    sessionId: Option<Uuid>,
    workspaceId: Uuid,
    agentId: Option<Uuid>,
    action: string,
    resource: string,
    resourceId: Option<string>,
    decision: string,
    reason: Option<string>,
    riskScore: real,
    metadata: Json.Value,
    ts: int)
}
