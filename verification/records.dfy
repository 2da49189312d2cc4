/** The rows of the audit store: an action type from the catalog and one
    audit-log entry, with the action type it refers to already resolved (the
    `include: { action_type: ... }` every read path asks for). Timestamps are
    milliseconds since the Unix epoch. */
module Records {
  import opened Results
  import opened Json

  datatype ActionType = ActionType(id: int, code: string, description: Option<string>)

  datatype AuditLog = AuditLog(
    id: int,
    entityType: string,
    entityId: string,
    actionType: ActionType,
    actionBy: Option<string>,
    actionAt: int,
    previousData: Json,
    newData: Json,
    version: int,
    ipAddress: Option<string>,
    createdAt: int)
}
