/** A decoded row-level change (flashbackChange in flashback_sql.go). */
module Changes {
  import opened Bytes
  import opened Options

  type Row = map<string, string>

  /** A point in time in nanoseconds, or Go's zero time. */
  type Time = Option<int>

  /** The kinds of change; the four DDL kinds are handled alike. */
  datatype Op = Insert | Update | Delete | Ddl(kind: string) | Unknown(name: string)

  datatype Change = Change(xid: U32, xid64: int, ts: Time, schema: string, table: string, op: Op,
                           before: Row, after: Row, pkCols: seq<string>, noPK: bool,
                           block: U32, offnum: U16, newBlock: U32, newOff: U16,
                           ddlRedo: string, ddlUndo: string, ddlRisk: string, mysql: bool)
}
