/** The immutable copies of assembled state that the exporter is given. */
module Snapshots {

  /** One assembled value with its observation time. */
  datatype Field = Field(value: real, text: string, ts: int, stale: bool)

  datatype Snapshot = Snapshot(sys: map<string, Field>, zones: map<int, map<string, Field>>)
}
