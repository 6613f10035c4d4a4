/** Decoded observations, as protocol/protocol.go hands them to the assembler. */
module Readings {
  import opened Basics

  /**
   One decoded field observation; zone 0 means not zone-scoped. When it was made, and the owner
   and number of the register it was read from, are stamped on it last.
   */
  datatype Reading = Reading(
    zone: int, field: string, value: real, text: string, ts: int, owner: bv16 := 0, reg: seq<Byte> := [])
}
