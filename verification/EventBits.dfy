/** The bits of an event's mask. */
module EventBits {
  const EVENT_READ: bv8 := 0x02
  const EVENT_WRITE: bv8 := 0x04
  const EVENT_ET: bv8 := 0x10
  const EVENT_CLOSED: bv8 := 0x20
}
