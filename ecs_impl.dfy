/** Identifier space of the store (ecs_impl.h). */
module EcsImpl {
  /** `max_id`: the largest 64-bit unsigned value, reserved as the "invalid entity"
      sentinel and as the end marker of every id column. */
  const MAX_ID: nat := 0xFFFF_FFFF_FFFF_FFFF

  /** `Id_t`, a 64-bit unsigned entity identifier. */
  type Id = x: nat | x <= MAX_ID
}
