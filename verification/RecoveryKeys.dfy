/** The values of the persisted recovery keys. */
module RecoveryKeys {
  datatype Breakpoint = Unset | At(internalId: int) | Finished

  /** recovery == "true", recovery_storage_breakpoint and recovery_breakpoint. */
  datatype Keys = Keys(running: bool, scanned: Breakpoint, target: Breakpoint)

  const NO_KEYS := Keys(false, Unset, Unset)
}
