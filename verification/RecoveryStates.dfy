/** The states of a sealed operation (src/pfsense_mcp/tier1/state_machine.py). */
module RecoveryStates {
  datatype RecoveryState =
    | Preparing | Prepared | Executing | Verified | Failed | Reconciliation | RollingBack | RolledBack | RollbackFailed | Expired
}
