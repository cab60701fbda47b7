/** The synchronizer's control messages (types/src/msg/sync.rs). */
module SyncTypes {
  import opened Ints

  datatype SyncState = ALIVE | START | STARTED | COMPLETED | STOP | STOPPED

  datatype SyncMsg = SyncMsg(sender: Replica, state: SyncState, value: string)
}
