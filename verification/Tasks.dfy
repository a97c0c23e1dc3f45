/**
 Restore descriptors: what the kernel knows about each task it may save and restore. The callbacks are outside
 the model; what they answer is data.
 */
module Tasks {
  import opened Words

  const MAX_TASKS: nat := 32
  const REGISTRY_SIZE: nat := 256

  datatype TaskClass = RestorableNow | RestartOnly | NonRestorable

  datatype Descriptor = Descriptor(kind: TaskClass, version: uint16, minLen: uint32, maxLen: uint32,
                                   hasGet: bool, hasRestore: bool)

  /** Descriptors by task id. */
  type Registry = r: seq<Option<Descriptor>> | |r| == REGISTRY_SIZE witness seq(REGISTRY_SIZE, i => None)

  /** What registration insists on. */
  predicate Admitted(d: Descriptor) {
    d.minLen <= d.maxLen && (d.kind.RestorableNow? ==> d.hasGet && d.hasRestore)
  }

  predicate WellFormed(reg: Registry) {
    forall i :: 0 <= i < REGISTRY_SIZE && reg[i].Some? ==> Admitted(reg[i].value)
  }

  predicate Restorable(reg: Registry, id: nat)
    requires id < REGISTRY_SIZE
  {
    reg[id].Some? && reg[id].value.kind.RestorableNow?
  }
}
