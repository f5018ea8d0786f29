/** NMT states and events (crates/powerlink-rs/src/nmt/states.rs, events.rs). */
module NmtStates {
  import opened Bytes

  datatype NmtState =
    | GsOff
    | GsInitialising
    | GsResetApplication
    | GsResetCommunication
    | GsResetConfiguration
    | NotActive
    | PreOperational1
    | PreOperational2
    | ReadyToOperate
    | Operational
    | CsStopped
    | BasicEthernet

  /** The byte that object 0x1F8C shows for a state. */
  function Code(s: NmtState): u8 {
    match s
    case GsOff => 0x00
    case GsInitialising => 0x19
    case GsResetApplication => 0x29
    case GsResetCommunication => 0x39
    case GsResetConfiguration => 0x79
    case NotActive => 0x1C
    case PreOperational1 => 0x1D
    case PreOperational2 => 0x5D
    case ReadyToOperate => 0x6D
    case Operational => 0xFD
    case CsStopped => 0x4D
    case BasicEthernet => 0x1E
  }

  datatype NmtEvent =
    | StartNode
    | StopNode
    | EnterPreOperational2
    | EnableReadyToOperate
    | Reset
    | SwReset
    | ResetNode
    | ResetCommunication
    | ResetConfiguration
    | EnterEplMode
    | Timeout
    | Error
    | SocSoAReceived
    | SocReceived
    | PowerlinkFrameReceived
    | CnConfigurationComplete
    | AllCnsIdentified
    | ConfigurationCompleteCnsReady
    | AllMandatoryCnsOperational

  predicate IsReset(e: NmtEvent) {
    e.Reset? || e.SwReset? || e.ResetNode? || e.ResetCommunication? || e.ResetConfiguration?
  }

  /** The states in which the node takes part in the isochronous cycle. */
  predicate IsCyclic(s: NmtState) {
    s.PreOperational2? || s.ReadyToOperate? || s.Operational? || s.CsStopped?
  }
}
