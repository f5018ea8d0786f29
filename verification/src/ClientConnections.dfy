/** The SDO client connection as the source has it: an object whose methods update its fields. */
module ClientConnections {
  import opened Wrappers
  import opened Bytes
  import opened Entries
  import opened SdoCommands
  import opened ConciseDcf
  import opened ClientSteps
  import opened ObjectDictionaries

  class SdoClientConnection {
    const target: u8
    var state: ConnState
    var transactionId: u8
    var sendSequenceNumber: u8
    var lastReceivedSequenceNumber: u8
    var dataBuffer: seq<u8>
    var offset: nat
    var totalSize: nat
    var deadline: Option<nat>
    var retriesLeft: u32
    var lastSentCommand: Option<Frame>
    var currentJob: Option<Job>
    var pendingCommand: Option<SdoCommand>

    function Snap(): Conn
      reads this
    {
      Conn(target, state, transactionId, sendSequenceNumber, lastReceivedSequenceNumber, dataBuffer, offset, totalSize,
           deadline, retriesLeft, lastSentCommand, currentJob, pendingCommand)
    }

    constructor (target: u8)
      ensures Snap() == NewConn(target)
    {
      this.target := target;
      state := Idle;
      transactionId := 0;
      sendSequenceNumber := 0;
      lastReceivedSequenceNumber := 63;
      dataBuffer := [];
      offset := 0;
      totalSize := 0;
      deadline := None;
      retriesLeft := 0;
      lastSentCommand := None;
      currentJob := None;
      pendingCommand := None;
    }

    predicate IsClosed()
      reads this
    {
      state.Closed?
    }

    method Abort(code: u32) returns (f: Frame)
      modifies this
      ensures Snap() == Aborted(old(Snap())) && f == AbortFrame(old(Snap()), code)
    {
      state := Closed;
      lastSentCommand := None;
      deadline := None;
      currentJob := None;
      var cmd := SdoCommand(CommandHeader(transactionId, false, true, Expedited, Nil, 4), None, Le(code, 4));
      f := Frame(SequenceHeader(lastReceivedSequenceNumber, RConnectionValid, sendSequenceNumber, SNoConnection), cmd);
    }

    /** Acts on a frame of the server; stopped when the source stops at the slice of the abort code. */
    method HandleResponse(h: SequenceHeader, cmd: SdoCommand) returns (stopped: bool)
      modifies this
      ensures stopped <==> Answered(old(Snap()), h, cmd).None?
      ensures Snap() == if stopped then Taken(old(Snap()), h) else Responded(old(Snap()), h, cmd)
    {
      if lastSentCommand.None? {
        return false;
      }
      if h.rsnr != lastSentCommand.value.seqHeader.ssnr {
        return false;
      }
      lastSentCommand := None;
      deadline := None;
      retriesLeft := 0;

      var expected := (lastReceivedSequenceNumber + 1) % 64;
      if h.ssnr == lastReceivedSequenceNumber {
        return false;
      } else if h.ssnr != expected {
        state := Closed;
        return false;
      }
      lastReceivedSequenceNumber := h.ssnr;

      if cmd.header.isAborted {
        var code := Slice(cmd.payload, 0, 4);
        if code.None? {
          return true;
        }
        state := Closed;
        currentJob := None;
        return false;
      }

      ProcessByState(h, cmd);
      return false;
    }

    method ProcessByState(h: SequenceHeader, cmd: SdoCommand)
      modifies this
      ensures Snap() == Processed(old(Snap()), h, cmd)
    {
      match state {
        case Opening =>
          if h.rcon == RInitialization && h.scon == SInitialization {
            state := Established;
          } else {
            state := Closed;
          }
        case DownloadInProgress =>
          if offset >= totalSize {
            var ready := PrepareNextJobCommand();
            if ready {
              state := Established;
            } else {
              state := Closed;
            }
          }
        case UploadInit =>
          match cmd.header.segmentation {
            case Expedited =>
              dataBuffer := cmd.payload;
              state := Closed;
            case Initiate =>
              if cmd.dataSize.Some? {
                totalSize := cmd.dataSize.value;
              }
              dataBuffer := [];
              state := UploadInProgress;
            case _ =>
              state := Closed;
          }
        case UploadInProgress =>
          if cmd.header.segmentation.Segment? || cmd.header.segmentation.Complete? {
            dataBuffer := dataBuffer + cmd.payload;
            if cmd.header.segmentation.Complete? {
              state := Closed;
            }
          } else {
            state := Closed;
          }
        case _ =>
          state := Closed;
      }
    }

    /** Reads one entry of the stream; every slice is behind its bounds check. */
    method ReadEntry(data: seq<u8>, start: nat) returns (r: Option<(Entry, nat)>)
      ensures r == ParseEntry(data, start)
    {
      var position := start;
      if position + 7 > |data| {
        return None;
      }
      SpanValues();
      var index: u16 := FromLe(data[position..position + 2]);
      var sub := data[position + 2];
      var size: u32 := FromLe(data[position + 3..position + 7]);
      position := position + 7;
      if position + size > |data| {
        return None;
      }
      return Some((Entry(index, sub, data[position..position + size]), position + size));
    }

    method PrepareNextJobCommand() returns (ready: bool)
      modifies this
      ensures (Snap(), ready) == Prepared(old(Snap()))
    {
      var job := currentJob;
      currentJob := None;
      if job.None? {
        return false;
      }
      var DcfJob(data, position, remaining) := job.value;
      if remaining == 0 {
        return false;
      }
      var parsed := ReadEntry(data, position);
      if parsed.None? {
        return false;
      }
      var (entry, next) := parsed.value;
      dataBuffer := Le(entry.index, 2) + [entry.sub] + [0] + entry.data;
      totalSize := |dataBuffer|;
      offset := 0;
      currentJob := Some(DcfJob(data, next, remaining - 1));
      transactionId := (transactionId + 1) % 0x100;
      if transactionId == 0 {
        transactionId := 1;
      }
      return true;
    }

    /** Deadline and retry count from the dictionary. */
    method ArmTimer(now: nat, od: ObjectDictionary)
      modifies this`deadline, this`retriesLeft
      ensures deadline == Some(now + TimingOf(od.entries).timeoutMs * 1000)
      ensures retriesLeft == TimingOf(od.entries).retries
    {
      var timeout: nat := GetOr(ReadU32(od.entries, 0x1300, 0), 15000);
      deadline := Some(now + timeout * 1000);
      retriesLeft := GetOr(ReadU32(od.entries, 0x1302, 0), 2);
    }

    method Tick(now: nat, od: ObjectDictionary) returns (out: Option<Frame>)
      modifies this
      ensures (Snap(), out) == Ticked(old(Snap()), now, TimingOf(od.entries))
    {
      if deadline.None? || now < deadline.value {
        return None;
      }
      if retriesLeft > 0 {
        retriesLeft := retriesLeft - 1;
        var timeout: nat := GetOr(ReadU32(od.entries, 0x1300, 0), 15000);
        deadline := Some(now + timeout * 1000);
        return lastSentCommand;
      }
      var f := Abort(0x0504_0000);
      return Some(f);
    }

    method GetPendingRequest(now: nat, od: ObjectDictionary) returns (out: Option<Frame>)
      requires Downloads(Snap()) ==> Loaded(Snap())
      modifies this
      ensures (Snap(), out) == Polled(old(Snap()), now, TimingOf(od.entries))
      decreases dataBuffer == []
    {
      if lastSentCommand.Some? {
        return None;
      }
      var f: Frame;
      match state {
        case Opening =>
          f := Frame(SequenceHeader(lastReceivedSequenceNumber, RNoConnection, sendSequenceNumber, SInitialization),
                     SdoCommand(DefaultHeader(transactionId), None, []));
        case Established =>
          var header := SequenceHeader(lastReceivedSequenceNumber, RConnectionValid, sendSequenceNumber,
                                       SConnectionValidAckRequest);
          if dataBuffer != [] {
            var cmd := GetNextDownloadSegment();
            state := DownloadInProgress;
            f := Frame(header, cmd);
          } else if pendingCommand.Some? {
            var cmd := pendingCommand.value;
            pendingCommand := None;
            state := UploadInit;
            f := Frame(header, cmd);
          } else {
            var ready := PrepareNextJobCommand();
            if ready {
              out := GetPendingRequest(now, od);
              return;
            }
            state := Closed;
            return None;
          }
        case DownloadInProgress =>
          var header := SequenceHeader(lastReceivedSequenceNumber, RConnectionValid, sendSequenceNumber,
                                       SConnectionValidAckRequest);
          var cmd := GetNextDownloadSegment();
          f := Frame(header, cmd);
        case UploadInProgress =>
          f := Frame(SequenceHeader(lastReceivedSequenceNumber, RConnectionValid, sendSequenceNumber,
                                    SConnectionValidAckRequest),
                     SdoCommand(CommandHeader(transactionId, false, false, Segment, ReadByIndex, 0), None, []));
        case _ =>
          return None;
      }
      ArmTimer(now, od);
      lastSentCommand := Some(f);
      sendSequenceNumber := (sendSequenceNumber + 1) % 64;
      return Some(f);
    }

    /** Cuts the next frame off the buffer; the subtraction and the slice stay in range on a loaded buffer. */
    method GetNextDownloadSegment() returns (cmd: SdoCommand)
      requires Loaded(Snap())
      modifies this`offset
      ensures cmd == WriteCommand(dataBuffer, old(offset), transactionId)
      ensures offset == old(offset) + ChunkLength(totalSize, old(offset))
    {
      var isInitiate := offset == 0;
      var remaining := totalSize - offset;
      var headerLength, dataLength := remaining, remaining;
      if isInitiate {
        headerLength, dataLength := totalSize, totalSize - 4;
      }
      var chunk := if MAX_CLIENT_PAYLOAD <= headerLength then MAX_CLIENT_PAYLOAD else headerLength;
      var end := offset + chunk;
      var payload := dataBuffer[offset..end];
      var segmentation: Segmentation;
      if isInitiate {
        segmentation := if totalSize <= MAX_CLIENT_PAYLOAD + 4 then Expedited else Initiate;
      } else if remaining <= MAX_CLIENT_PAYLOAD {
        segmentation := Complete;
      } else {
        segmentation := Segment;
      }
      offset := end;
      cmd := SdoCommand(
        CommandHeader(transactionId, false, false, segmentation, WriteByIndex, |payload|),
        if isInitiate then Some(dataLength % 0x1_0000_0000) else None,
        payload);
    }

    method StartConciseDcfJob(data: seq<u8>, tid: u8, now: nat, od: ObjectDictionary) returns (r: Result<(), Error>)
      modifies this
      ensures (Snap(), r) == DcfStarted(old(Snap()), data, tid, now, TimingOf(od.entries))
    {
      if !(state.Idle? || state.Closed?) {
        return Err(ClientBusy);
      }
      if |data| < 4 {
        return Err(ValidationError);
      }
      DcfStartedInSteps(Snap(), data, tid, now, TimingOf(od.entries));
      LoadFirstEntry(data, tid);
      ArmTimer(now, od);
      return Ok(());
    }

    /** Opens the job on an idle connection and loads its first entry, if there is one. */
    method LoadFirstEntry(data: seq<u8>, tid: u8)
      requires |data| >= 4
      modifies this
      ensures Snap() == Prepared(Opened(old(Snap()), data, tid)).0
    {
      state := Opening;
      transactionId := tid;
      sendSequenceNumber := 0;
      lastReceivedSequenceNumber := 63;
      currentJob := Some(DcfJob(data, 4, EntryCount(data)));
      dataBuffer := [];
      var ready := PrepareNextJobCommand();
    }

    method StartReadJob(index: u16, sub: u8, tid: u8, now: nat, od: ObjectDictionary) returns (r: Result<(), Error>)
      modifies this
      ensures (Snap(), r) == ReadStarted(old(Snap()), index, sub, tid, now, TimingOf(od.entries))
    {
      if !(state.Idle? || state.Closed?) {
        return Err(ClientBusy);
      }
      state := Opening;
      transactionId := tid;
      sendSequenceNumber := 0;
      lastReceivedSequenceNumber := 63;
      dataBuffer := [];
      pendingCommand := Some(SdoCommand(CommandHeader(tid, false, false, Expedited, ReadByIndex, 4), None,
                                        Le(index, 2) + [sub, 0]));
      ArmTimer(now, od);
      return Ok(());
    }

    method StartWriteJob(index: u16, sub: u8, data: seq<u8>, tid: u8, now: nat, od: ObjectDictionary)
        returns (r: Result<(), Error>)
      modifies this
      ensures (Snap(), r) == WriteStarted(old(Snap()), Entry(index, sub, data), tid, now, TimingOf(od.entries))
    {
      if !(state.Idle? || state.Closed?) {
        return Err(ClientBusy);
      }
      state := Opening;
      transactionId := tid;
      sendSequenceNumber := 0;
      lastReceivedSequenceNumber := 63;
      dataBuffer := Le(index, 2) + [sub] + [0] + data;
      totalSize := |dataBuffer|;
      offset := 0;
      ArmTimer(now, od);
      return Ok(());
    }
  }
}
