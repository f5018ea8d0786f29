/**
 * Command and sequence layer of the asynchronous SDO channel
 * (crates/powerlink-rs/src/sdo/command/base.rs, sequence.rs).
 */
module SdoCommands {
  import opened Wrappers
  import opened Bytes

  datatype CommandId =
    | Nil
    | WriteByIndex
    | ReadByIndex
    | WriteAllByIndex
    | ReadAllByIndex
    | WriteByName
    | ReadByName
    | FileWrite
    | FileRead
    | WriteMultipleParamByIndex
    | ReadMultipleParamByIndex
    | AbortTransfer
    | MaxSegmentSize

  function CommandCode(id: CommandId): u8 {
    match id
    case Nil => 0x00
    case WriteByIndex => 0x01
    case ReadByIndex => 0x02
    case WriteAllByIndex => 0x03
    case ReadAllByIndex => 0x04
    case WriteByName => 0x05
    case ReadByName => 0x06
    case FileWrite => 0x20
    case FileRead => 0x21
    case WriteMultipleParamByIndex => 0x31
    case ReadMultipleParamByIndex => 0x32
    case AbortTransfer => 0x40
    case MaxSegmentSize => 0x70
  }

  function CommandFromCode(code: u8): Result<CommandId, Error> {
    match code
    case 0x00 => Ok(Nil)
    case 0x01 => Ok(WriteByIndex)
    case 0x02 => Ok(ReadByIndex)
    case 0x03 => Ok(WriteAllByIndex)
    case 0x04 => Ok(ReadAllByIndex)
    case 0x05 => Ok(WriteByName)
    case 0x06 => Ok(ReadByName)
    case 0x20 => Ok(FileWrite)
    case 0x21 => Ok(FileRead)
    case 0x31 => Ok(WriteMultipleParamByIndex)
    case 0x32 => Ok(ReadMultipleParamByIndex)
    case 0x40 => Ok(AbortTransfer)
    case 0x70 => Ok(MaxSegmentSize)
    case _ => Err(InvalidEnumValue)
  }

  datatype Segmentation = Expedited | Initiate | Segment | Complete

  function SegmentationCode(s: Segmentation): (r: u8)
    ensures r < 4
  {
    match s
    case Expedited => 0
    case Initiate => 1
    case Segment => 2
    case Complete => 3
  }

  datatype CommandHeader = CommandHeader(
    transactionId: u8,
    isResponse: bool,
    isAborted: bool,
    segmentation: Segmentation,
    commandId: CommandId,
    segmentSize: u16)

  datatype SdoCommand = SdoCommand(header: CommandHeader, dataSize: Option<u32>, payload: seq<u8>)

  /** The connection state fields of the sequence layer. */
  datatype ReceiveCon = RNoConnection | RInitialization | RConnectionValid | RErrorResponse
  datatype SendCon = SNoConnection | SInitialization | SConnectionValid | SConnectionValidAckRequest

  datatype SequenceHeader = SequenceHeader(rsnr: u8, rcon: ReceiveCon, ssnr: u8, scon: SendCon)

  /** One frame of the sequence layer. */
  datatype Frame = Frame(seqHeader: SequenceHeader, cmd: SdoCommand)

  function ReceiveConCode(c: ReceiveCon): (r: u8)
    ensures r < 4
  {
    match c
    case RNoConnection => 0
    case RInitialization => 1
    case RConnectionValid => 2
    case RErrorResponse => 3
  }

  function SendConCode(c: SendCon): (r: u8)
    ensures r < 4
  {
    match c
    case SNoConnection => 0
    case SInitialization => 1
    case SConnectionValid => 2
    case SConnectionValidAckRequest => 3
  }

  /** Two bits always name a connection state. */
  function ReceiveConFromBits(b: u8): ReceiveCon
    requires b < 4
  {
    if b == 0 then RNoConnection else if b == 1 then RInitialization
    else if b == 2 then RConnectionValid else RErrorResponse
  }

  function SendConFromBits(b: u8): SendCon
    requires b < 4
  {
    if b == 0 then SNoConnection else if b == 1 then SInitialization
    else if b == 2 then SConnectionValid else SConnectionValidAckRequest
  }

  /** A six-bit number shifted over a two-bit field, in one byte as the source's shift and or do it. */
  function PackSix(number: u8, bits: u8): (r: u8)
    requires bits < 4
    ensures r / 4 == number % 64 && r % 4 == bits
  {
    PackSixSum(number, bits);
    BitOr((number * 4) % 0x100, bits)
  }

  lemma PackSixSum(number: u8, bits: u8)
    requires bits < 4
    ensures BitOr((number * 4) % 0x100, bits) == (number % 64) * 4 + bits
  {
    assert (number * 4) % 0x100 == (number % 64) * 4;
    OrTwoBits(number % 64, bits);
  }

  function HeaderBytes(h: SequenceHeader): (r: seq<u8>)
    ensures |r| == 4
  {
    [PackSix(h.rsnr, ReceiveConCode(h.rcon)), PackSix(h.ssnr, SendConCode(h.scon)), 0, 0]
  }

  function HeaderFromBytes(s: seq<u8>): Result<SequenceHeader, Error> {
    if |s| < 4 then Err(BufferTooShort)
    else Ok(SequenceHeader((s[0] / 4) % 64, ReceiveConFromBits(s[0] % 4), (s[1] / 4) % 64, SendConFromBits(s[1] % 4)))
  }

  /** Writes a header into the first four bytes of the caller's buffer and nothing else. */
  method SerializeHeader(h: SequenceHeader, buffer: array<u8>) returns (r: Result<nat, Error>)
    modifies buffer
    ensures buffer.Length < 4 ==> r == Err(BufferTooShort) && buffer[..] == old(buffer[..])
    ensures buffer.Length >= 4 ==> r == Ok(4) && buffer[..] == HeaderBytes(h) + old(buffer[4..])
  {
    if buffer.Length < 4 {
      return Err(BufferTooShort);
    }
    buffer[0] := PackSix(h.rsnr, ReceiveConCode(h.rcon));
    buffer[1] := PackSix(h.ssnr, SendConCode(h.scon));
    buffer[2] := 0;
    buffer[3] := 0;
    assert buffer[4..] == old(buffer[4..]);
    return Ok(4);
  }

  /** Unpacking gives the number back exactly when it has six bits. */
  lemma {:induction false} UnpackSix(number: u8, bits: u8)
    requires bits < 4
    ensures PackSix(number, bits) % 4 == bits
    ensures (PackSix(number, bits) / 4) % 64 == number % 64
    ensures number % 64 == number <==> number < 64
  {
    assert PackSix(number, bits) / 4 == number % 64;
    SixBits(number);
  }

  lemma SixBits(number: u8)
    ensures (number % 64) % 64 == number % 64
    ensures number % 64 == number <==> number < 64
  {}

  /**
   * A header survives its encoding exactly when both sequence numbers fit six bits; nothing
   * that follows it in the buffer matters.
   */
  lemma {:induction false} HeaderRoundTrip(h: SequenceHeader, tail: seq<u8>)
    ensures HeaderFromBytes(HeaderBytes(h) + tail) == Ok(h) <==> h.rsnr < 64 && h.ssnr < 64
  {
    HeaderOfPacked(HeaderBytes(h) + tail, h);
    SixBits(h.rsnr);
    SixBits(h.ssnr);
  }

  /** What the two packed bytes unpack to. */
  lemma {:induction false} HeaderOfPacked(s: seq<u8>, h: SequenceHeader)
    requires |s| >= 4 && s[0] == PackSix(h.rsnr, ReceiveConCode(h.rcon)) && s[1] == PackSix(h.ssnr, SendConCode(h.scon))
    ensures HeaderFromBytes(s) == Ok(h.(rsnr := h.rsnr % 64, ssnr := h.ssnr % 64))
  {
    UnpackSix(h.rsnr, ReceiveConCode(h.rcon));
    UnpackSix(h.ssnr, SendConCode(h.scon));
  }
}
