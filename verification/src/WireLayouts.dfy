/**
 * Where each field stands on the wire, byte by byte: headers, embedded commands and values
 * (crates/powerlink-rs/src/sdo/sequence.rs, sdo/embedded.rs, od/value.rs; EPSG DS 301, sections 6.1 and 6.3).
 */
module WireLayouts {
  import opened Wrappers
  import opened Bytes
  import opened ObjectValues
  import opened SdoCommands
  import opened EmbeddedCodec
  import opened EmbeddedChannel
  import Client = EmbeddedClients

  function Flag(b: bool): nat { if b then 1 else 0 }

  /** The two bits of a connection state. */
  function ReceiveBits(c: ReceiveCon): nat {
    Flag(c.RInitialization?) + 2 * Flag(c.RConnectionValid?) + 3 * Flag(c.RErrorResponse?)
  }

  function SendBits(c: SendCon): nat {
    Flag(c.SInitialization?) + 2 * Flag(c.SConnectionValid?) + 3 * Flag(c.SConnectionValidAckRequest?)
  }

  lemma BitsAreCodes(r: ReceiveCon, s: SendCon)
    ensures ReceiveBits(r) == ReceiveConCode(r) && SendBits(s) == SendConCode(s)
  {}

  /** The sequence layer header: received number and state, then sent number and state, then two zeros. */
  lemma {:induction false} SequenceBytes(h: SequenceHeader)
    requires h.rsnr < 64 && h.ssnr < 64
    ensures HeaderBytes(h) == [4 * h.rsnr + ReceiveBits(h.rcon), 4 * h.ssnr + SendBits(h.scon), 0, 0]
  {
    BitsAreCodes(h.rcon, h.scon);
    PackedSix(h.rsnr, ReceiveConCode(h.rcon));
    PackedSix(h.ssnr, SendConCode(h.scon));
    var first, second := PackSix(h.rsnr, ReceiveConCode(h.rcon)), PackSix(h.ssnr, SendConCode(h.scon));
    assert HeaderBytes(h) == [first, second, 0, 0];
  }

  lemma FromParts(r: nat, q: nat, b: nat)
    requires r / 4 == q % 64 && r % 4 == b && q < 64
    ensures r == 4 * q + b
  {}

  lemma {:induction false} PackedSix(number: u8, bits: u8)
    requires number < 64 && bits < 4
    ensures PackSix(number, bits) == 4 * number + bits
  {
    FromParts(PackSix(number, bits), number, bits);
  }

  /** Every code of a command, in the order of their declaration, and no other byte is one. */
  lemma {:induction false} CommandBytes(b: u8, id: CommandId)
    ensures var known := [0, 1, 2, 3, 4, 5, 6, 0x20, 0x21, 0x31, 0x32, 0x40, 0x70];
            var ids := [Nil, WriteByIndex, ReadByIndex, WriteAllByIndex, ReadAllByIndex, WriteByName, ReadByName,
                        FileWrite, FileRead, WriteMultipleParamByIndex, ReadMultipleParamByIndex, AbortTransfer,
                        MaxSegmentSize];
            && |known| == |ids| && (forall k :: 0 <= k < |ids| ==> CommandCode(ids[k]) == known[k]) && id in ids
            && (CommandFromCode(b) == Ok(id) <==> CommandCode(id) == b)
            && (CommandFromCode(b).Ok? <==> b in known)
  {}

  /** An embedded command: number and state, transaction, flags, length, command, index, sub-index and data. */
  lemma {:induction false} EmbeddedBytes(c: PdoCommand)
    requires Representable(c)
    ensures var s := Encode(c);
            && |s| == 8 + |c.data|
            && s[0] / 4 == c.sequence && s[0] % 4 == c.connection
            && s[1] == c.tid
            && s[2] == 0x10 * Flag(c.isResponse) + 0x20 * Flag(c.isAborted)
                       + 0x40 * (Flag(c.segmentation.Initiate?) + 2 * Flag(c.segmentation.Segment?)
                                 + 3 * Flag(c.segmentation.Complete?))
            && s[3] == |c.data| && s[4] == CommandCode(c.commandId)
            && s[5] as int + 0x100 * (s[6] as int) == c.index && s[7] == c.sub && s[8..] == c.data
  {
    var s := Encode(c);
    SequenceByteIs(c.sequence, c.connection);
    assert Span(2) == 0x1_0000 by { SpanValues(); }
    FromLeOfLe(c.index, 2);
    assert s[..8] == HeaderOf(c) && s[5..7] == Le(c.index, 2);
    TwoBytes(s[5..7]);
  }

  lemma {:induction false} SequenceByteIs(sequence: u8, connection: u8)
    requires sequence < 64 && connection < 4
    ensures SequenceByte(sequence, connection) / 4 == sequence && SequenceByte(sequence, connection) % 4 == connection
  {
    SmallNumbersSurvive(sequence, connection);
    HighBits(SequenceByte(sequence, connection));
  }

  lemma HighBits(b: u8)
    ensures (b / 4) % 64 == b / 4
  {}

  /**
   * What a client puts into its container for a request that fits: its command, index, sub-index and data,
   * under the next number, as a valid request of transaction 1; data of more than 255 bytes is cut.
   */
  lemma {:induction false} RequestBytes(conn: Client.ClientConn, len: nat)
    requires conn.queue != [] && conn.nextSequence < 64 && 8 + |conn.queue[0].data| <= len
    ensures var r := conn.queue[0];
            var (conn', bytes) := Client.NextContainer(conn, len);
            && |bytes| == len && Decode(bytes).Ok?
            && var c := Decode(bytes).value;
               && c.sequence == conn.nextSequence && c.connection == 2 && c.tid == 1
               && !c.isResponse && !c.isAborted && c.segmentation.Expedited?
               && c.commandId == r.commandId && c.index == r.index && c.sub == r.sub
               && c.data == r.data[..|r.data| % 0x100]
               && conn'.queue == conn.queue[1..] && conn'.nextSequence == (conn.nextSequence + 1) % 64
  {
    PaddedDecodes(Client.CommandOf(conn.queue[0], conn.nextSequence), len);
  }

  // ---- Values ----

  /** The number that an integer type carries, and the span of its width. */
  function NumberOf(v: ObjectValue): Option<(int, nat)> {
    match v
    case Boolean(b) => Some((b, 0x100))
    case Integer8(i) => Some((i, 0x100))
    case Integer16(i) => Some((i, 0x1_0000))
    case Integer32(i) => Some((i, 0x1_0000_0000))
    case Integer64(i) => Some((i, 0x1_0000_0000_0000_0000))
    case Unsigned8(u) => Some((u, 0x100))
    case Unsigned16(u) => Some((u, 0x1_0000))
    case Unsigned32(u) => Some((u, 0x1_0000_0000))
    case Unsigned64(u) => Some((u, 0x1_0000_0000_0000_0000))
    case Real32(b) => Some((b, 0x1_0000_0000))
    case Real64(b) => Some((b, 0x1_0000_0000_0000_0000))
    case _ => None
  }

  lemma {:induction false} UnsignedIsLittleEndian(u: nat, n: nat, span: nat)
    requires span == Span(n) && u < span
    ensures Span(|Le(u, n)|) == span && FromLe(Le(u, n)) == u
  {
    FromLeOfLe(u, n);
  }

  lemma {:induction false} SignedIsLittleEndian(i: int, n: nat, span: nat)
    requires (n == 1 || n == 2 || n == 4 || n == 8) && span == Span(n) && -Half(n) <= i < Half(n)
    ensures Span(|Le(ToPattern(i, n), n)|) == span && FromLe(Le(ToPattern(i, n), n)) == if i >= 0 then i else i + span
  {
    FromLeOfLe(ToPattern(i, n), n);
  }

  /** Integers are little-endian numbers of their width, negative ones as two's complement. */
  lemma {:induction false} NumbersAreLittleEndian(v: ObjectValue)
    requires NumberOf(v).Some?
    ensures var (n, span) := NumberOf(v).value;
            Span(|Serialize(v)|) == span && FromLe(Serialize(v)) == if n >= 0 then n else n + span
  {
    if v.Integer8? || v.Integer16? || v.Integer32? || v.Integer64? { SignedNumbers(v); } else { UnsignedNumbers(v); }
  }

  lemma {:induction false} SignedNumbers(v: ObjectValue)
    requires v.Integer8? || v.Integer16? || v.Integer32? || v.Integer64?
    ensures var (n, span) := NumberOf(v).value;
            Span(|Serialize(v)|) == span && FromLe(Serialize(v)) == if n >= 0 then n else n + span
  {
    SpanValues();
    HalfValues();
    match v {
      case Integer8(i) => SignedIsLittleEndian(i, 1, 0x100);
      case Integer16(i) => SignedIsLittleEndian(i, 2, 0x1_0000);
      case Integer32(i) => SignedIsLittleEndian(i, 4, 0x1_0000_0000);
      case Integer64(i) => SignedIsLittleEndian(i, 8, 0x1_0000_0000_0000_0000);
    }
  }

  lemma {:induction false} UnsignedNumbers(v: ObjectValue)
    requires NumberOf(v).Some? && !v.Integer8? && !v.Integer16? && !v.Integer32? && !v.Integer64?
    ensures var (n, span) := NumberOf(v).value;
            Span(|Serialize(v)|) == span && FromLe(Serialize(v)) == if n >= 0 then n else n + span
  {
    SpanValues();
    match v {
      case Boolean(b) => UnsignedIsLittleEndian(b, 1, 0x100);
      case Unsigned8(u) => UnsignedIsLittleEndian(u, 1, 0x100);
      case Unsigned16(u) => UnsignedIsLittleEndian(u, 2, 0x1_0000);
      case Unsigned32(u) => UnsignedIsLittleEndian(u, 4, 0x1_0000_0000);
      case Unsigned64(u) => UnsignedIsLittleEndian(u, 8, 0x1_0000_0000_0000_0000);
      case Real32(u) => UnsignedIsLittleEndian(u, 4, 0x1_0000_0000);
      case Real64(u) => UnsignedIsLittleEndian(u, 8, 0x1_0000_0000_0000_0000);
    }
  }

  /** Times are two numbers, the milliseconds or seconds in front. */
  lemma {:induction false} TimesAreTwoNumbers(v: ObjectValue)
    ensures (v.TimeOfDay? || v.TimeDifference?) ==>
              |Serialize(v)| == 6 && FromLe(Serialize(v)[..4]) == v.ms && FromLe(Serialize(v)[4..6]) == v.days
    ensures v.NetTime? ==>
              |Serialize(v)| == 8 && FromLe(Serialize(v)[..4]) == v.seconds
                  && FromLe(Serialize(v)[4..8]) == v.nanoseconds
  {
    SpanValues();
    match v {
      case TimeOfDay(ms, days) => LePair(ms, 4, days, 2, []); assert Serialize(v) + [] == Serialize(v);
      case TimeDifference(ms, days) => LePair(ms, 4, days, 2, []); assert Serialize(v) + [] == Serialize(v);
      case NetTime(s, ns) => LePair(s, 4, ns, 4, []); assert Serialize(v) + [] == Serialize(v);
      case _ =>
    }
  }

  /** The k-th unit of a Unicode string stands in bytes 2k and 2k + 1. */
  lemma {:induction false} UnitsInPairs(units: seq<u16>, k: nat)
    requires k < |units|
    ensures Words(units)[2 * k] as int + 0x100 * (Words(units)[2 * k + 1] as int) == units[k]
  {
    SpanValues();
    FromLeOfLe(units[0], 2);
    TwoBytes(Le(units[0], 2));
    assert Words(units) == Le(units[0], 2) + Words(units[1..]);
    if k > 0 { UnitsInPairs(units[1..], k - 1); }
  }

  /** Texts, octets, domains and addresses are their bytes. */
  lemma {:induction false} BytesAreThemselves(v: ObjectValue)
    ensures v.VisibleString? ==> Serialize(v) == v.text
    ensures v.OctetString? ==> Serialize(v) == v.octets
    ensures v.Domain? ==> Serialize(v) == v.blob
    ensures v.MacAddress? ==> Serialize(v) == v.mac
    ensures v.IpAddress? ==> Serialize(v) == v.ip
  {}
}
