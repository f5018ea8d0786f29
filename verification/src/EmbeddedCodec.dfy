/**
 * SDO commands embedded in PDO containers and their byte form
 * (crates/powerlink-rs/src/sdo/embedded.rs; EPSG DS 301, section 6.3.3).
 */
module EmbeddedCodec {
  import opened Wrappers
  import opened Bytes
  import opened SdoCommands

  datatype PdoCommand = PdoCommand(
    sequence: u8,
    connection: u8,
    tid: u8,
    isResponse: bool,
    isAborted: bool,
    segmentation: Segmentation,
    validLength: u8,
    commandId: CommandId,
    index: u16,
    sub: u8,
    data: seq<u8>)

  /** Sequence number shifted over the connection state, in one byte. */
  function SequenceByte(sequence: u8, connection: u8): u8 {
    SequenceByteBound(sequence, connection);
    BitOr((sequence * 4) % 0x100, connection)
  }

  lemma Pow2Of8()
    ensures Pow2(8) == 0x100
  {
    assert Pow2(4) == 2 * Pow2(3) == 4 * Pow2(2) == 8 * Pow2(1) == 16;
    assert Pow2(8) == 2 * Pow2(7) == 4 * Pow2(6) == 8 * Pow2(5) == 16 * Pow2(4);
  }

  lemma SequenceByteBound(sequence: u8, connection: u8)
    ensures BitOr((sequence * 4) % 0x100, connection) < 0x100
  {
    Pow2Of8();
    BitOrBound((sequence * 4) % 0x100, connection, 8);
  }

  /** The three flag fields take disjoint bits, so the source's or is a sum. */
  function FlagByte(isResponse: bool, isAborted: bool, segmentation: Segmentation): u8 {
    (if isResponse then 0x10 else 0) + (if isAborted then 0x20 else 0) + SegmentationCode(segmentation) * 0x40
  }

  /** The eight bytes in front of the data; the length field is cut to a byte. */
  function HeaderOf(c: PdoCommand): (r: seq<u8>)
    ensures |r| == 8
  {
    [SequenceByte(c.sequence, c.connection), c.tid, FlagByte(c.isResponse, c.isAborted, c.segmentation),
     |c.data| % 0x100, CommandCode(c.commandId)] + Le(c.index, 2) + [c.sub]
  }

  function Encode(c: PdoCommand): (r: seq<u8>)
    ensures |r| == 8 + |c.data|
  {
    HeaderOf(c) + c.data
  }

  function SequenceOf(b: u8): (r: u8)
    ensures r < 64
  {
    (b / 4) % 64
  }

  function SegmentationOf(flags: u8): Segmentation {
    match flags / 0x40
    case 0 => Expedited
    case 1 => Initiate
    case 2 => Segment
    case _ => Complete
  }

  function Decode(s: seq<u8>): Result<PdoCommand, Error> {
    if |s| < 8 then Err(BufferTooShort)
    else
      match CommandFromCode(s[4])
      case Err(e) => Err(e)
      case Ok(id) =>
        if |s| - 8 < s[3] then Err(BufferTooShort)
        else
          SpanValues();
          assert |s[5..7]| == 2;
          Ok(PdoCommand(SequenceOf(s[0]), s[0] % 4, s[1], (s[2] / 0x10) % 2 == 1, (s[2] / 0x20) % 2 == 1,
                        SegmentationOf(s[2]), s[3], id, FromLe(s[5..7]), s[7], s[8..8 + s[3]]))
  }

  lemma FlagsRoundTrip(isResponse: bool, isAborted: bool, segmentation: Segmentation)
    ensures var f := FlagByte(isResponse, isAborted, segmentation);
            && ((f / 0x10) % 2 == 1 <==> isResponse)
            && ((f / 0x20) % 2 == 1 <==> isAborted)
            && SegmentationOf(f) == segmentation
  {}

  lemma SequenceByteParts(sequence: u8, connection: u8)
    requires connection < 4
    ensures SequenceOf(SequenceByte(sequence, connection)) == sequence % 64
    ensures SequenceByte(sequence, connection) % 4 == connection
  {
    assert SequenceByte(sequence, connection) == PackSix(sequence, connection);
    UnpackSix(sequence, connection);
  }

  lemma CommandCodeRoundTrip(id: CommandId)
    ensures CommandFromCode(CommandCode(id)) == Ok(id)
  {}

  /** What an encoded command, followed by anything, decodes to. */
  lemma DecodeOfEncode(c: PdoCommand, tail: seq<u8>)
    ensures var s := Encode(c) + tail;
            && Decode(s).Ok?
            && Decode(s).value == c.(sequence := SequenceOf(SequenceByte(c.sequence, c.connection)),
                                     connection := SequenceByte(c.sequence, c.connection) % 4,
                                     validLength := |c.data| % 0x100,
                                     data := c.data[..|c.data| % 0x100])
  {
    var s, h := Encode(c) + tail, HeaderOf(c);
    assert s[..8] == h;
    assert s[0] == h[0] && s[1] == h[1] && s[2] == h[2] && s[3] == h[3] && s[4] == h[4] && s[7] == h[7];
    assert s[5..7] == h[5..7] == Le(c.index, 2);
    assert Span(2) == 0x1_0000 by { SpanValues(); }
    FromLeOfLe(c.index, 2);
    assert s[8..8 + |c.data| % 0x100] == c.data[..|c.data| % 0x100];
    CommandCodeRoundTrip(c.commandId);
    FlagsRoundTrip(c.isResponse, c.isAborted, c.segmentation);
  }

  lemma {:induction false} SmallNumbersSurvive(sequence: u8, connection: u8)
    requires sequence < 64 && connection < 4
    ensures SequenceOf(SequenceByte(sequence, connection)) == sequence
    ensures SequenceByte(sequence, connection) % 4 == connection
  {
    SequenceByteParts(sequence, connection);
  }

  /** With a number of six bits and a state of two, only the data is cut, to what the length byte says. */
  lemma {:induction false} DecodeOfSmall(c: PdoCommand, tail: seq<u8>)
    requires c.sequence < 64 && c.connection < 4
    ensures Decode(Encode(c) + tail)
         == Ok(c.(validLength := |c.data| % 0x100, data := c.data[..|c.data| % 0x100]))
  {
    SmallNumbersSurvive(c.sequence, c.connection);
    DecodeOfEncode(c, tail);
  }

  predicate Representable(c: PdoCommand) { c.sequence < 64 && c.connection < 4 && |c.data| <= 0xFF }

  lemma {:induction false} RepresentableSurvives(c: PdoCommand, tail: seq<u8>)
    requires Representable(c)
    ensures Decode(Encode(c) + tail) == Ok(c.(validLength := |c.data|))
  {
    DecodeOfSmall(c, tail);
    assert c.data[..|c.data| % 0x100] == c.data;
  }

  /** Nothing else can come out of decoding: numbers below 64, states below 4, at most 255 bytes of data. */
  lemma DecodedIsRepresentable(s: seq<u8>)
    requires Decode(s).Ok?
    ensures Representable(Decode(s).value)
  {}

  /**
   * A command survives encoding and any padding, its length field filled in, exactly when its
   * sequence number has six bits, its connection state two, and its data at most 255 bytes.
   */
  lemma {:induction false} CodecRoundTrip(c: PdoCommand, tail: seq<u8>)
    ensures Decode(Encode(c) + tail) == Ok(c.(validLength := |c.data| % 0x100)) <==> Representable(c)
  {
    if Representable(c) {
      RepresentableSurvives(c, tail);
    } else if Decode(Encode(c) + tail).Ok? {
      DecodedIsRepresentable(Encode(c) + tail);
    }
  }

  /** A cut-off encoding decodes exactly when the length byte is still covered. */
  lemma TruncationExact(c: PdoCommand, k: nat)
    requires k <= |Encode(c)|
    ensures Decode(Encode(c)[..k]).Ok? <==> k >= 8 + |c.data| % 0x100
  {
    var s := Encode(c)[..k];
    CommandCodeRoundTrip(c.commandId);
    if k >= 8 {
      assert s[..8] == HeaderOf(c);
      assert s[3] == HeaderOf(c)[3] && s[4] == HeaderOf(c)[4];
    }
  }

  /** Decoding looks at the header and as many bytes as the length byte says, and at nothing behind them. */
  lemma {:induction false} DecodeIsLocal(s: seq<u8>, k: nat)
    requires k <= |s| && Decode(s).Ok? && 8 + s[3] <= k
    ensures Decode(s[..k]) == Decode(s)
  {
    assert s[..k][5..7] == s[5..7];
    assert s[..k][8..8 + s[3]] == s[8..8 + s[3]];
  }

  /** What a container of any length makes of an encoded command: cut to the length byte, or rejected. */
  lemma {:induction false} CutOrPadded(c: PdoCommand, len: nat)
    requires c.sequence < 64 && c.connection < 4
    ensures var s := if |Encode(c)| > len then Encode(c)[..len] else PadTo(Encode(c), len);
            if len < 8 + |c.data| % 0x100 then Decode(s).Err?
            else Decode(s) == Ok(c.(validLength := |c.data| % 0x100, data := c.data[..|c.data| % 0x100]))
  {
    if |Encode(c)| > len {
      TruncationExact(c, len);
      DecodeOfSmall(c, []);
      assert Encode(c) + [] == Encode(c);
      if len >= 8 + |c.data| % 0x100 { DecodeIsLocal(Encode(c), len); }
    } else {
      DecodeOfSmall(c, Zeros(len - |Encode(c)|));
    }
  }

  /** So every proper truncation is rejected exactly for commands with at most 255 data bytes. */
  lemma TruncatedIsRejected(c: PdoCommand)
    ensures (forall k :: 0 <= k < |Encode(c)| ==> Decode(Encode(c)[..k]).Err?) <==> |c.data| <= 0xFF
  {
    forall k | 0 <= k < |Encode(c)| ensures Decode(Encode(c)[..k]).Ok? <==> k >= 8 + |c.data| % 0x100 {
      TruncationExact(c, k);
    }
    if |c.data| > 0xFF {
      var k := 8 + |c.data| % 0x100;
      assert Decode(Encode(c)[..k]).Ok?;
    }
  }
}
