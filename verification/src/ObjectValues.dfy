/** Typed values of the object dictionary and their wire form (crates/powerlink-rs/src/od/value.rs). */
module ObjectValues {
  import opened Wrappers
  import opened Bytes
  import Utf8

  /** A Rust `String`: bytes that are valid UTF-8. */
  type Text = s: seq<u8> | Utf8.Valid(s)
  type Bytes4 = s: seq<u8> | |s| == 4 witness [0, 0, 0, 0]
  type Bytes6 = s: seq<u8> | |s| == 6 witness [0, 0, 0, 0, 0, 0]

  /** Real values are kept as their bit patterns. */
  datatype ObjectValue =
    | Boolean(flag: u8)
    | Integer8(int8: i8)
    | Integer16(int16: i16)
    | Integer32(int32: i32)
    | Integer64(int64: i64)
    | Unsigned8(uint8: u8)
    | Unsigned16(uint16: u16)
    | Unsigned32(uint32: u32)
    | Unsigned64(uint64: u64)
    | Real32(bits32: u32)
    | Real64(bits64: u64)
    | VisibleString(text: Text)
    | OctetString(octets: seq<u8>)
    | UnicodeString(units: seq<u16>)
    | Domain(blob: seq<u8>)
    | TimeOfDay(ms: u32, days: u16)
    | TimeDifference(ms: u32, days: u16)
    | NetTime(seconds: u32, nanoseconds: u32)
    | MacAddress(mac: Bytes6)
    | IpAddress(ip: Bytes4)

  /** Equality of the enum discriminants. */
  predicate SameType(a: ObjectValue, b: ObjectValue) {
    match a
    case Boolean(_) => b.Boolean?
    case Integer8(_) => b.Integer8?
    case Integer16(_) => b.Integer16?
    case Integer32(_) => b.Integer32?
    case Integer64(_) => b.Integer64?
    case Unsigned8(_) => b.Unsigned8?
    case Unsigned16(_) => b.Unsigned16?
    case Unsigned32(_) => b.Unsigned32?
    case Unsigned64(_) => b.Unsigned64?
    case Real32(_) => b.Real32?
    case Real64(_) => b.Real64?
    case VisibleString(_) => b.VisibleString?
    case OctetString(_) => b.OctetString?
    case UnicodeString(_) => b.UnicodeString?
    case Domain(_) => b.Domain?
    case TimeOfDay(_, _) => b.TimeOfDay?
    case TimeDifference(_, _) => b.TimeDifference?
    case NetTime(_, _) => b.NetTime?
    case MacAddress(_) => b.MacAddress?
    case IpAddress(_) => b.IpAddress?
  }

  function Words(units: seq<u16>): (r: seq<u8>)
    ensures |r| == 2 * |units|
  {
    if units == [] then [] else Le(units[0], 2) + Words(units[1..])
  }

  function FromWords(s: seq<u8>): (r: seq<u16>)
    requires |s| % 2 == 0
    ensures 2 * |r| == |s|
  {
    SpanValues();
    if s == [] then [] else [FromLe(s[..2])] + FromWords(s[2..])
  }

  function Serialize(v: ObjectValue): seq<u8> {
    SpanValues();
    HalfValues();
    match v
    case Boolean(b) => Le(b, 1)
    case Integer8(i) => Le(ToPattern(i, 1), 1)
    case Integer16(i) => Le(ToPattern(i, 2), 2)
    case Integer32(i) => Le(ToPattern(i, 4), 4)
    case Integer64(i) => Le(ToPattern(i, 8), 8)
    case Unsigned8(u) => Le(u, 1)
    case Unsigned16(u) => Le(u, 2)
    case Unsigned32(u) => Le(u, 4)
    case Unsigned64(u) => Le(u, 8)
    case Real32(bits) => Le(bits, 4)
    case Real64(bits) => Le(bits, 8)
    case VisibleString(t) => t
    case OctetString(s) => s
    case UnicodeString(us) => Words(us)
    case Domain(s) => s
    case TimeOfDay(ms, days) => Le(ms, 4) + Le(days, 2)
    case TimeDifference(ms, days) => Le(ms, 4) + Le(days, 2)
    case NetTime(s, ns) => Le(s, 4) + Le(ns, 4)
    case MacAddress(m) => m
    case IpAddress(a) => a
  }

  /** Byte width of a fixed-size type; None for strings and domains. */
  function FixedSize(t: ObjectValue): Option<nat> {
    match t
    case Boolean(_) => Some(1)
    case Integer8(_) => Some(1)
    case Integer16(_) => Some(2)
    case Integer32(_) => Some(4)
    case Integer64(_) => Some(8)
    case Unsigned8(_) => Some(1)
    case Unsigned16(_) => Some(2)
    case Unsigned32(_) => Some(4)
    case Unsigned64(_) => Some(8)
    case Real32(_) => Some(4)
    case Real64(_) => Some(8)
    case VisibleString(_) => None
    case OctetString(_) => None
    case UnicodeString(_) => None
    case Domain(_) => None
    case TimeOfDay(_, _) => Some(6)
    case TimeDifference(_, _) => Some(6)
    case NetTime(_, _) => Some(8)
    case MacAddress(_) => Some(6)
    case IpAddress(_) => Some(4)
  }

  function Deserialize(data: seq<u8>, template: ObjectValue): Result<ObjectValue, Error> {
    SpanValues();
    HalfValues();
    match template
    case Boolean(_) => if |data| < 1 then Err(BufferTooShort) else Ok(Boolean(FromLe(data[..1])))
    case Integer8(_) => if |data| < 1 then Err(BufferTooShort) else Ok(Integer8(FromPattern(FromLe(data[..1]), 1)))
    case Integer16(_) => if |data| < 2 then Err(BufferTooShort) else Ok(Integer16(FromPattern(FromLe(data[..2]), 2)))
    case Integer32(_) => if |data| < 4 then Err(BufferTooShort) else Ok(Integer32(FromPattern(FromLe(data[..4]), 4)))
    case Integer64(_) => if |data| < 8 then Err(BufferTooShort) else Ok(Integer64(FromPattern(FromLe(data[..8]), 8)))
    case Unsigned8(_) => if |data| < 1 then Err(BufferTooShort) else Ok(Unsigned8(FromLe(data[..1])))
    case Unsigned16(_) => if |data| < 2 then Err(BufferTooShort) else Ok(Unsigned16(FromLe(data[..2])))
    case Unsigned32(_) => if |data| < 4 then Err(BufferTooShort) else Ok(Unsigned32(FromLe(data[..4])))
    case Unsigned64(_) => if |data| < 8 then Err(BufferTooShort) else Ok(Unsigned64(FromLe(data[..8])))
    case Real32(_) => if |data| < 4 then Err(BufferTooShort) else Ok(Real32(FromLe(data[..4])))
    case Real64(_) => if |data| < 8 then Err(BufferTooShort) else Ok(Real64(FromLe(data[..8])))
    case VisibleString(_) => if Utf8.Valid(data) then Ok(VisibleString(data)) else Err(TypeMismatch)
    case OctetString(_) => Ok(OctetString(data))
    case UnicodeString(_) => if |data| % 2 != 0 then Err(TypeMismatch) else Ok(UnicodeString(FromWords(data)))
    case Domain(_) => Ok(Domain(data))
    case TimeOfDay(_, _) =>
      if |data| < 6 then Err(BufferTooShort) else Ok(TimeOfDay(FromLe(data[0..4]), FromLe(data[4..6])))
    case TimeDifference(_, _) =>
      if |data| < 6 then Err(BufferTooShort) else Ok(TimeDifference(FromLe(data[0..4]), FromLe(data[4..6])))
    case NetTime(_, _) =>
      if |data| < 8 then Err(BufferTooShort) else Ok(NetTime(FromLe(data[0..4]), FromLe(data[4..8])))
    case MacAddress(_) => if |data| < 6 then Err(BufferTooShort) else Ok(MacAddress(data[0..6]))
    case IpAddress(_) => if |data| < 4 then Err(BufferTooShort) else Ok(IpAddress(data[0..4]))
  }

  /** The bytes of the data that a value of this type takes up. */
  function Consumed(data: seq<u8>, template: ObjectValue): seq<u8>
    requires FixedSize(template).Some? ==> FixedSize(template).value <= |data|
  {
    match FixedSize(template)
    case Some(n) => data[..n]
    case None => data
  }

  /** Which bytes decode against a template. */
  predicate Decodable(data: seq<u8>, template: ObjectValue) {
    match template
    case VisibleString(_) => Utf8.Valid(data)
    case UnicodeString(_) => |data| % 2 == 0
    case _ => FixedSize(template).Some? ==> FixedSize(template).value <= |data|
  }

  lemma {:induction false} WordsRoundTrip(units: seq<u16>)
    ensures FromWords(Words(units)) == units
  {
    if units != [] {
      SpanValues();
      FromLeOfLe(units[0], 2);
      WordsRoundTrip(units[1..]);
      assert Words(units)[..2] == Le(units[0], 2) && Words(units)[2..] == Words(units[1..]);
    }
  }

  lemma {:induction false} FromWordsRoundTrip(s: seq<u8>)
    requires |s| % 2 == 0
    ensures Words(FromWords(s)) == s
  {
    if s != [] {
      SpanValues();
      LeOfFromLe(s[..2]);
      FromWordsRoundTrip(s[2..]);
      assert s == s[..2] + s[2..];
      assert FromWords(s)[1..] == FromWords(s[2..]);
    }
  }

  lemma PatternRoundTrip(v: int, n: nat)
    requires n > 0 && -Half(n) <= v < Half(n)
    ensures FromPattern(ToPattern(v, n), n) == v
  {}

  lemma LePair(v: nat, n: nat, w: nat, m: nat, tail: seq<u8>)
    requires v < Span(n) && w < Span(m)
    ensures var s := Le(v, n) + Le(w, m) + tail;
            FromLe(s[..n]) == v && FromLe(s[n..n + m]) == w
  {
    FromLeOfLe(v, n);
    FromLeOfLe(w, m);
    var s := Le(v, n) + Le(w, m) + tail;
    assert s[..n] == Le(v, n) && s[n..n + m] == Le(w, m);
  }

  /**
   * Decoding what was encoded gives the value back, against any template of its type;
   * bytes after a fixed-size value are ignored.
   */
  lemma RoundTrip(v: ObjectValue, template: ObjectValue, tail: seq<u8>)
    requires SameType(v, template)
    requires FixedSize(v) == None ==> tail == []
    ensures Deserialize(Serialize(v) + tail, template) == Ok(v)
  {
    SpanValues();
    HalfValues();
    var s := Serialize(v) + tail;
    match v {
      case Boolean(b) => LePrefix(b, 1, tail);
      case Integer8(i) => LePrefix(ToPattern(i, 1), 1, tail); PatternRoundTrip(i, 1);
      case Integer16(i) => LePrefix(ToPattern(i, 2), 2, tail); PatternRoundTrip(i, 2);
      case Integer32(i) => LePrefix(ToPattern(i, 4), 4, tail); PatternRoundTrip(i, 4);
      case Integer64(i) => LePrefix(ToPattern(i, 8), 8, tail); PatternRoundTrip(i, 8);
      case Unsigned8(u) => LePrefix(u, 1, tail);
      case Unsigned16(u) => LePrefix(u, 2, tail);
      case Unsigned32(u) => LePrefix(u, 4, tail);
      case Unsigned64(u) => LePrefix(u, 8, tail);
      case Real32(u) => LePrefix(u, 4, tail);
      case Real64(u) => LePrefix(u, 8, tail);
      case UnicodeString(us) => WordsRoundTrip(us); assert s == Words(us);
      case TimeOfDay(ms, days) => LePair(ms, 4, days, 2, tail); assert s == Le(ms, 4) + Le(days, 2) + tail;
      case TimeDifference(ms, days) => LePair(ms, 4, days, 2, tail); assert s == Le(ms, 4) + Le(days, 2) + tail;
      case NetTime(sec, ns) => LePair(sec, 4, ns, 4, tail); assert s == Le(sec, 4) + Le(ns, 4) + tail;
      case MacAddress(m) => assert s[0..6] == m;
      case IpAddress(a) => assert s[0..4] == a;
      case _ => assert s == Serialize(v);
    }
  }

  lemma {:induction false} PairInverse(data: seq<u8>, n: nat, m: nat)
    requires |data| >= n + m
    ensures Le(FromLe(data[..n]), n) + Le(FromLe(data[n..n + m]), m) == data[..n + m]
  {
    LeOfFromLe(data[..n]);
    LeOfFromLe(data[n..n + m]);
    assert data[..n] + data[n..n + m] == data[..n + m];
  }

  lemma {:induction false} DecodesDecodable(data: seq<u8>, template: ObjectValue)
    ensures Deserialize(data, template).Ok? == Decodable(data, template)
  {}

  /** What is decoded has the template's type. */
  lemma {:induction false} DecodesToType(data: seq<u8>, template: ObjectValue)
    requires Deserialize(data, template).Ok?
    ensures SameType(Deserialize(data, template).value, template)
  {}

  /** What is decoded encodes to the bytes it was read from. */
  lemma {:induction false} EncodesBack(data: seq<u8>, template: ObjectValue)
    requires Decodable(data, template)
    ensures Deserialize(data, template).Ok?
    ensures Serialize(Deserialize(data, template).value) == Consumed(data, template)
  {
    DecodesDecodable(data, template);
    SpanValues();
    if FixedSize(template).Some? { LeOfFromLe(Consumed(data, template)); }
    match template {
      case UnicodeString(_) => FromWordsRoundTrip(data);
      case TimeOfDay(_, _) => PairInverse(data, 4, 2);
      case TimeDifference(_, _) => PairInverse(data, 4, 2);
      case NetTime(_, _) => PairInverse(data, 4, 4);
      case _ =>
    }
  }

  /**
   * Decoding succeeds exactly on decodable bytes; the result has the template's type and
   * encodes to the bytes it was read from.
   */
  lemma {:induction false} DeserializeExact(data: seq<u8>, template: ObjectValue)
    ensures Deserialize(data, template).Ok? == Decodable(data, template)
    ensures Decodable(data, template) ==>
              var v := Deserialize(data, template).value;
              SameType(v, template) && SameType(template, v) && Serialize(v) == Consumed(data, template)
  {
    DecodesDecodable(data, template);
    if Decodable(data, template) {
      DecodesToType(data, template);
      SameTypeEquivalence(Deserialize(data, template).value, template, template);
      EncodesBack(data, template);
    }
  }

  lemma SameTypeEquivalence(a: ObjectValue, b: ObjectValue, c: ObjectValue)
    ensures SameType(a, a)
    ensures SameType(a, b) == SameType(b, a)
    ensures SameType(a, b) && SameType(b, c) ==> SameType(a, c)
  {}
}
