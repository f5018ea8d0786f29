/**
 * PDO mapping entries and their validation
 * (crates/powerlink-rs/src/pdo/mapping.rs, od/pdo_validator.rs; EPSG DS 301, section 6.4).
 */
module PdoMapping {
  import opened Wrappers
  import opened Bytes
  import opened ObjectValues
  import opened Entries

  datatype MappingEntry = MappingEntry(index: u16, sub: u8, offsetBits: u16, lengthBits: u16)

  function FromU64(v: u64): MappingEntry {
    MappingEntry(v % 0x1_0000, (v / 0x1_0000) % 0x100, (v / 0x1_0000_0000) % 0x1_0000, v / 0x1_0000_0000_0000)
  }

  /** The four fields take disjoint bits, so the source's or is a sum. */
  function ToU64(e: MappingEntry): u64 {
    e.index + e.sub * 0x1_0000 + e.offsetBits * 0x1_0000_0000 + e.lengthBits * 0x1_0000_0000_0000
  }

  function ByteOffset(e: MappingEntry): Option<nat> {
    if e.offsetBits % 8 == 0 then Some(e.offsetBits / 8) else None
  }

  function ByteLength(e: MappingEntry): Option<nat> {
    if e.lengthBits % 8 == 0 then Some(e.lengthBits / 8) else None
  }

  predicate ByteAligned(e: MappingEntry) { ByteOffset(e).Some? && ByteLength(e).Some? }

  /** Bits 24 to 31 of the stored value. */
  function ReservedByte(v: u64): u8 { (v / 0x100_0000) % 0x100 }

  /** A number made of a low and a high part comes apart again. */
  lemma Parts(low: nat, high: nat, m: nat)
    requires low < m
    ensures (low + high * m) % m == low && (low + high * m) / m == high
  {
    DivisionIsUnique(low + high * m, m, high, low);
  }

  lemma TimesSign(d: int, m: int)
    requires m > 0
    ensures d >= 1 ==> d * m >= m
    ensures d <= -1 ==> d * m <= -m
  {}

  lemma DivisionIsUnique(x: nat, m: nat, q: nat, r: nat)
    requires m > 0 && x == q * m + r && r < m
    ensures x / m == q && x % m == r
  {
    var d := x / m - q;
    assert d * m == r - x % m;
    TimesSign(d, m);
  }

  lemma DecodeEncode(e: MappingEntry)
    ensures FromU64(ToU64(e)) == e
  {
    var x := ToU64(e);
    var upper := e.offsetBits + e.lengthBits * 0x1_0000;
    Parts(e.offsetBits, e.lengthBits, 0x1_0000);
    Parts(e.index + e.sub * 0x1_0000, upper, 0x1_0000_0000);
    Parts(e.sub, upper * 0x100, 0x100);
    Parts(e.index, e.sub + upper * 0x1_0000, 0x1_0000);
    assert e.sub + upper * 0x1_0000 == e.sub + (upper * 0x100) * 0x100;
    Parts(e.index + e.sub * 0x1_0000 + e.offsetBits * 0x1_0000_0000, e.lengthBits, 0x1_0000_0000_0000);
  }

  lemma EncodeDecode(v: u64)
    ensures ToU64(FromU64(v)) + ReservedByte(v) * 0x100_0000 == v
  {
    var q1 := v / 0x1_0000;
    var q2 := q1 / 0x100;
    var q3 := q2 / 0x100;
    var q4 := q3 / 0x1_0000;
    DivisionIsUnique(v, 0x100_0000, q2, v % 0x1_0000 + (q1 % 0x100) * 0x1_0000);
    DivisionIsUnique(v, 0x1_0000_0000, q3, v % 0x1_0000 + (q1 % 0x100) * 0x1_0000 + (q2 % 0x100) * 0x100_0000);
    DivisionIsUnique(v, 0x1_0000_0000_0000, q4,
      v % 0x1_0000 + (q1 % 0x100) * 0x1_0000 + (q2 % 0x100) * 0x100_0000 + (q3 % 0x1_0000) * 0x1_0000_0000);
  }

  /** Decoding inverts encoding; encoding gives a stored value back exactly when its reserved byte is 0. */
  lemma MappingRoundTrip(e: MappingEntry, v: u64)
    ensures FromU64(ToU64(e)) == e
    ensures ToU64(FromU64(v)) == v <==> ReservedByte(v) == 0
  {
    DecodeEncode(e);
    EncodeDecode(v);
  }

  /**
   * The fields of a mapping entry in the eight bytes of its value: index, sub-index, a reserved byte,
   * offset and length, each with its least significant byte first.
   */
  lemma {:induction false} FieldsInBytes(b: seq<u8>)
    requires |b| == 8
    ensures FromLe(b) < 0x1_0000_0000_0000_0000
    ensures FromLe(b[..2]) < 0x1_0000 && FromLe(b[4..6]) < 0x1_0000 && FromLe(b[6..]) < 0x1_0000
    ensures FromU64(FromLe(b)) == MappingEntry(FromLe(b[..2]), b[2], FromLe(b[4..6]), FromLe(b[6..]))
  {
    SpanValues();
    var index, sub, reserved, offset, length := FromLe(b[..2]), b[2], b[3], FromLe(b[4..6]), FromLe(b[6..]);
    assert b == b[..2] + (b[2..4] + (b[4..6] + b[6..]));
    FromLeConcat(b[..2], b[2..4] + (b[4..6] + b[6..]));
    FromLeConcat(b[2..4], b[4..6] + b[6..]);
    FromLeConcat(b[4..6], b[6..]);
    TwoBytes(b[2..4]);
    var high := offset + 0x1_0000 * length;
    var upper := (sub as int) + 0x100 * (reserved as int) + 0x1_0000 * high;
    assert FromLe(b) == index + 0x1_0000 * upper;
    FieldsOfNumber(index, sub, reserved, offset, length);
  }

  lemma {:induction false} FieldsOfNumber(index: u16, sub: u8, reserved: u8, offset: u16, length: u16)
    ensures var v := index + 0x1_0000 * (sub + 0x100 * reserved + 0x1_0000 * (offset + 0x1_0000 * length));
            && v < 0x1_0000_0000_0000_0000
            && FromU64(v) == MappingEntry(index, sub, offset, length)
  {
    var high := offset + 0x1_0000 * length;
    var upper := sub + 0x100 * reserved + 0x1_0000 * high;
    var v := index + 0x1_0000 * upper;
    DivisionIsUnique(v, 0x1_0000, upper, index);
    DivisionIsUnique(upper, 0x100, reserved + 0x100 * high, sub);
    DivisionIsUnique(v, 0x1_0000_0000, high, index + 0x1_0000 * (sub + 0x100 * reserved));
    DivisionIsUnique(high, 0x1_0000, length, offset);
    DivisionIsUnique(v, 0x1_0000_0000_0000, length,
                     index + 0x1_0000 * (sub + 0x100 * reserved) + 0x1_0000_0000 * offset);
  }

  // ---- Validation ----

  /** Last bit used by an entry. */
  function EndBits(e: MappingEntry): nat { e.offsetBits + e.lengthBits }

  function PayloadLimit(d: Dictionary, index: u16): nat {
    if 0x1A00 <= index <= 0x1AFF then GetOr(ReadU16(d, 0x1F98, 1), 1490) else GetOr(ReadU16(d, 0x1F98, 2), 1490)
  }

  /** Bits used by the first n stored values; they must all be there and be mapping entries. */
  function RequiredBits(values: seq<ObjectValue>, n: nat): Result<nat, Error> {
    if n == 0 then Ok(0)
    else
      match RequiredBits(values, n - 1)
      case Err(e) => Err(e)
      case Ok(bits) =>
        if n <= |values| && values[n - 1].Unsigned64? then
          var end := EndBits(FromU64(values[n - 1].uint64));
          Ok(if bits < end then end else bits)
        else Err(ValidationError)
  }

  function Validation(d: Dictionary, index: u16, n: u8): Result<(), Error> {
    if n == 0 || !IsMappingIndex(index) then Ok(())
    else if index !in d || !d[index].obj.Array? then Err(ObjectNotFound)
    else
      match RequiredBits(d[index].obj.values, n)
      case Err(e) => Err(e)
      case Ok(bits) => if (bits + 7) / 8 > PayloadLimit(d, index) then Err(PdoMapOverrun) else Ok(())
  }

  method ValidatePdoMapping(d: Dictionary, index: u16, n: u8) returns (r: Result<(), Error>)
    ensures r == Validation(d, index, n)
  {
    if n == 0 {
      return Ok(());
    }
    var isTpdo := 0x1A00 <= index <= 0x1AFF;
    var isRpdo := 0x1600 <= index <= 0x16FF;
    if !isTpdo && !isRpdo {
      return Ok(());
    }
    var limit := if isTpdo then GetOr(ReadU16(d, 0x1F98, 1), 1490) else GetOr(ReadU16(d, 0x1F98, 2), 1490);
    var maxBits := 0;
    if index in d && d[index].obj.Array? {
      var values := d[index].obj.values;
      for i := 0 to n
        invariant RequiredBits(values, i) == Ok(maxBits)
      {
        if i < |values| && values[i].Unsigned64? {
          var entry := FromU64(values[i].uint64);
          var end := entry.offsetBits + entry.lengthBits;
          if maxBits < end { maxBits := end; }
        } else {
          RequiredBitsFails(values, i, n);
          return Err(ValidationError);
        }
      }
    } else {
      return Err(ObjectNotFound);
    }
    if (maxBits + 7) / 8 > limit {
      return Err(PdoMapOverrun);
    }
    return Ok(());
  }

  lemma {:induction false} RequiredBitsFails(values: seq<ObjectValue>, i: nat, n: nat)
    requires i < n && RequiredBits(values, i).Ok? && !(i < |values| && values[i].Unsigned64?)
    ensures RequiredBits(values, n) == Err(ValidationError)
  {
    if i + 1 < n { RequiredBitsFails(values, i, n - 1); }
  }

  /** The i-th stored value is a mapping entry that ends within a byte limit. */
  predicate FitsAt(values: seq<ObjectValue>, i: nat, limit: nat) {
    i < |values| && values[i].Unsigned64? && (EndBits(FromU64(values[i].uint64)) + 7) / 8 <= limit
  }

  lemma {:induction false} RequiredBitsExact(values: seq<ObjectValue>, n: nat, limit: nat)
    ensures RequiredBits(values, n).Ok? && (RequiredBits(values, n).value + 7) / 8 <= limit
       <==> forall i :: 0 <= i < n ==> FitsAt(values, i, limit)
  {
    if n > 0 {
      RequiredBitsExact(values, n - 1, limit);
      if forall i :: 0 <= i < n ==> FitsAt(values, i, limit) {
        assert FitsAt(values, n - 1, limit);
      }
    }
  }

  /**
   * Validation of a non-empty mapping accepts exactly the arrays whose first n elements are
   * all mapping entries that end within the configured payload limit.
   */
  lemma ValidationExact(d: Dictionary, index: u16, n: u8)
    requires IsMappingIndex(index) && n > 0
    ensures Validation(d, index, n).Ok? <==>
              && index in d && d[index].obj.Array?
              && forall i :: 0 <= i < n ==> FitsAt(d[index].obj.values, i, PayloadLimit(d, index))
  {
    if index in d && d[index].obj.Array? {
      RequiredBitsExact(d[index].obj.values, n, PayloadLimit(d, index));
    }
  }

  /** The limit comes from 0x1F98: sub-index 1 for sent PDOs and 2 for received ones, and it is 1490 without that. */
  lemma {:induction false} LimitFromObjects(d: Dictionary, index: u16)
    requires IsMappingIndex(index)
    ensures PayloadLimit(d, index) ==
            match Read(d, 0x1F98, if index < 0x1700 then 2 else 1) case Some(Unsigned16(v)) => v case _ => 1490
  {}

  // ---- The entries that a receiving node applies ----

  /** The mapping entries among the first n sub-indices, in order. */
  function MappedEntries(d: Dictionary, index: u16, n: u8): seq<MappingEntry> {
    if n == 0 then []
    else
      MappedEntries(d, index, n - 1)
      + match Read(d, index, n)
        case Some(Unsigned64(raw)) => [FromU64(raw)]
        case _ => []
  }

  /** The entry count that the node reads from sub-index 0. */
  function MappingCount(d: Dictionary, index: u16): u8 {
    GetOr(ReadU8(d, index, 0), 0)
  }

  predicate InBounds(e: MappingEntry, size: nat) {
    ByteAligned(e) ==> ByteOffset(e).value + ByteLength(e).value <= size
  }

  lemma {:induction false} MappedEntriesFit(d: Dictionary, index: u16, n: u8, limit: nat)
    requires index in d && d[index].obj.Array? && n <= 254
    requires forall i :: 0 <= i < n ==> FitsAt(d[index].obj.values, i, limit)
    ensures forall k :: 0 <= k < |MappedEntries(d, index, n)| ==> InBounds(MappedEntries(d, index, n)[k], limit)
  {
    if n > 0 {
      MappedEntriesFit(d, index, n - 1, limit);
      assert FitsAt(d[index].obj.values, n - 1, limit);
    }
  }

  /**
   * Once a count that covers the stored entries has been validated, no byte-aligned entry the
   * node applies can overrun a payload of at least the configured limit.
   */
  lemma ValidatedNeverRunsShort(d: Dictionary, index: u16, n: u8, size: nat)
    requires 0x1600 <= index <= 0x16FF && Validation(d, index, n).Ok? && n > 0
    requires n >= MappingCount(d, index) && size >= PayloadLimit(d, index)
    ensures forall k :: 0 <= k < |MappedEntries(d, index, MappingCount(d, index))| ==>
              InBounds(MappedEntries(d, index, MappingCount(d, index))[k], size)
  {
    ValidationExact(d, index, n);
    MappedEntriesFit(d, index, MappingCount(d, index), PayloadLimit(d, index));
  }

  ghost predicate ValidatedButShort(d: Dictionary, index: u16, n: u8, size: nat) {
    && Validation(d, index, n).Ok? && size >= PayloadLimit(d, index)
    && exists k :: 0 <= k < |MappedEntries(d, index, MappingCount(d, index))|
              && !InBounds(MappedEntries(d, index, MappingCount(d, index))[k], size)
  }

  /** A mapping of c entries of which only the one behind the first n leaves the payload limit. */
  function LateOverrun(n: u8, c: u8): Dictionary
    requires n < c <= 254
  {
    var big := MappingEntry(0x2000, 0, 16000, 8);
    map[0x1600 := ObjectEntry(
          Array(seq(c, k requires 0 <= k < c => if k == n then Unsigned64(ToU64(big)) else Unsigned64(0))), None, None)]
  }

  lemma {:induction false} LateEntries(n: u8, c: u8, m: u8)
    requires n < c <= 254 && m <= c
    ensures |MappedEntries(LateOverrun(n, c), 0x1600, m)| == m
    ensures n < m ==> MappedEntries(LateOverrun(n, c), 0x1600, m)[n] == MappingEntry(0x2000, 0, 16000, 8)
  {
    if m > 0 {
      LateEntries(n, c, m - 1);
      DecodeEncode(MappingEntry(0x2000, 0, 16000, 8));
    }
  }

  lemma {:induction false} LateCount(n: u8, c: u8)
    requires n < c <= 254
    ensures MappingCount(LateOverrun(n, c), 0x1600) == c && PayloadLimit(LateOverrun(n, c), 0x1600) == 1490
  {}

  lemma {:induction false} LateValidation(n: u8, c: u8)
    requires n < c <= 254
    ensures Validation(LateOverrun(n, c), 0x1600, n).Ok?
  {
    var d := LateOverrun(n, c);
    if n > 0 {
      LateCount(n, c);
      ValidationExact(d, 0x1600, n);
      forall i | 0 <= i < n ensures FitsAt(d[0x1600].obj.values, i, 1490) {}
    }
  }

  lemma {:induction false} LateOverrunIsValidated(n: u8, c: u8)
    requires n < c <= 254
    ensures ValidatedButShort(LateOverrun(n, c), 0x1600, n, 1490)
  {
    LateCount(n, c);
    LateEntries(n, c, c);
    LateValidation(n, c);
    assert !InBounds(MappedEntries(LateOverrun(n, c), 0x1600, c)[n], 1490);
  }

  /**
   * The condition on the count is exact: the node applies every stored entry, so validating a
   * count bounds a mapping of c entries, whatever they are, if and only if the count is at least c.
   */
  lemma {:induction false} CountConditionIsExact(n: u8, c: u8)
    requires c <= 254
    ensures n >= c <==>
              forall d: Dictionary, size: nat ::
                MappingCount(d, 0x1600) == c ==> !ValidatedButShort(d, 0x1600, n, size)
  {
    if n < c {
      LateCount(n, c);
      LateOverrunIsValidated(n, c);
    } else {
      forall d: Dictionary, size: nat | MappingCount(d, 0x1600) == c ensures !ValidatedButShort(d, 0x1600, n, size) {
        if n > 0 && Validation(d, 0x1600, n).Ok? && size >= PayloadLimit(d, 0x1600) {
          ValidatedNeverRunsShort(d, 0x1600, n, size);
        }
      }
    }
  }
}
