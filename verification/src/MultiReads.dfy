/**
 * The response to a read of several parameters
 * (crates/powerlink-rs/src/sdo/handlers.rs:398-442, sdo/command/base.rs:346-364).
 */
module MultiReads {
  import opened Wrappers
  import opened Bytes
  import opened ObjectValues
  import opened Entries

  datatype Item = Item(index: u16, sub: u8)

  // ---- The request ----

  /** Four bytes for each item: index, sub-index and a byte that is ignored. */
  function ParseItems(payload: seq<u8>): seq<Item>
    requires |payload| % 4 == 0
  {
    SpanValues();
    if payload == [] then []
    else
      assert |payload[0..2]| == 2;
      [Item(FromLe(payload[0..2]), payload[2])] + ParseItems(payload[4..])
  }

  function ParseRequest(payload: seq<u8>): Result<seq<Item>, Error> {
    if |payload| % 4 != 0 then Err(InvalidCommandPayload) else Ok(ParseItems(payload))
  }

  /** A request written from its format; the fourth byte of each item is reserved. */
  function EncodeItems(items: seq<Item>, reserved: u8): (r: seq<u8>)
    ensures |r| == 4 * |items|
  {
    if items == [] then []
    else Le(items[0].index, 2) + [items[0].sub, reserved] + EncodeItems(items[1..], reserved)
  }

  lemma {:induction false} ItemsRoundTrip(items: seq<Item>, reserved: u8)
    ensures ParseRequest(EncodeItems(items, reserved)) == Ok(items)
  {
    if items != [] {
      var s, rest := EncodeItems(items, reserved), EncodeItems(items[1..], reserved);
      ItemsRoundTrip(items[1..], reserved);
      assert Span(2) == 0x1_0000 by { SpanValues(); }
      FromLeOfLe(items[0].index, 2);
      assert s[0..2] == Le(items[0].index, 2) && s[2] == items[0].sub && s[4..] == rest;
      assert [items[0]] + items[1..] == items;
    }
  }

  // ---- The response ----

  function PaddingOf(n: nat): nat { (4 - n % 4) % 4 }

  /** The part of the response that belongs to one value; the length field has 16 bits. */
  function Block(data: seq<u8>): (r: seq<u8>)
    ensures |r| == 4 + |data| + PaddingOf(|data|) && |r| % 4 == 0
  {
    [0, 0] + Le(|data| % 0x1_0000, 2) + data + Zeros(PaddingOf(|data|))
  }

  function AbortCode(d: Dictionary, item: Item): u32 { if item.index in d then 0x0609_0011 else 0x0602_0000 }

  /** All blocks, or the abort code of the first item that cannot be read. */
  function Blocks(d: Dictionary, items: seq<Item>): Result<seq<u8>, u32> {
    if items == [] then Ok([])
    else
      var k := |items| - 1;
      match Blocks(d, items[..k])
      case Err(code) => Err(code)
      case Ok(bytes) =>
        match Read(d, items[k].index, items[k].sub)
        case Some(v) => Ok(bytes + Block(Serialize(v)))
        case None => Err(AbortCode(d, items[k]))
  }

  /** The number of entries as four bytes. */
  function CountHead(n: nat): (r: seq<u8>)
    ensures |r| == 4 && (n < 0x1_0000_0000 ==> FromLe(r) == n)
  {
    CountBytes(n % 0x1_0000_0000);
    Le(n % 0x1_0000_0000, 4)
  }

  lemma CountBytes(n: u32)
    ensures |Le(n, 4)| == 4 && FromLe(Le(n, 4)) == n
  {
    assert Span(4) == 0x1_0000_0000 by { SpanValues(); }
    FromLeOfLe(n, 4);
  }

  function Response(d: Dictionary, items: seq<Item>): Result<seq<u8>, u32> {
    match Blocks(d, items)
    case Err(code) => Err(code)
    case Ok(bytes) => Ok(CountHead(|items|) + bytes)
  }

  /** What the handler answers to the payload of a request: the response or an abort code. */
  function Reply(d: Dictionary, payload: seq<u8>): Result<seq<u8>, u32> {
    match ParseRequest(payload)
    case Err(_) => Err(0x0504_0001)
    case Ok(items) => Response(d, items)
  }

  method HandleReadMultiple(d: Dictionary, payload: seq<u8>) returns (r: Result<seq<u8>, u32>)
    ensures r == Reply(d, payload)
  {
    var request := ParseRequest(payload);
    if request.Err? {
      return Err(0x0504_0001);
    }
    r := BuildResponse(d, request.value);
  }

  /** The loops of the handler. */
  method BuildResponse(d: Dictionary, items: seq<Item>) returns (r: Result<seq<u8>, u32>)
    ensures r == Response(d, items)
  {
    var payload: seq<u8> := [];
    var k := 0;
    assert items[..0] == [];
    while k < |items|
      invariant k <= |items| && |payload| % 4 == 0
      invariant Blocks(d, items[..k]) == Ok(payload)
    {
      BlocksStep(d, items, k);
      var value := Read(d, items[k].index, items[k].sub);
      if value.None? {
        BlocksFail(d, items, k);
        return Err(if items[k].index !in d then 0x0602_0000 else 0x0609_0011);
      }
      var data := Serialize(value.value);
      Aligned(|payload|, |Block(data)|);
      payload := AppendBlock(payload, data);
      k := k + 1;
    }
    assert items[..|items|] == items;
    return Ok(CountHead(|items|) + payload);
  }

  /** Appends one value byte by byte up to the next four-byte boundary. */
  method AppendBlock(start: seq<u8>, data: seq<u8>) returns (payload: seq<u8>)
    requires |start| % 4 == 0
    ensures payload == start + Block(data)
  {
    payload := start + [0] + [0] + Le(|data| % 0x1_0000, 2) + data;
    assert payload == start + ([0, 0] + Le(|data| % 0x1_0000, 2) + data);
    payload := PadToFour(payload, |data|);
  }

  /** Appends zeros up to the next four-byte boundary. */
  method PadToFour(start: seq<u8>, n: nat) returns (payload: seq<u8>)
    requires |start| % 4 == n % 4
    ensures payload == start + Zeros(PaddingOf(n))
  {
    payload := start;
    ghost var added := 0;
    while |payload| % 4 != 0
      invariant added <= PaddingOf(n) && payload == start + Zeros(added)
      decreases PaddingOf(n) - added
    {
      payload := payload + [0];
      added := added + 1;
    }
  }

  lemma Aligned(a: nat, b: nat)
    requires a % 4 == 0 && b % 4 == 0
    ensures (a + b) % 4 == 0
  {}

  lemma BlocksStep(d: Dictionary, items: seq<Item>, k: nat)
    requires k < |items| && Blocks(d, items[..k]).Ok?
    ensures Blocks(d, items[..k + 1]) ==
            match Read(d, items[k].index, items[k].sub)
            case Some(v) => Ok(Blocks(d, items[..k]).value + Block(Serialize(v)))
            case None => Err(AbortCode(d, items[k]))
  {
    assert items[..k + 1][..k] == items[..k];
  }

  lemma BlocksStuck(d: Dictionary, items: seq<Item>, k: nat)
    requires k < |items| && Blocks(d, items[..k]).Err?
    ensures Blocks(d, items[..k + 1]) == Blocks(d, items[..k])
  {
    assert items[..k + 1][..k] == items[..k];
  }

  lemma {:induction false} BlocksFail(d: Dictionary, items: seq<Item>, k: nat)
    requires k < |items| && Blocks(d, items[..k + 1]).Err?
    ensures Blocks(d, items) == Blocks(d, items[..k + 1])
    decreases |items| - k
  {
    if k + 1 == |items| {
      assert items[..k + 1] == items;
    } else {
      BlocksStuck(d, items, k + 1);
      BlocksFail(d, items, k + 1);
    }
  }

  // ---- Reading the response back, from the format alone ----

  /** The data of the block at the front and the rest behind its padding. */
  function ParseBlock(s: seq<u8>): Option<(seq<u8>, seq<u8>)> {
    if |s| < 4 || s[0] != 0 || s[1] != 0 then None
    else
      var n := FromLe(s[2..4]);
      var end := 4 + n + PaddingOf(n);
      if end > |s| || s[4 + n..end] != Zeros(PaddingOf(n)) then None else Some((s[4..4 + n], s[end..]))
  }

  /** Exactly count blocks and nothing behind them. */
  function ParseBlocks(s: seq<u8>, count: nat): Option<seq<seq<u8>>> {
    if count == 0 then if s == [] then Some([]) else None
    else
      match ParseBlock(s)
      case None => None
      case Some((data, rest)) =>
        match ParseBlocks(rest, count - 1)
        case None => None
        case Some(others) => Some([data] + others)
  }

  function ParseResponse(s: seq<u8>): Option<seq<seq<u8>>> {
    if |s| < 4 then None else ParseBlocks(s[4..], FromLe(s[..4]))
  }

  /** The serialised values of the items in order, if all can be read. */
  function ValuesOf(d: Dictionary, items: seq<Item>): Option<seq<seq<u8>>> {
    if items == [] then Some([])
    else
      match (Read(d, items[0].index, items[0].sub), ValuesOf(d, items[1..]))
      case (Some(v), Some(others)) => Some([Serialize(v)] + others)
      case _ => None
  }

  function Concat(values: seq<seq<u8>>): seq<u8> {
    if values == [] then [] else Block(values[0]) + Concat(values[1..])
  }

  /** A block reads back as its data exactly when the data has fewer than 65536 bytes. */
  lemma BlockRoundTrip(data: seq<u8>, rest: seq<u8>)
    ensures |data| < 0x1_0000 ==> ParseBlock(Block(data) + rest) == Some((data, rest))
    ensures |data| >= 0x1_0000 ==>
            ParseBlock(Block(data) + rest).None? || ParseBlock(Block(data) + rest).value.0 != data
  {
    var s := Block(data) + rest;
    var m := |data| % 0x1_0000;
    assert Span(2) == 0x1_0000 by { SpanValues(); }
    assert s[2..4] == Le(m, 2);
    FromLeOfLe(m, 2);
    assert s[0] == 0 && s[1] == 0;
    if |data| < 0x1_0000 {
      var end := 4 + |data| + PaddingOf(|data|);
      assert s[4..4 + |data|] == data;
      assert s[4 + |data|..end] == Zeros(PaddingOf(|data|));
      assert s[end..] == rest;
    }
  }

  lemma {:induction false} ConcatRoundTrip(values: seq<seq<u8>>)
    requires forall k :: 0 <= k < |values| ==> |values[k]| < 0x1_0000
    ensures ParseBlocks(Concat(values), |values|) == Some(values)
  {
    if values != [] {
      BlockRoundTrip(values[0], Concat(values[1..]));
      ConcatRoundTrip(values[1..]);
      assert [values[0]] + values[1..] == values;
    }
  }

  lemma {:induction false} ConcatSnoc(values: seq<seq<u8>>, v: seq<u8>)
    ensures Concat(values + [v]) == Concat(values) + Block(v)
  {
    if values == [] {
      assert [v][1..] == [] && Concat([v]) == Block(v) + [];
    } else {
      assert (values + [v])[1..] == values[1..] + [v];
      ConcatSnoc(values[1..], v);
      assert Block(values[0]) + (Concat(values[1..]) + Block(v)) == (Block(values[0]) + Concat(values[1..])) + Block(v);
    }
  }

  lemma {:induction false} ValuesSnoc(d: Dictionary, items: seq<Item>, i: Item)
    ensures ValuesOf(d, items + [i]) ==
            match (ValuesOf(d, items), Read(d, i.index, i.sub))
            case (Some(vs), Some(v)) => Some(vs + [Serialize(v)])
            case _ => None
  {
    if items == [] {
      assert [] + [i] == [i] && [i][1..] == [];
      if Read(d, i.index, i.sub).Some? {
        var one := [Serialize(Read(d, i.index, i.sub).value)];
        assert one + [] == one == [] + one;
      }
    } else {
      assert (items + [i])[1..] == items[1..] + [i] && (items + [i])[0] == items[0];
      ValuesSnoc(d, items[1..], i);
      if Read(d, items[0].index, items[0].sub).Some? && ValuesOf(d, items[1..]).Some? && Read(d, i.index, i.sub).Some? {
        var first, others, last := [Serialize(Read(d, items[0].index, items[0].sub).value)],
                                   ValuesOf(d, items[1..]).value, [Serialize(Read(d, i.index, i.sub).value)];
        assert first + (others + last) == (first + others) + last;
      }
    }
  }

  lemma {:induction false} BlocksAreValues(d: Dictionary, items: seq<Item>)
    ensures Blocks(d, items).Ok? <==> ValuesOf(d, items).Some?
    ensures Blocks(d, items).Ok? ==> Blocks(d, items).value == Concat(ValuesOf(d, items).value)
    ensures ValuesOf(d, items).Some? ==> |ValuesOf(d, items).value| == |items|
  {
    if items != [] {
      var k := |items| - 1;
      BlocksAreValues(d, items[..k]);
      ValuesSnoc(d, items[..k], items[k]);
      assert items == items[..k] + [items[k]];
      if Blocks(d, items).Ok? {
        ConcatSnoc(ValuesOf(d, items[..k]).value, Serialize(Read(d, items[k].index, items[k].sub).value));
      }
    }
  }

  /** The serialised value of an item. */
  function ReadBytes(d: Dictionary, i: Item): Option<seq<u8>> {
    match Read(d, i.index, i.sub)
    case Some(v) => Some(Serialize(v))
    case None => None
  }

  /** The item can be read and its value has fewer than 65536 bytes. */
  predicate ReadsSmall(d: Dictionary, i: Item) {
    ReadBytes(d, i).Some? && |ReadBytes(d, i).value| < 0x1_0000
  }

  lemma {:induction false} ValuesAreSmall(d: Dictionary, items: seq<Item>)
    requires forall k :: 0 <= k < |items| ==> ReadsSmall(d, items[k])
    ensures ValuesOf(d, items).Some? && |ValuesOf(d, items).value| == |items|
    ensures forall k :: 0 <= k < |items| ==>
              Some(ValuesOf(d, items).value[k]) == ReadBytes(d, items[k]) && |ValuesOf(d, items).value[k]| < 0x1_0000
  {
    if items != [] {
      assert ReadsSmall(d, items[0]);
      ValuesAreSmall(d, items[1..]);
    }
  }

  /** The request is one that the response can carry: every item reads, and to a value that fits its length field. */
  ghost predicate Carries(d: Dictionary, items: seq<Item>) {
    |items| < 0x1_0000_0000 && forall k :: 0 <= k < |items| ==> ReadsSmall(d, items[k])
  }

  lemma {:induction false} ResponseIsConcat(d: Dictionary, items: seq<Item>)
    requires Carries(d, items)
    ensures ValuesOf(d, items).Some?
    ensures Response(d, items) == Ok(CountHead(|items|) + Concat(ValuesOf(d, items).value))
  {
    ValuesAreSmall(d, items);
    BlocksAreValues(d, items);
  }

  /** A list of blocks reads back as its values only if each of them has fewer than 65536 bytes. */
  lemma {:induction false} ConcatReadsBack(values: seq<seq<u8>>)
    requires ParseBlocks(Concat(values), |values|) == Some(values)
    ensures forall k :: 0 <= k < |values| ==> |values[k]| < 0x1_0000
  {
    if values != [] {
      BlockRoundTrip(values[0], Concat(values[1..]));
      HeadReadsBack(values);
      ConcatReadsBack(values[1..]);
    }
  }

  lemma {:induction false} HeadReadsBack(values: seq<seq<u8>>)
    requires values != [] && ParseBlocks(Concat(values), |values|) == Some(values)
    ensures ParseBlock(Concat(values)).Some? && ParseBlock(Concat(values)).value.0 == values[0]
    ensures ParseBlocks(ParseBlock(Concat(values)).value.1, |values| - 1) == Some(values[1..])
  {
    var (data, rest) := ParseBlock(Concat(values)).value;
    var others := ParseBlocks(rest, |values| - 1).value;
    assert values == [data] + others;
    assert others == values[1..];
  }

  ghost predicate Readable(d: Dictionary, items: seq<Item>) {
    forall k :: 0 <= k < |items| ==> ReadBytes(d, items[k]).Some?
  }

  lemma {:induction false} ReadableValues(d: Dictionary, items: seq<Item>)
    requires Readable(d, items)
    ensures ValuesOf(d, items).Some? && |ValuesOf(d, items).value| == |items|
    ensures forall k :: 0 <= k < |items| ==> Some(ValuesOf(d, items).value[k]) == ReadBytes(d, items[k])
  {
    if items != [] {
      assert ReadBytes(d, items[0]).Some?;
      ReadableValues(d, items[1..]);
    }
  }

  /** The response reads back as the serialised values of the items, in the order of the request. */
  lemma {:induction false} CarriedReadsBack(d: Dictionary, items: seq<Item>)
    requires Carries(d, items)
    ensures Response(d, items).Ok? && ParseResponse(Response(d, items).value) == ValuesOf(d, items)
  {
    ResponseIsConcat(d, items);
    ValuesAreSmall(d, items);
    var values := ValuesOf(d, items).value;
    ConcatRoundTrip(values);
    ResponseParts(CountHead(|items|), Concat(values), |items|);
  }

  lemma {:induction false} ReadBackIsCarried(d: Dictionary, items: seq<Item>)
    requires Readable(d, items) && |items| < 0x1_0000_0000
    requires Response(d, items).Ok? && ParseResponse(Response(d, items).value) == ValuesOf(d, items)
    ensures Carries(d, items)
  {
    BlocksAreValues(d, items);
    ReadableValues(d, items);
    var values := ValuesOf(d, items).value;
    ResponseParts(CountHead(|items|), Concat(values), |items|);
    ConcatReadsBack(values);
    forall k | 0 <= k < |items| ensures ReadsSmall(d, items[k]) {
      assert Some(values[k]) == ReadBytes(d, items[k]);
    }
  }

  lemma {:induction false} ReadableResponds(d: Dictionary, items: seq<Item>)
    requires Readable(d, items)
    ensures Response(d, items).Ok?
  {
    BlocksAreValues(d, items);
    ReadableValues(d, items);
  }

  /**
   * The response to readable items reads back as their serialised values, in the order of the
   * request, if and only if each of them has fewer than 65536 bytes.
   */
  lemma {:induction false} ResponseRoundTrip(d: Dictionary, items: seq<Item>)
    requires Readable(d, items) && |items| < 0x1_0000_0000
    ensures Response(d, items).Ok?
    ensures ParseResponse(Response(d, items).value) == ValuesOf(d, items) <==> Carries(d, items)
  {
    ReadableResponds(d, items);
    if Carries(d, items) { CarriedReadsBack(d, items); }
    if ParseResponse(Response(d, items).value) == ValuesOf(d, items) { ReadBackIsCarried(d, items); }
  }

  /** The same from the payload of the request, as the format prescribes it, to the values. */
  lemma {:induction false} RequestRoundTrip(d: Dictionary, items: seq<Item>, reserved: u8)
    requires Readable(d, items) && |items| < 0x1_0000_0000
    ensures var r := Reply(d, EncodeItems(items, reserved));
            r.Ok? && (ParseResponse(r.value) == ValuesOf(d, items) <==> Carries(d, items))
  {
    ItemsRoundTrip(items, reserved);
    ResponseRoundTrip(d, items);
  }

  /** A payload that is no list of items is answered by its own abort code, which nothing else is. */
  lemma {:induction false} MalformedAborts(d: Dictionary, payload: seq<u8>)
    ensures Reply(d, payload) == Err(0x0504_0001) <==> |payload| % 4 != 0
  {
    if |payload| % 4 == 0 { ResponseAborts(d, ParseItems(payload)); }
  }

  /** The value read back at a position is the one that the dictionary holds for the item there. */
  lemma {:induction false} ResponseHoldsValue(d: Dictionary, items: seq<Item>, k: nat)
    requires Carries(d, items) && k < |items|
    ensures Response(d, items).Ok? && ParseResponse(Response(d, items).value).Some?
    ensures var read := ParseResponse(Response(d, items).value).value;
            |read| == |items| && Some(read[k]) == ReadBytes(d, items[k])
  {
    CarriedReadsBack(d, items);
    ValuesAreSmall(d, items);
  }

  /** Every response is a multiple of four bytes long, and so is every part of it up to a block. */
  lemma {:induction false} ResponseAligned(d: Dictionary, items: seq<Item>)
    requires Response(d, items).Ok?
    ensures |Response(d, items).value| % 4 == 0
  {
    BlocksAreValues(d, items);
    ConcatAligned(ValuesOf(d, items).value);
    Aligned(4, |Concat(ValuesOf(d, items).value)|);
  }

  lemma ResponseParts(head: seq<u8>, body: seq<u8>, n: nat)
    requires |head| == 4 && FromLe(head) == n
    ensures ParseResponse(head + body) == ParseBlocks(body, n)
  {
    assert (head + body)[..4] == head && (head + body)[4..] == body;
  }

  /** Every block starts on a four-byte boundary. */
  lemma {:induction false} ConcatAligned(values: seq<seq<u8>>)
    ensures |Concat(values)| % 4 == 0
  {
    if values != [] {
      ConcatAligned(values[1..]);
      Aligned(|Block(values[0])|, |Concat(values[1..])|);
    }
  }

  predicate Missing(d: Dictionary, i: Item) { Read(d, i.index, i.sub).None? }

  /** Item k is the first that cannot be read. */
  ghost predicate FirstMissing(d: Dictionary, items: seq<Item>, k: nat) {
    k < |items| && Missing(d, items[k]) && forall j :: 0 <= j < k ==> !Missing(d, items[j])
  }

  lemma {:induction false} BlocksOfReadable(d: Dictionary, items: seq<Item>)
    requires forall k :: 0 <= k < |items| ==> !Missing(d, items[k])
    ensures Blocks(d, items).Ok?
  {
    if items != [] {
      BlocksOfReadable(d, items[..|items| - 1]);
      assert !Missing(d, items[|items| - 1]);
    }
  }

  /** The last item decides only when all in front of it can be read. */
  lemma {:induction false} BlocksOfLast(d: Dictionary, front: seq<Item>, last: Item)
    ensures Blocks(d, front).Err? ==> Blocks(d, front + [last]) == Blocks(d, front)
    ensures Blocks(d, front).Ok? && Missing(d, last) ==> Blocks(d, front + [last]) == Err(AbortCode(d, last))
  {
    assert (front + [last])[..|front|] == front;
  }

  lemma {:induction false} BlocksOfMissing(d: Dictionary, items: seq<Item>, k: nat)
    requires FirstMissing(d, items, k)
    ensures Blocks(d, items) == Err(AbortCode(d, items[k]))
  {
    var m := |items| - 1;
    assert items == items[..m] + [items[m]];
    BlocksOfLast(d, items[..m], items[m]);
    if k < m {
      assert FirstMissing(d, items[..m], k);
      BlocksOfMissing(d, items[..m], k);
    } else {
      BlocksOfReadable(d, items[..m]);
    }
  }

  lemma {:induction false} SomeFirstMissing(d: Dictionary, items: seq<Item>, k: nat) returns (first: nat)
    requires k < |items| && Missing(d, items[k])
    ensures FirstMissing(d, items, first)
  {
    if j :| 0 <= j < k && Missing(d, items[j]) {
      first := SomeFirstMissing(d, items, j);
    } else {
      first := k;
    }
  }

  /**
   * The response is an abort exactly when some item cannot be read; it carries no data and names the first
   * such item.
   */
  lemma {:induction false} ResponseAborts(d: Dictionary, items: seq<Item>)
    ensures Response(d, items).Err? <==> exists k :: 0 <= k < |items| && Missing(d, items[k])
    ensures Response(d, items).Err? ==>
              exists k: nat :: FirstMissing(d, items, k)
                && Response(d, items) == Err(if items[k].index in d then 0x0609_0011 else 0x0602_0000)
  {
    if k :| 0 <= k < |items| && Missing(d, items[k]) {
      var first := SomeFirstMissing(d, items, k);
      BlocksOfMissing(d, items, first);
    } else {
      BlocksOfReadable(d, items);
    }
  }
}
