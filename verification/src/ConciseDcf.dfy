/**
 * The Concise DCF stream (EPSG DS 301, section 6.7.2.2, Table 102): an entry count followed by
 * index, sub-index, size and data of each entry, all little-endian
 * (crates/powerlink-rs/src/sdo/client_connection.rs:317-373).
 */
module ConciseDcf {
  import opened Wrappers
  import opened Bytes

  datatype Entry = Entry(index: u16, sub: u8, data: seq<u8>)

  /** The buffer that a WriteByIndex transfer sends for an entry. */
  function WritePayload(e: Entry): (r: seq<u8>)
    ensures |r| == 4 + |e.data|
  {
    Le(e.index, 2) + [e.sub] + [0] + e.data
  }

  /** A reader of such a buffer, from its format: index, sub-index, a reserved zero and the data. */
  function ReadPayload(p: seq<u8>): Option<Entry> {
    SpanValues();
    if |p| < 4 || p[3] != 0 then None else Some(Entry(FromLe(p[..2]), p[2], p[4..]))
  }

  lemma {:induction false} PayloadReads(e: Entry)
    ensures ReadPayload(WritePayload(e)) == Some(e)
  {
    SpanValues();
    var p := WritePayload(e);
    FromLeOfLe(e.index, 2);
    assert p[..2] == Le(e.index, 2) && p[4..] == e.data;
  }

  /** The entry at an offset and the offset behind it, as the client parses it. */
  function ParseEntry(data: seq<u8>, offset: nat): (r: Option<(Entry, nat)>)
    ensures r.Some? ==> offset + 7 <= r.value.1 <= |data|
  {
    SpanValues();
    if offset + 7 > |data| then None
    else
      var index: u16 := FromLe(data[offset..offset + 2]);
      var size: u32 := FromLe(data[offset + 3..offset + 7]);
      if offset + 7 + size > |data| then None
      else Some((Entry(index, data[offset + 2], data[offset + 7..offset + 7 + size]), offset + 7 + size))
  }

  /** The entry count in front of the stream. */
  function EntryCount(data: seq<u8>): u32
    requires |data| >= 4
  {
    SpanValues();
    FromLe(data[..4])
  }

  /** All entries that repeated parsing yields. */
  function ParseAll(data: seq<u8>, offset: nat, remaining: nat): (r: seq<Entry>)
    ensures |r| <= remaining
    decreases remaining
  {
    if remaining == 0 then []
    else
      match ParseEntry(data, offset)
      case None => []
      case Some((e, next)) => [e] + ParseAll(data, next, remaining - 1)
  }

  /** The encoder side, written from the format table alone. */
  predicate Encodable(e: Entry) { |e.data| < 0x1_0000_0000 }

  function Encode(e: Entry): seq<u8> {
    Le(e.index, 2) + [e.sub] + Le(|e.data|, 4) + e.data
  }

  function EncodeAll(es: seq<Entry>): seq<u8> {
    if es == [] then [] else Encode(es[0]) + EncodeAll(es[1..])
  }

  function EncodeFile(es: seq<Entry>): seq<u8> {
    Le(|es|, 4) + EncodeAll(es)
  }

  /** An encoded entry parses back wherever it stands in the stream. */
  lemma ParseEncoded(data: seq<u8>, offset: nat, e: Entry, tail: seq<u8>)
    requires Encodable(e) && offset <= |data| && data[offset..] == Encode(e) + tail
    ensures ParseEntry(data, offset) == Some((e, offset + |Encode(e)|))
    ensures data[offset + |Encode(e)|..] == tail
  {
    SpanValues();
    var s := data[offset..];
    assert |Encode(e)| == 7 + |e.data|;
    assert data[offset..offset + 2] == s[..2] == Le(e.index, 2);
    assert data[offset + 3..offset + 7] == s[3..7] == Le(|e.data|, 4);
    FromLeOfLe(e.index, 2);
    FromLeOfLe(|e.data|, 4);
    assert data[offset + 2] == s[2] == e.sub;
    assert data[offset + 7..offset + 7 + |e.data|] == s[7..7 + |e.data|] == e.data;
    assert data[offset + |Encode(e)|..] == s[|Encode(e)|..];
  }

  /** What the parser reads is the encoding of what it returns. */
  lemma ParsedIsEncoded(data: seq<u8>, offset: nat)
    requires ParseEntry(data, offset).Some?
    ensures var (e, next) := ParseEntry(data, offset).value;
            Encodable(e) && data[offset..next] == Encode(e)
  {
    SpanValues();
    var (e, next) := ParseEntry(data, offset).value;
    LeOfFromLe(data[offset..offset + 2]);
    LeOfFromLe(data[offset + 3..offset + 7]);
    assert |e.data| == FromLe(data[offset + 3..offset + 7]);
    assert data[offset..next]
           == data[offset..offset + 2] + [data[offset + 2]] + data[offset + 3..offset + 7] + data[offset + 7..next];
  }

  ghost predicate AllEncodable(es: seq<Entry>) { forall k :: 0 <= k < |es| ==> Encodable(es[k]) }

  lemma Associative(a: seq<u8>, b: seq<u8>, c: seq<u8>)
    ensures a + b + c == a + (b + c)
  {}

  lemma {:induction false} ParseAllOfEncoded(data: seq<u8>, offset: nat, es: seq<Entry>, tail: seq<u8>)
    requires AllEncodable(es) && offset <= |data| && data[offset..] == EncodeAll(es) + tail
    ensures ParseAll(data, offset, |es|) == es
    decreases |es|
  {
    if es != [] {
      var code := Encode(es[0]);
      FirstEncoded(es, tail);
      ParseEncoded(data, offset, es[0], EncodeAll(es[1..]) + tail);
      ParseAllOfEncoded(data, offset + |code|, es[1..], tail);
      ParseAllCons(data, offset, |es|, es[0], offset + |code|);
      assert [es[0]] + es[1..] == es;
    }
  }

  lemma {:induction false} ParseAllCons(data: seq<u8>, offset: nat, count: nat, e: Entry, next: nat)
    requires count > 0 && ParseEntry(data, offset) == Some((e, next))
    ensures ParseAll(data, offset, count) == [e] + ParseAll(data, next, count - 1)
  {}

  lemma {:induction false} FirstEncoded(es: seq<Entry>, tail: seq<u8>)
    requires es != [] && AllEncodable(es)
    ensures Encodable(es[0]) && AllEncodable(es[1..])
    ensures EncodeAll(es) + tail == Encode(es[0]) + (EncodeAll(es[1..]) + tail)
  {
    Associative(Encode(es[0]), EncodeAll(es[1..]), tail);
  }

  /** A counted list: the count in n bytes, then the entries, then anything. */
  lemma CountedList(count: nat, n: nat, body: seq<u8>, es: seq<Entry>, tail: seq<u8>)
    requires count < Span(n) && count == |es| && AllEncodable(es)
    requires body == EncodeAll(es)
    ensures var file := Le(count, n) + body + tail;
            FromLe(file[..n]) == count && ParseAll(file, n, count) == es
  {
    var file := Le(count, n) + body + tail;
    assert file == Le(count, n) + (body + tail);
    LePrefix(count, n, body + tail);
    ParseAllOfEncoded(file, n, es, tail);
  }

  /** The parser inverts the encoder, also when more bytes follow the last entry. */
  lemma ParserInvertsEncoder(es: seq<Entry>, tail: seq<u8>)
    requires AllEncodable(es) && |es| < 0x1_0000_0000
    ensures var file := EncodeFile(es) + tail;
            EntryCount(file) == |es| && ParseAll(file, 4, EntryCount(file)) == es
  {
    assert Span(4) == 0x1_0000_0000 by { SpanValues(); }
    CountedList(|es|, 4, EncodeAll(es), es, tail);
  }

  /** An entry in front of a list is in front of its encoding. */
  lemma EncodeAllCons(e0: Entry, rest: seq<Entry>)
    ensures EncodeAll([e0] + rest) == Encode(e0) + EncodeAll(rest)
  {
    assert ([e0] + rest)[1..] == rest;
  }

  lemma PrefixAfter(a: seq<u8>, b: seq<u8>, c: seq<u8>)
    ensures a + b <= a + c <==> b <= c
  {
    if a + b <= a + c {
      assert b == (a + b)[|a|..] && c == (a + c)[|a|..];
    }
  }

  ghost predicate NoneFollows(data: seq<u8>, offset: nat, es: seq<Entry>)
    requires offset <= |data|
  {
    forall e :: Encodable(e) ==> !(EncodeAll(es + [e]) <= data[offset..])
  }

  lemma NoEntryAtAll(data: seq<u8>, offset: nat)
    requires offset <= |data| && ParseEntry(data, offset) == None
    ensures NoneFollows(data, offset, [])
  {
    forall e | Encodable(e) ensures !(EncodeAll([] + [e]) <= data[offset..]) {
      assert [] + [e] == [e] + [];
      EncodeAllCons(e, []);
      assert EncodeAll([] + [e]) == Encode(e);
      if Encode(e) <= data[offset..] {
        var tail := data[offset..][|Encode(e)|..];
        assert data[offset..] == Encode(e) + tail;
        ParseEncoded(data, offset, e, tail);
      }
    }
  }

  /** es is the longest list, of at most limit entries, that is encoded at an offset. */
  ghost predicate LongestPrefix(data: seq<u8>, offset: nat, limit: nat, es: seq<Entry>)
    requires offset <= |data|
  {
    && AllEncodable(es)
    && |es| <= limit
    && EncodeAll(es) <= data[offset..]
    && (|es| < limit ==> NoneFollows(data, offset, es))
  }

  lemma LongestPrefixCons(data: seq<u8>, offset: nat, limit: nat, e0: Entry, next: nat, rest: seq<Entry>)
    requires offset <= |data| && next <= |data| && data[offset..] == Encode(e0) + data[next..]
    requires Encodable(e0) && limit > 0 && LongestPrefix(data, next, limit - 1, rest)
    ensures LongestPrefix(data, offset, limit, [e0] + rest)
  {
    EncodeAllCons(e0, rest);
    PrefixAfter(Encode(e0), EncodeAll(rest), data[next..]);
    if |rest| < limit - 1 {
      forall e | Encodable(e) ensures !(EncodeAll(([e0] + rest) + [e]) <= data[offset..]) {
        assert ([e0] + rest) + [e] == [e0] + (rest + [e]);
        EncodeAllCons(e0, rest + [e]);
        PrefixAfter(Encode(e0), EncodeAll(rest + [e]), data[next..]);
      }
    }
  }

  /**
   * On arbitrary bytes the parser yields exactly the longest well-formed prefix: what it
   * returns is encoded in front, and no further entry can be read off after it.
   */
  lemma {:induction false} ParserIsMaximal(data: seq<u8>, offset: nat, limit: nat)
    requires offset <= |data|
    ensures LongestPrefix(data, offset, limit, ParseAll(data, offset, limit))
    decreases limit
  {
    if limit == 0 {
    } else if ParseEntry(data, offset) == None {
      NoEntryAtAll(data, offset);
    } else {
      var (e0, next) := ParseEntry(data, offset).value;
      ParserIsMaximal(data, next, limit - 1);
      ParsedIsEncoded(data, offset);
      assert data[offset..] == data[offset..next] + data[next..];
      LongestPrefixCons(data, offset, limit, e0, next, ParseAll(data, next, limit - 1));
    }
  }
}
