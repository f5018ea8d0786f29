/** The byte strings that Rust's `String::from_utf8` accepts. */
module Utf8 {
  import opened Bytes

  predicate Continuation(b: u8) { 0x80 <= b < 0xC0 }

  /** Length of the well-formed character at the front of s, or 0 if there is none. */
  function CharLength(s: seq<u8>): (n: nat)
    ensures n <= |s|
  {
    if |s| >= 1 && s[0] < 0x80 then 1
    else if |s| >= 2 && 0xC2 <= s[0] <= 0xDF && Continuation(s[1]) then 2
    else if |s| >= 3 && 0xE0 <= s[0] <= 0xEF && ThreeByteSecond(s[0], s[1]) && Continuation(s[2]) then 3
    else if |s| >= 4 && 0xF0 <= s[0] <= 0xF4 && FourByteSecond(s[0], s[1])
            && Continuation(s[2]) && Continuation(s[3]) then 4
    else 0
  }

  predicate ThreeByteSecond(first: u8, second: u8) {
    if first == 0xE0 then 0xA0 <= second < 0xC0
    else if first == 0xED then 0x80 <= second < 0xA0
    else Continuation(second)
  }

  predicate FourByteSecond(first: u8, second: u8) {
    if first == 0xF0 then 0x90 <= second < 0xC0
    else if first == 0xF4 then 0x80 <= second < 0x90
    else Continuation(second)
  }

  predicate Valid(s: seq<u8>) {
    s == [] || (CharLength(s) > 0 && Valid(s[CharLength(s)..]))
  }

  // ---- The characters behind the bytes ----

  /** A Unicode scalar value: a code point that is no surrogate. */
  predicate IsScalar(c: nat) { c < 0xD800 || 0xE000 <= c <= 0x10FFFF }

  /** The shortest form of a scalar value (RFC 3629, section 3). */
  function EncodeScalar(c: nat): (s: seq<u8>)
    requires IsScalar(c)
    ensures 1 <= |s| <= 4
  {
    if c < 0x80 then [c]
    else if c < 0x800 then [0xC0 + c / 0x40, 0x80 + c % 0x40]
    else if c < 0x1_0000 then [0xE0 + c / 0x1000, 0x80 + c / 0x40 % 0x40, 0x80 + c % 0x40]
    else [0xF0 + c / 0x4_0000, 0x80 + c / 0x1000 % 0x40, 0x80 + c / 0x40 % 0x40, 0x80 + c % 0x40]
  }

  predicate AreScalars(cs: seq<nat>) { forall k :: 0 <= k < |cs| ==> IsScalar(cs[k]) }

  function EncodeScalars(cs: seq<nat>): seq<u8>
    requires AreScalars(cs)
  {
    if cs == [] then [] else EncodeScalar(cs[0]) + EncodeScalars(cs[1..])
  }

  /** The scalar value that stands in front. */
  function FirstScalar(s: seq<u8>): nat
    requires CharLength(s) > 0
  {
    match CharLength(s)
    case 1 => s[0]
    case 2 => Joined(s[0] - 0xC0, s[1] - 0x80)
    case 3 => Joined(Joined(s[0] - 0xE0, s[1] - 0x80), s[2] - 0x80)
    case _ => Joined(Joined(Joined(s[0] - 0xF0, s[1] - 0x80), s[2] - 0x80), s[3] - 0x80)
  }

  /** Six more bits. */
  function Joined(a: nat, b: nat): nat { a * 0x40 + b }

  lemma {:induction false} EncodedIsLong(c: nat, tail: seq<u8>)
    requires IsScalar(c)
    ensures CharLength(EncodeScalar(c) + tail) == |EncodeScalar(c)|
  {
    var s := EncodeScalar(c) + tail;
    if c >= 0x80 { assert s[0] == EncodeScalar(c)[0] && s[1] == EncodeScalar(c)[1]; }
    if c >= 0x800 { assert s[2] == EncodeScalar(c)[2]; }
    if c >= 0x1_0000 { assert s[3] == EncodeScalar(c)[3]; }
  }

  lemma {:induction false} FirstIsEncoded(s: seq<u8>)
    requires CharLength(s) > 0
    ensures IsScalar(FirstScalar(s)) && EncodeScalar(FirstScalar(s)) == s[..CharLength(s)]
  {
    match CharLength(s) {
      case 1 => assert s[..1] == [s[0]];
      case 2 => FirstOfTwo(s);
      case 3 => FirstOfThree(s);
      case _ => FirstOfFour(s);
    }
  }

  lemma {:induction false} FirstOfTwo(s: seq<u8>)
    requires CharLength(s) == 2
    ensures IsScalar(FirstScalar(s)) && EncodeScalar(FirstScalar(s)) == s[..2]
  {
    TwoDigits(s[0] - 0xC0, s[1] - 0x80);
    assert s[..2] == [s[0], s[1]];
  }

  lemma {:induction false} FirstOfThree(s: seq<u8>)
    requires CharLength(s) == 3
    ensures IsScalar(FirstScalar(s)) && EncodeScalar(FirstScalar(s)) == s[..3]
  {
    ThreeDigits(s[0] - 0xE0, s[1] - 0x80, s[2] - 0x80);
    assert s[..3] == [s[0], s[1], s[2]];
  }

  lemma {:induction false} FirstOfFour(s: seq<u8>)
    requires CharLength(s) == 4
    ensures IsScalar(FirstScalar(s)) && EncodeScalar(FirstScalar(s)) == s[..4]
  {
    FourDigits(s[0] - 0xF0, s[1] - 0x80, s[2] - 0x80, s[3] - 0x80);
    assert s[..4] == [s[0], s[1], s[2], s[3]];
  }

  lemma TwoDigits(a: nat, b: nat)
    requires b < 0x40
    ensures Joined(a, b) / 0x40 == a && Joined(a, b) % 0x40 == b
  {}

  lemma ThreeDigits(a: nat, b: nat, c: nat)
    requires b < 0x40 && c < 0x40
    ensures var n := Joined(Joined(a, b), c); n / 0x1000 == a && n / 0x40 % 0x40 == b && n % 0x40 == c
  {
    TwoDigits(Joined(a, b), c);
    TwoDigits(a, b);
  }

  lemma FourDigits(a: nat, b: nat, c: nat, d: nat)
    requires b < 0x40 && c < 0x40 && d < 0x40
    ensures var n := Joined(Joined(Joined(a, b), c), d);
            n / 0x4_0000 == a && n / 0x1000 % 0x40 == b && n / 0x40 % 0x40 == c && n % 0x40 == d
  {
    ThreeDigits(Joined(a, b), c, d);
    TwoDigits(a, b);
  }

  lemma {:induction false} EncodedIsValid(cs: seq<nat>)
    requires AreScalars(cs)
    ensures Valid(EncodeScalars(cs))
  {
    if cs != [] {
      EncodedIsValid(cs[1..]);
      EncodedIsLong(cs[0], EncodeScalars(cs[1..]));
      var s := EncodeScalars(cs);
      assert s[|EncodeScalar(cs[0])|..] == EncodeScalars(cs[1..]);
    }
  }

  /** The scalar values of a valid string. */
  lemma {:induction false} ValidIsEncoded(s: seq<u8>) returns (cs: seq<nat>)
    requires Valid(s)
    ensures AreScalars(cs) && EncodeScalars(cs) == s
  {
    if s == [] {
      cs := [];
    } else {
      FirstIsEncoded(s);
      var rest := ValidIsEncoded(s[CharLength(s)..]);
      cs := [FirstScalar(s)] + rest;
      assert cs[1..] == rest && s == s[..CharLength(s)] + s[CharLength(s)..];
    }
  }

  /** A byte string is valid if and only if it is the shortest form of some scalar values. */
  lemma {:induction false} ValidExactly(s: seq<u8>)
    ensures Valid(s) <==> exists cs :: AreScalars(cs) && EncodeScalars(cs) == s
  {
    if Valid(s) { var cs := ValidIsEncoded(s); }
    if cs :| AreScalars(cs) && EncodeScalars(cs) == s { EncodedIsValid(cs); }
  }
}
