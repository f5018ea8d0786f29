/** Fixed-width integers and their little-endian encodings. */
module Bytes {
  import opened Wrappers

  type u8 = x: int | 0 <= x < 0x100
  type u16 = x: int | 0 <= x < 0x1_0000
  type u32 = x: int | 0 <= x < 0x1_0000_0000
  type u64 = x: int | 0 <= x < 0x1_0000_0000_0000_0000
  type i8 = x: int | -0x80 <= x < 0x80
  type i16 = x: int | -0x8000 <= x < 0x8000
  type i32 = x: int | -0x8000_0000 <= x < 0x8000_0000
  type i64 = x: int | -0x8000_0000_0000_0000 <= x < 0x8000_0000_0000_0000

  /** How many values n bytes can hold. */
  function Span(n: nat): (r: nat)
    ensures r >= 1
  {
    if n == 0 then 1 else 0x100 * Span(n - 1)
  }

  lemma SpanValues()
    ensures Span(1) == 0x100 && Span(2) == 0x1_0000 && Span(4) == 0x1_0000_0000
    ensures Span(8) == 0x1_0000_0000_0000_0000
  {
    assert Span(1) == 0x100 * Span(0);
    assert Span(2) == 0x100 * Span(1);
    assert Span(3) == 0x100 * Span(2);
    assert Span(4) == 0x100 * Span(3);
    assert Span(5) == 0x100 * Span(4);
    assert Span(6) == 0x100 * Span(5);
    assert Span(7) == 0x100 * Span(6);
    assert Span(8) == 0x100 * Span(7);
  }

  /** The n low bytes of v, least significant first. */
  function Le(v: nat, n: nat): (r: seq<u8>)
    ensures |r| == n
    decreases n, v
  {
    if n == 0 then [] else [v % 0x100] + Le(v / 0x100, n - 1)
  }

  function FromLe(s: seq<u8>): (r: nat)
    ensures r < Span(|s|)
  {
    if s == [] then 0 else s[0] + 0x100 * FromLe(s[1..])
  }

  lemma {:induction false} FromLeOfLe(v: nat, n: nat)
    requires v < Span(n)
    ensures FromLe(Le(v, n)) == v
  {
    if n != 0 {
      assert v / 0x100 < Span(n - 1);
      FromLeOfLe(v / 0x100, n - 1);
      assert Le(v, n)[1..] == Le(v / 0x100, n - 1);
    }
  }

  lemma {:induction false} LeOfFromLe(s: seq<u8>)
    ensures Le(FromLe(s), |s|) == s
  {
    if s != [] {
      LeOfFromLe(s[1..]);
      assert FromLe(s) % 0x100 == s[0] && FromLe(s) / 0x100 == FromLe(s[1..]);
      assert s == [s[0]] + s[1..];
    }
  }

  /** Two and four bytes are a number with the least significant byte first. */
  lemma {:induction false} LittleEndian(s: seq<u8>)
    ensures |s| == 2 ==> FromLe(s) == s[0] as int + 0x100 * (s[1] as int)
    ensures |s| == 4 ==>
            FromLe(s) == s[0] as int + 0x100 * (s[1] as int) + 0x1_0000 * (s[2] as int) + 0x100_0000 * (s[3] as int)
  {
    if |s| == 2 { TwoBytes(s); }
    if |s| == 4 {
      assert s[1..][1..] == s[2..];
      TwoBytes(s[2..]);
      assert FromLe(s) == s[0] as int + 0x100 * FromLe(s[1..])
             && FromLe(s[1..]) == s[1] as int + 0x100 * FromLe(s[2..]);
    }
  }

  lemma {:induction false} TwoBytes(s: seq<u8>)
    requires |s| == 2
    ensures FromLe(s) == s[0] as int + 0x100 * (s[1] as int)
  {
    assert FromLe(s[1..]) == s[1] as int + 0x100 * FromLe(s[1..][1..]) && s[1..][1..] == [];
  }

  /** A number in two parts. */
  lemma {:induction false} FromLeConcat(a: seq<u8>, b: seq<u8>)
    ensures FromLe(a + b) == FromLe(a) + Span(|a|) * FromLe(b)
  {
    if a == [] {
      assert a + b == b;
    } else {
      assert (a + b)[1..] == a[1..] + b && (a + b)[0] == a[0];
      FromLeConcat(a[1..], b);
      Distribute(FromLe(a[1..]), Span(|a| - 1), FromLe(b));
    }
  }

  lemma Distribute(x: nat, y: nat, z: nat)
    ensures 0x100 * (x + y * z) == 0x100 * x + (0x100 * y) * z
  {}

  lemma LePrefix(v: nat, n: nat, tail: seq<u8>)
    requires v < Span(n)
    ensures FromLe((Le(v, n) + tail)[..n]) == v && (Le(v, n) + tail)[n..] == tail
  {
    FromLeOfLe(v, n);
    assert (Le(v, n) + tail)[..n] == Le(v, n);
  }

  /** Half of the span: the bound of signed values of n bytes. */
  function Half(n: nat): (r: int)
    requires n > 0
    ensures r > 0 && 2 * r == Span(n)
  {
    0x80 * Span(n - 1)
  }

  lemma HalfValues()
    ensures Half(1) == 0x80 && Half(2) == 0x8000 && Half(4) == 0x8000_0000 && Half(8) == 0x8000_0000_0000_0000
  {
    SpanValues();
  }

  /** Two's complement: the unsigned n-byte pattern of a signed value, and back. */
  function ToPattern(v: int, n: nat): (r: nat)
    requires n > 0 && -Half(n) <= v < Half(n)
    ensures r < Span(n)
  {
    if v < 0 then v + Span(n) else v
  }

  function FromPattern(p: nat, n: nat): (r: int)
    requires n > 0 && p < Span(n)
    ensures -Half(n) <= r < Half(n)
    ensures ToPattern(r, n) == p
  {
    if p < Half(n) then p else p - Span(n)
  }

  /** Bitwise or of two naturals. */
  function BitOr(a: nat, b: nat): nat {
    if a == 0 && b == 0 then 0
    else 2 * BitOr(a / 2, b / 2) + (if a % 2 == 1 || b % 2 == 1 then 1 else 0)
  }

  /** Bit k of a natural. */
  predicate Bit(a: nat, k: nat) {
    if k == 0 then a % 2 == 1 else Bit(a / 2, k - 1)
  }

  function Pow2(k: nat): (r: nat)
    ensures r >= 1
  {
    if k == 0 then 1 else 2 * Pow2(k - 1)
  }

  /** Or-ing has exactly the bits of either operand. */
  lemma {:induction false} BitOrBits(a: nat, b: nat, k: nat)
    ensures Bit(BitOr(a, b), k) == (Bit(a, k) || Bit(b, k))
    decreases k
  {
    if a == 0 && b == 0 {
    } else if k > 0 {
      BitOrBits(a / 2, b / 2, k - 1);
    }
  }

  lemma {:induction false} BitOfPow2(k: nat, j: nat)
    ensures Bit(Pow2(k), j) == (j == k)
  {
    if k == 0 {
      if j > 0 { NoBitsInZero(j - 1); }
    } else if j > 0 {
      BitOfPow2(k - 1, j - 1);
    }
  }

  lemma {:induction false} NoBitsInZero(k: nat)
    ensures !Bit(0, k)
  {
    if k > 0 { NoBitsInZero(k - 1); }
  }

  /** Or-ing two n-bit numbers gives an n-bit number. */
  lemma {:induction false} BitOrBound(a: nat, b: nat, n: nat)
    requires a < Pow2(n) && b < Pow2(n)
    ensures BitOr(a, b) < Pow2(n)
  {
    if n > 0 && (a != 0 || b != 0) { BitOrBound(a / 2, b / 2, n - 1); }
  }

  lemma {:induction false} BitOrZero(a: nat)
    ensures BitOr(a, 0) == a
  {
    if a != 0 { BitOrZero(a / 2); }
  }

  /** Or-ing a bit field into cleared low bits is addition. */
  lemma {:induction false} BitOrDisjoint(high: nat, low: nat, n: nat)
    requires low < Pow2(n)
    ensures BitOr(high * Pow2(n), low) == high * Pow2(n) + low
  {
    if n == 0 {
      BitOrZero(high);
    } else {
      BitOrDisjoint(high, low / 2, n - 1);
      TimesDouble(high, Pow2(n - 1));
      BitOrEven(high * Pow2(n - 1), low);
    }
  }

  lemma TimesDouble(a: nat, b: nat)
    ensures a * (2 * b) == 2 * (a * b)
  {}

  lemma BitOrEven(q: nat, low: nat)
    ensures BitOr(2 * q, low) == 2 * BitOr(q, low / 2) + low % 2
  {
    if q == 0 && low == 0 {
      assert BitOr(0, 0) == 0;
    } else {
      assert (2 * q) / 2 == q && (2 * q) % 2 == 0;
    }
  }

  lemma OrTwoBits(high: nat, bits: nat)
    requires bits < 4
    ensures BitOr(high * 4, bits) == high * 4 + bits
  {
    assert Pow2(1) == 2 * Pow2(0) && Pow2(2) == 2 * Pow2(1);
    BitOrDisjoint(high, bits, 2);
  }

  function Zeros(n: nat): (r: seq<u8>)
    ensures |r| == n && forall k :: 0 <= k < n ==> r[k] == 0
  {
    seq(n, _ => 0)
  }

  /** The padding of Rust's `Vec::resize(n, 0)` on a vector that is not longer than n. */
  function PadTo(s: seq<u8>, n: nat): (r: seq<u8>)
    requires |s| <= n
    ensures |r| == n && s <= r
  {
    s + Zeros(n - |s|)
  }

  /** Rust's `s[lo..hi]`, which stops the program when it is out of range. */
  function Slice(s: seq<u8>, lo: nat, hi: nat): Option<seq<u8>> {
    if lo <= hi <= |s| then Some(s[lo..hi]) else None
  }
}
