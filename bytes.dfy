/**
 * Raw byte helpers shared by both protocol layers: bytes, Bluetooth device
 * addresses and the little-endian integer encodings of the wire formats
 * (the Bluetooth byte order used by htobs/btohs and btohl).
 */
module Bytes {

  /** uint8_t, as its value. The one bitwise operation on bytes, ^, is Xor. */
  type Byte = b: int | 0 <= b < 0x100

  /** uint16_t, as its value. */
  type Word = w: int | 0 <= w < 0x1_0000

  /** bdaddr_t: a 6-byte Bluetooth device address. */
  type Mac = m: seq<Byte> | |m| == 6 witness [0, 0, 0, 0, 0, 0]

  const ZeroMac: Mac := [0, 0, 0, 0, 0, 0]

  function Pow2(n: nat): (r: nat)
    ensures r >= 1
  {
    if n == 0 then 1 else 2 * Pow2(n - 1)
  }

  /** The low `n` bits of a ^ b, built from the lowest bit up. */
  function XorLow(a: nat, b: nat, n: nat): (r: nat)
    ensures r < Pow2(n)
  {
    if n == 0 then 0 else 2 * XorLow(a / 2, b / 2, n - 1) + (if a % 2 == b % 2 then 0 else 1)
  }

  /** a ^ b on two bytes. */
  function Xor(a: Byte, b: Byte): Byte
  {
    assert Pow2(8) == 0x100;
    XorLow(a, b, 8)
  }

  lemma {:induction false} XorLowCommutes(a: nat, b: nat, n: nat)
    ensures XorLow(a, b, n) == XorLow(b, a, n)
  {
    if n > 0 {
      XorLowCommutes(a / 2, b / 2, n - 1);
    }
  }

  /** x ^ 0 == x. */
  lemma {:induction false} XorLowZero(a: nat, n: nat)
    requires a < Pow2(n)
    ensures XorLow(a, 0, n) == a
  {
    if n > 0 {
      XorLowZero(a / 2, n - 1);
    }
  }

  /** For a fixed b, a ^ b determines a among the values below 2^n. */
  lemma {:induction false} XorLowInjective(a: nat, v: nat, b: nat, n: nat)
    requires a < Pow2(n) && v < Pow2(n) && XorLow(a, b, n) == XorLow(v, b, n)
    ensures a == v
  {
    if n > 0 {
      assert a % 2 == v % 2;
      assert a / 2 < Pow2(n - 1) && v / 2 < Pow2(n - 1);
      XorLowInjective(a / 2, v / 2, b / 2, n - 1);
    }
  }

  /** Changing the left operand of a byte XOR changes the result. */
  lemma XorLeftChanges(a: Byte, v: Byte, b: Byte)
    requires a != v
    ensures Xor(a, b) != Xor(v, b)
  {
    assert Pow2(8) == 0x100;
    if Xor(a, b) == Xor(v, b) {
      XorLowInjective(a, v, b, 8);
    }
  }

  /** Changing the right operand of a byte XOR changes the result. */
  lemma XorRightChanges(a: Byte, b: Byte, w: Byte)
    requires b != w
    ensures Xor(a, b) != Xor(a, w)
  {
    XorLowCommutes(a, b, 8);
    XorLowCommutes(a, w, 8);
    XorLeftChanges(b, w, a);
  }

  /** A 16-bit value as two bytes, low byte first. */
  function Le16(v: Word): (r: seq<Byte>)
    ensures |r| == 2
  {
    [v % 0x100, v / 0x100]
  }

  /** The 16-bit value of two bytes, low byte first. */
  function FromLe16(lo: Byte, hi: Byte): Word
  {
    lo + 0x100 * hi
  }

  lemma Le16RoundTrip(v: Word)
    ensures FromLe16(Le16(v)[0], Le16(v)[1]) == v
  {
  }

  lemma FromLe16RoundTrip(lo: Byte, hi: Byte)
    ensures Le16(FromLe16(lo, hi)) == [lo, hi]
  {
  }

  /** The unsigned value of four bytes, low byte first (btohl on a uint32_t). */
  function U32(s: seq<Byte>, at: nat): (r: nat)
    requires at + 4 <= |s|
    ensures r < 0x1_0000_0000
  {
    s[at] as int + 0x100 * (s[at + 1] as int + 0x100 * (s[at + 2] as int + 0x100 * s[at + 3] as int))
  }

  /** The two's-complement value of four bytes, low byte first (btohl on an int32_t). */
  function I32(s: seq<Byte>, at: nat): (r: int)
    requires at + 4 <= |s|
    ensures -0x8000_0000 <= r < 0x8000_0000
    ensures r >= 0 ==> r == U32(s, at)
  {
    var u := U32(s, at);
    if u < 0x8000_0000 then u else u - 0x1_0000_0000
  }

  /** A 32-bit unsigned value as four bytes, low byte first (htobl). */
  function Le32(v: nat): (r: seq<Byte>)
    requires v < 0x1_0000_0000
    ensures |r| == 4
  {
    [v % 0x100, v / 0x100 % 0x100, v / 0x1_0000 % 0x100, v / 0x100_0000]
  }

  /**
   * `s` with `bytes` copied over it from offset `at` (memcpy into a buffer);
   * every other position keeps its byte.
   */
  function Put(s: seq<Byte>, at: nat, bytes: seq<Byte>): (r: seq<Byte>)
    requires at + |bytes| <= |s|
    ensures |r| == |s|
  {
    seq(|s|, k requires 0 <= k < |s| => if at <= k < at + |bytes| then bytes[k - at] else s[k])
  }

  lemma PutAt(s: seq<Byte>, at: nat, bytes: seq<Byte>, k: nat)
    requires at + |bytes| <= |s| && k < |s|
    ensures Put(s, at, bytes)[k] == if at <= k < at + |bytes| then bytes[k - at] else s[k]
  {
  }

  lemma PutSlice(s: seq<Byte>, at: nat, bytes: seq<Byte>)
    requires at + |bytes| <= |s|
    ensures Put(s, at, bytes)[at..at + |bytes|] == bytes
    ensures Put(s, at, bytes)[..at] == s[..at]
    ensures Put(s, at, bytes)[at + |bytes|..] == s[at + |bytes|..]
  {
  }

  /** A string that agrees with `bytes` on [at, at + |bytes|) and with `s` elsewhere is Put(s, at, bytes). */
  lemma PutFromParts(s: seq<Byte>, at: nat, bytes: seq<Byte>, t: seq<Byte>)
    requires at + |bytes| <= |s| == |t|
    requires t[..at] == s[..at] && t[at..at + |bytes|] == bytes && t[at + |bytes|..] == s[at + |bytes|..]
    ensures t == Put(s, at, bytes)
  {
    forall k | 0 <= k < |t|
      ensures t[k] == Put(s, at, bytes)[k]
    {
      if k < at {
        assert t[k] == t[..at][k];
      } else if k < at + |bytes| {
        assert t[k] == t[at..at + |bytes|][k - at];
      } else {
        assert t[k] == t[at + |bytes|..][k - at - |bytes|];
      }
    }
  }

  /** Writing inside the first `n` bytes leaves the bytes from `n` on alone. */
  lemma PutPrefix(s: seq<Byte>, at: nat, bytes: seq<Byte>, n: nat)
    requires at + |bytes| <= n <= |s|
    ensures Put(s, at, bytes)[..n] == Put(s[..n], at, bytes)
    ensures Put(s, at, bytes)[n..] == s[n..]
  {
  }

  /** The concatenation of a sequence of byte strings. */
  function Concat(parts: seq<seq<Byte>>): (r: seq<Byte>)
  {
    if parts == [] then [] else parts[0] + Concat(parts[1..])
  }

  lemma {:induction false} ConcatAppend(a: seq<seq<Byte>>, b: seq<seq<Byte>>)
    ensures Concat(a + b) == Concat(a) + Concat(b)
  {
    if a == [] {
      assert a + b == b;
    } else {
      assert (a + b)[1..] == a[1..] + b;
      ConcatAppend(a[1..], b);
    }
  }

  /** An in-place rewrite of `orig` into `now`: a prefix and a suffix kept, `out` written in between. */
  lemma InPlace(orig: seq<Byte>, now: seq<Byte>, from: nat, out: seq<Byte>)
    requires |now| == |orig| && from + |out| <= |now|
    requires forall k :: 0 <= k < from ==> now[k] == orig[k]
    requires forall k :: from + |out| <= k < |now| ==> now[k] == orig[k]
    requires forall k :: 0 <= k < |out| ==> now[from + k] == out[k]
    ensures now[..from] == orig[..from]
    ensures now[from..from + |out|] == out
    ensures now[from + |out|..] == orig[from + |out|..]
  {
  }
}
