/**
 * The PPP-style framing of L2 packets described in RFC 1662 ("PPP in
 * HDLC-like Framing"): byte stuffing with the control-escape byte 0x7D
 * (section 4.2) and the 16-bit frame check sequence of its Appendix C.
 * These are the specifications the loops of L2Packet are proved against.
 */
module Ppp {
  import opened Bytes

  /** The control-escape byte. */
  const ControlEscape: Byte := 0x7d

  /** The bytes EscapeData stuffs: control escape, flag, XON, 0x12 and XOFF. */
  predicate IsControl(c: Byte)
  {
    c == 0x7d || c == 0x7e || c == 0x11 || c == 0x12 || c == 0x13
  }

  /** The second byte of an escape pair: a control byte with bit 5 flipped. */
  predicate IsEscapedControl(c: Byte)
  {
    c == 0x5d || c == 0x5e || c == 0x31 || c == 0x32 || c == 0x33
  }

  /**
   * c ^ 0x20 on a byte: bit 5 flipped. Written on the value, one 0x40 block
   * at a time: in the block of c, 0x20 is added when bit 5 is clear and
   * subtracted when it is set. The result stays in the block of c.
   */
  function Flip(c: Byte): (r: Byte)
    ensures (c < 0x40) == (r < 0x40) && (c < 0x80) == (r < 0x80) && (c < 0xc0) == (r < 0xc0)
    decreases c
  {
    if c >= 0x40 then Flip(c - 0x40) + 0x40
    else if c >= 0x20 then c - 0x20
    else c + 0x20
  }

  /** Flip toggles bit 5: it adds 0x20 when that bit is clear and subtracts it when set. */
  lemma {:induction false} FlipBit5(c: Byte)
    ensures Flip(c) == if (c / 0x20) % 2 == 0 then c + 0x20 else c - 0x20
    decreases c
  {
    if c >= 0x40 {
      FlipBit5(c - 0x40);
      assert c / 0x20 == (c - 0x40) / 0x20 + 2;
    }
  }

  /** Flip is the C expression c ^ 0x20, for every byte. */
  lemma FlipIsXor(c: Byte)
    ensures Flip(c) == Xor(c, 0x20)
  {
    var a1, a2, a3, a4, a5 := c / 2, c / 4, c / 8, c / 16, c / 32;
    assert a1 / 2 == a2 && a2 / 2 == a3 && a3 / 2 == a4 && a4 / 2 == a5;
    var high := a5 % 2 == 1;
    XorLowBit0(a5);
    XorLowLift(a4, 1, 2, 4, high);
    XorLowLift(a3, 2, 4, 5, high);
    XorLowLift(a2, 4, 8, 6, high);
    XorLowLift(a1, 8, 16, 7, high);
    XorLowLift(c, 16, 32, 8, high);
    FlipBit5(c);
  }

  /** (x ^ 1) on the low three bits of a value below 8: bit 0 toggled. */
  lemma XorLowBit0(a: nat)
    requires a < 8
    ensures XorLow(a, 1, 3) == if a % 2 == 1 then a - 1 else a + 1
  {
    assert Pow2(2) == 4;
    XorLowZero(a / 2, 2);
  }

  /** One bit more on both sides: toggling bit k of a / 2 is toggling bit k + 1 of a. */
  lemma XorLowLift(a: nat, b: nat, b2: nat, n: nat, high: bool)
    requires n > 0 && b2 == 2 * b
    requires XorLow(a / 2, b, n - 1) == if high then a / 2 - b else a / 2 + b
    ensures XorLow(a, b2, n) == if high then a - b2 else a + b2
  {
    assert b2 / 2 == b && b2 % 2 == 0;
  }

  /** One byte as EscapeData emits it. */
  function EscapeByte(c: Byte): seq<Byte>
  {
    if IsControl(c) then [ControlEscape, Flip(c)] else [c]
  }

  /** The escaped form of a byte string. */
  function Escape(s: seq<Byte>): seq<Byte>
  {
    if s == [] then [] else EscapeByte(s[0]) + Escape(s[1..])
  }

  /**
   * What UnescapeData produces from a byte string: a control escape followed
   * by a byte stands for that byte with bit 5 flipped; a control escape in
   * the last position is kept as it is.
   */
  function Unescape(s: seq<Byte>): seq<Byte>
  {
    if |s| == 0 then []
    else if s[0] == ControlEscape && |s| >= 2 then [Flip(s[1])] + Unescape(s[2..])
    else [s[0]] + Unescape(s[1..])
  }

  lemma {:induction false} FlipTwice(c: Byte)
    ensures Flip(Flip(c)) == c
    decreases c
  {
    if c >= 0x40 {
      FlipTwice(c - 0x40);
      FlipBlock(Flip(c - 0x40));
    }
  }

  /** Flip works within each 0x40 block. */
  lemma FlipBlock(c: Byte)
    requires c < 0xc0
    ensures Flip(c + 0x40) == Flip(c) + 0x40
  {
  }

  /** The number of bytes of `s` that escaping doubles. */
  function ControlCount(s: seq<Byte>): nat
  {
    if s == [] then 0 else (if IsControl(s[0]) then 1 else 0) + ControlCount(s[1..])
  }

  /** Flipping bit 5 of a control byte gives its escaped form, and flipping it again gives it back. */
  lemma ControlFlip(c: Byte)
    requires IsControl(c)
    ensures IsEscapedControl(Flip(c))
    ensures Flip(Flip(c)) == c
  {
  }

  lemma {:induction false} EscapeAppend(a: seq<Byte>, b: seq<Byte>)
    ensures Escape(a + b) == Escape(a) + Escape(b)
  {
    if a == [] {
      assert a + b == b;
    } else {
      assert (a + b)[1..] == a[1..] + b;
      EscapeAppend(a[1..], b);
    }
  }

  /** Escaping adds exactly one byte per control byte. */
  lemma {:induction false} EscapeLength(s: seq<Byte>)
    ensures |Escape(s)| == |s| + ControlCount(s)
    ensures |s| <= |Escape(s)| <= 2 * |s|
  {
    if s != [] {
      EscapeLength(s[1..]);
    }
  }

  /**
   * The escaped form contains no flag and no XON/XOFF byte, and every control
   * escape in it is followed by the escaped form of a control byte (so a
   * control escape never ends it and never follows another one).
   */
  lemma {:induction false} EscapeIsClean(s: seq<Byte>)
    ensures forall k :: 0 <= k < |Escape(s)| ==> !(Escape(s)[k] in {0x7e, 0x11, 0x12, 0x13})
    ensures forall k :: 0 <= k < |Escape(s)| && Escape(s)[k] == ControlEscape ==>
      k + 1 < |Escape(s)| && IsEscapedControl(Escape(s)[k + 1])
  {
    if s != [] {
      EscapeIsClean(s[1..]);
      var e, rest := EscapeByte(s[0]), Escape(s[1..]);
      assert Escape(s) == e + rest;
      if IsControl(s[0]) {
        ControlFlip(s[0]);
      }
      forall k | 0 <= k < |Escape(s)|
        ensures !(Escape(s)[k] in {0x7e, 0x11, 0x12, 0x13})
        ensures Escape(s)[k] == ControlEscape ==> k + 1 < |Escape(s)| && IsEscapedControl(Escape(s)[k + 1])
      {
        if k >= |e| {
          assert Escape(s)[k] == rest[k - |e|];
        }
      }
    }
  }

  /** Unescaping undoes escaping, whatever follows the escaped bytes. */
  lemma {:induction false} UnescapeEscape(x: seq<Byte>, t: seq<Byte>)
    ensures Unescape(Escape(x) + t) == x + Unescape(t)
  {
    if x != [] {
      var c := x[0];
      assert Escape(x) + t == EscapeByte(c) + (Escape(x[1..]) + t);
      UnescapeEscape(x[1..], t);
      if IsControl(c) {
        ControlFlip(c);
        var s := Escape(x) + t;
        assert s[0] == ControlEscape && s[1] == Flip(c);
        assert s[2..] == Escape(x[1..]) + t;
      } else {
        var s := Escape(x) + t;
        assert s[0] == c && s[1..] == Escape(x[1..]) + t;
      }
      assert x == [c] + x[1..];
    } else {
      assert Escape(x) + t == t;
    }
  }

  lemma EscapeRoundTrip(x: seq<Byte>)
    ensures Unescape(Escape(x)) == x
  {
    UnescapeEscape(x, []);
    assert Escape(x) + [] == Escape(x);
    assert Unescape([]) == [];
    assert x + [] == x;
  }

  /** Unescaping never grows its input and at most halves it. */
  lemma {:induction false} UnescapeLength(s: seq<Byte>)
    ensures |Unescape(s)| <= |s| <= 2 * |Unescape(s)|
  {
    if |s| == 0 {
    } else if s[0] == ControlEscape && |s| >= 2 {
      UnescapeLength(s[2..]);
    } else {
      UnescapeLength(s[1..]);
    }
  }

  /** Unescaping two escaped strings in a row, then whatever follows. */
  lemma UnescapeEscapeTwo(a: seq<Byte>, b: seq<Byte>, t: seq<Byte>)
    ensures Unescape(Escape(a) + Escape(b) + t) == a + b + Unescape(t)
  {
    assert Escape(a) + Escape(b) + t == Escape(a) + (Escape(b) + t);
    UnescapeEscape(a, Escape(b) + t);
    UnescapeEscape(b, t);
  }

  /** A string without a control escape unescapes to itself. */
  lemma {:induction false} UnescapePlain(s: seq<Byte>)
    requires forall k :: 0 <= k < |s| ==> s[k] != ControlEscape
    ensures Unescape(s) == s
  {
    if s != [] {
      UnescapePlain(s[1..]);
    }
  }

  /**
   * UnescapeData's loop from input position `i` with `out` written so far:
   * an escape that is not the last byte and the byte after it become one
   * flipped byte, any other byte is copied.
   */
  function Unescaping(s: seq<Byte>, i: nat, out: seq<Byte>): seq<Byte>
    requires i <= |s|
    decreases |s| - i
  {
    if i == |s| then out
    else if s[i] == ControlEscape && i + 1 < |s| then Unescaping(s, i + 2, out + [Flip(s[i + 1])])
    else Unescaping(s, i + 1, out + [s[i]])
  }

  /** The loop appends the unescaped rest of the input to what it has written. */
  lemma {:induction false} UnescapingIsUnescape(s: seq<Byte>, i: nat, out: seq<Byte>)
    requires i <= |s|
    ensures Unescaping(s, i, out) == out + Unescape(s[i..])
    decreases |s| - i
  {
    if i == |s| {
      assert s[i..] == [];
      assert out + [] == out;
    } else {
      assert s[i..][0] == s[i];
      assert s[i..][1..] == s[i + 1..];
      if s[i] == ControlEscape && i + 1 < |s| {
        assert s[i..][1] == s[i + 1];
        assert s[i..][2..] == s[i + 2..];
        UnescapingIsUnescape(s, i + 2, out + [Flip(s[i + 1])]);
        assert (out + [Flip(s[i + 1])]) + Unescape(s[i + 2..]) == out + ([Flip(s[i + 1])] + Unescape(s[i + 2..]));
      } else {
        UnescapingIsUnescape(s, i + 1, out + [s[i]]);
        assert (out + [s[i]]) + Unescape(s[i + 1..]) == out + ([s[i]] + Unescape(s[i + 1..]));
      }
    }
  }

  /** When the loop has consumed the whole input, it has written Unescape of it. */
  lemma UnescapingDone(s: seq<Byte>, out: seq<Byte>)
    requires Unescaping(s, 0, []) == Unescaping(s, |s|, out)
    ensures out == Unescape(s)
  {
    UnescapingIsUnescape(s, 0, []);
    assert s[0..] == s;
  }

  // The frame check sequence (RFC 1662, Appendix C.2), kept in 16-bit vectors.

  /**
   * One bit of the reflected CRC-16 with polynomial 0x8408: shift right and,
   * when the bit shifted out was set, xor the polynomial in (written here
   * without a branch; see StepCases).
   */
  function Step(v: bv16): bv16
  {
    (v >> 1) ^ ((0 - (v & 1)) & 0x8408)
  }

  lemma StepCases(v: bv16)
    ensures Step(v) == if v & 1 == 1 then (v >> 1) ^ 0x8408 else v >> 1
  {
    if v & 1 == 1 {
      assert (0 - (v & 1)) & 0x8408 == 0x8408;
    } else {
      assert (0 - (v & 1)) & 0x8408 == 0;
    }
  }

  /** Eight bit steps: one byte of the bitwise algorithm. */
  function Bitwise(v: bv16): bv16
  {
    Step(Step(Step(Step(Step(Step(Step(Step(v))))))))
  }

  /** fcstab[i]: the table of RFC 1662 Appendix C.2, generated by eight bit steps of i. */
  function Table(i: bv16): bv16
    requires i < 0x100
  {
    Bitwise(i)
  }

  /** A byte as a 16-bit vector. */
  function Wide(b: Byte): (w: bv16)
    ensures w < 0x100
  {
    b as bv16
  }

  /** The value of a 16-bit vector. */
  function Value(x: bv16): Word
  {
    x as int
  }

  /** One table-driven update with a byte given as a 16-bit vector below 0x100. */
  function UpdateWide(fcs: bv16, w: bv16): bv16
  {
    (fcs >> 8) ^ Table((fcs ^ w) & 0xff)
  }

  /** fcs = (fcs >> 8) ^ fcstab[(fcs ^ b) & 0xff] */
  function Update(fcs: bv16, b: Byte): bv16
  {
    UpdateWide(fcs, Wide(b))
  }

  /** The running FCS after the bytes of `s`, starting from `fcs`. */
  function Run(fcs: bv16, s: seq<Byte>): bv16
    decreases |s|
  {
    if s == [] then fcs else Run(Update(fcs, s[0]), s[1..])
  }

  /** The FCS of a byte string: initial value 0xFFFF, final complement. */
  function Fcs(s: seq<Byte>): Word
  {
    Value(Run(0xffff, s) ^ 0xffff)
  }

  /** The running FCS of two strings can be computed in two passes, as CheckSum does. */
  lemma {:induction false} RunAppend(fcs: bv16, a: seq<Byte>, b: seq<Byte>)
    ensures Run(fcs, a + b) == Run(Run(fcs, a), b)
    decreases |a|
  {
    if a != [] {
      assert (a + b)[0] == a[0] && (a + b)[1..] == a[1..] + b;
      RunAppend(Update(fcs, a[0]), a[1..], b);
    } else {
      assert a + b == b;
    }
  }

  /**
   * The table-driven update equals the bitwise algorithm of RFC 1662: xor
   * the byte into the FCS and take eight bit steps.
   */
  lemma UpdateIsBitwise(fcs: bv16, w: bv16)
    requires w < 0x100
    ensures UpdateWide(fcs, w) == Bitwise(fcs ^ w)
  {
  }

  /** The running FCS over bytes given as 16-bit vectors. */
  function RunWide(fcs: bv16, s: seq<bv16>): bv16
    requires forall i :: 0 <= i < |s| ==> s[i] < 0x100
    decreases |s|
  {
    if s == [] then fcs else RunWide(UpdateWide(fcs, s[0]), s[1..])
  }

  function Widen(s: seq<Byte>): (r: seq<bv16>)
    ensures |r| == |s| && forall i :: 0 <= i < |s| ==> r[i] < 0x100
  {
    seq(|s|, i requires 0 <= i < |s| => Wide(s[i]))
  }

  lemma {:induction false} RunIsWide(fcs: bv16, s: seq<Byte>)
    ensures Run(fcs, s) == RunWide(fcs, Widen(s))
    decreases |s|
  {
    if s != [] {
      assert Widen(s)[1..] == Widen(s[1..]);
      RunIsWide(Update(fcs, s[0]), s[1..]);
    }
  }

  /** The CRC-16/X-25 check value: the FCS of the ASCII digits "123456789" is 0x906E. */
  lemma CheckValue()
    ensures RunWide(0xffff, [0x31, 0x32, 0x33, 0x34, 0x35, 0x36, 0x37, 0x38, 0x39]) ^ 0xffff == 0x906e
  {
  }
}
