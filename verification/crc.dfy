/**
 * The 16-bit checksum both ends of the link compute over a packet's payload:
 * CRC-16/MODBUS (section 6.2.2 of the MODBUS over Serial Line Specification and
 * Implementation Guide V1.02): register preset to 0xFFFF, reflected polynomial
 * 0xA001, bytes folded in least-significant bit first, no final XOR. The sender's
 * and the receiver's copies of the routine are the same text, so one definition
 * serves both.
 */
module Crc {
  import opened Struct

  /** The register's value before any byte (CRC-16/ARC would start from 0x0000). */
  const Init: bv16 := 0xFFFF
  /** The polynomial 0x8005, bit-reflected. */
  const Poly: bv16 := 0xA001

  /** One pass of the inner loop: shift right, folding the polynomial in when the low bit was set. */
  function ShiftOnce(crc: bv16): bv16
  {
    if crc & 1 == 1 then (crc >> 1) ^ Poly else crc >> 1
  }

  /** n passes of the inner loop. */
  function Shifts(crc: bv16, n: nat): bv16
  {
    if n == 0 then crc else ShiftOnce(Shifts(crc, n - 1))
  }

  /**
   * A byte as a 16-bit register value, assembled bit by bit from its binary
   * digits (the register is 16 bits wide throughout, so Python's XOR of the
   * byte into its int register changes only the low eight bits).
   */
  function Widen(b: byte): bv16
  {
    if b == 0 then 0 else (Widen(b / 2) << 1) | (if b % 2 == 1 then 1 else 0)
  }

  /** One pass of the outer loop: XOR the byte into the low bits, then eight shifts. */
  function Update(crc: bv16, b: byte): bv16
  {
    Shifts(crc ^ Widen(b), 8)
  }

  /** The register after folding in every byte of `data`, first to last. */
  function Register(data: seq<byte>): bv16
  {
    if |data| == 0 then Init else Update(Register(data[..|data| - 1]), data[|data| - 1])
  }

  /** `crc16(data)`: always a 16-bit value, and 0xFFFF for an empty payload. */
  function Crc16(data: seq<byte>): (r: nat)
    ensures r < 0x10000
    ensures |data| == 0 ==> r == 0xFFFF
  {
    Register(data) as nat
  }

  /** Eight passes of the inner loop, written out. */
  lemma ShiftsEight(x: bv16)
    ensures Shifts(x, 8) == ShiftsEightOf(x)
  {
    assert Shifts(x, 1) == ShiftOnce(x);
    assert Shifts(x, 2) == ShiftOnce(Shifts(x, 1));
    assert Shifts(x, 3) == ShiftOnce(Shifts(x, 2));
    assert Shifts(x, 4) == ShiftOnce(Shifts(x, 3));
    assert Shifts(x, 5) == ShiftOnce(Shifts(x, 4));
    assert Shifts(x, 6) == ShiftOnce(Shifts(x, 5));
    assert Shifts(x, 7) == ShiftOnce(Shifts(x, 6));
  }

  /** The inner loop of the routine: eight shift passes over the register. */
  method ShiftEightTimes(x: bv16) returns (reg: bv16)
    ensures reg == Shifts(x, 8)
  {
    reg := x;
    var k := 0;
    while k < 8
      invariant 0 <= k <= 8
      invariant reg == Shifts(x, k)
    {
      if reg & 1 == 1 {
        reg := (reg >> 1) ^ Poly;
      } else {
        reg := reg >> 1;
      }
      k := k + 1;
    }
  }

  /** The routine as the source writes it: a loop over the bytes around the loop of eight shifts. */
  method ComputeCrc16(data: seq<byte>) returns (crc: nat)
    ensures crc == Crc16(data)
  {
    var reg: bv16 := Init;
    var i := 0;
    while i < |data|
      invariant 0 <= i <= |data|
      invariant reg == Register(data[..i])
    {
      reg := ShiftEightTimes(reg ^ Widen(data[i]));
      assert data[..i + 1][..i] == data[..i];
      i := i + 1;
    }
    assert data[..|data|] == data;
    crc := reg as nat;
  }

  /** The register after one more byte, for a payload given by its prefix. */
  lemma RegisterSnoc(p: seq<byte>, b: byte)
    ensures Register(p + [b]) == Update(Register(p), b)
  {
    assert (p + [b])[..|p|] == p;
  }

  /** Folding a byte into a known register value gives a known register value. */
  lemma Step(p: seq<byte>, b: byte, w: bv16, before: bv16, after: bv16)
    requires Register(p) == before
    requires Widen(b) == w
    requires ShiftsEightOf(before ^ w) == after
    ensures Register(p + [b]) == after
  {
    RegisterSnoc(p, b);
    ShiftsEight(before ^ w);
  }

  /** Eight passes of the inner loop as one expression. */
  function ShiftsEightOf(x: bv16): bv16
  {
    ShiftOnce(ShiftOnce(ShiftOnce(ShiftOnce(ShiftOnce(ShiftOnce(ShiftOnce(ShiftOnce(x))))))))
  }

  /** Folding in the ASCII digit 1 moves the register from 0xFFFF to 0x947E. */
  lemma Digit1(p: seq<byte>)
    requires Register(p) == 0xFFFF
    ensures Register(p + [0x31]) == 0x947E
  {
    assert Widen(0x31) == 0x31;
    Step(p, 0x31, 0x31, 0xFFFF, 0x947E);
  }

  /** Folding in the ASCII digit 2 moves the register from 0x947E to 0xF595. */
  lemma Digit2(p: seq<byte>)
    requires Register(p) == 0x947E
    ensures Register(p + [0x32]) == 0xF595
  {
    assert Widen(0x32) == 0x32;
    Step(p, 0x32, 0x32, 0x947E, 0xF595);
  }

  /** Folding in the ASCII digit 3 moves the register from 0xF595 to 0x7A75. */
  lemma Digit3(p: seq<byte>)
    requires Register(p) == 0xF595
    ensures Register(p + [0x33]) == 0x7A75
  {
    assert Widen(0x33) == 0x33;
    Step(p, 0x33, 0x33, 0xF595, 0x7A75);
  }

  /** Folding in the ASCII digit 4 moves the register from 0x7A75 to 0x30BA. */
  lemma Digit4(p: seq<byte>)
    requires Register(p) == 0x7A75
    ensures Register(p + [0x34]) == 0x30BA
  {
    assert Widen(0x34) == 0x34;
    Step(p, 0x34, 0x34, 0x7A75, 0x30BA);
  }

  /** Folding in the ASCII digit 5 moves the register from 0x30BA to 0xA471. */
  lemma Digit5(p: seq<byte>)
    requires Register(p) == 0x30BA
    ensures Register(p + [0x35]) == 0xA471
  {
    assert Widen(0x35) == 0x35;
    Step(p, 0x35, 0x35, 0x30BA, 0xA471);
  }

  /** Folding in the ASCII digit 6 moves the register from 0xA471 to 0x32E4. */
  lemma Digit6(p: seq<byte>)
    requires Register(p) == 0xA471
    ensures Register(p + [0x36]) == 0x32E4
  {
    assert Widen(0x36) == 0x36;
    Step(p, 0x36, 0x36, 0xA471, 0x32E4);
  }

  /** Folding in the ASCII digit 7 moves the register from 0x32E4 to 0x9D73. */
  lemma Digit7(p: seq<byte>)
    requires Register(p) == 0x32E4
    ensures Register(p + [0x37]) == 0x9D73
  {
    assert Widen(0x37) == 0x37;
    Step(p, 0x37, 0x37, 0x32E4, 0x9D73);
  }

  /** Folding in the ASCII digit 8 moves the register from 0x9D73 to 0x37DD. */
  lemma Digit8(p: seq<byte>)
    requires Register(p) == 0x9D73
    ensures Register(p + [0x38]) == 0x37DD
  {
    assert Widen(0x38) == 0x38;
    Step(p, 0x38, 0x38, 0x9D73, 0x37DD);
  }

  /** Folding in the ASCII digit 9 moves the register from 0x37DD to 0x4B37. */
  lemma Digit9(p: seq<byte>)
    requires Register(p) == 0x37DD
    ensures Register(p + [0x39]) == 0x4B37
  {
    assert Widen(0x39) == 0x39;
    Step(p, 0x39, 0x39, 0x37DD, 0x4B37);
  }

  /**
   * The standard check value of CRC-16/MODBUS: the ASCII digits "123456789"
   * (bytes 0x31 to 0x39) give 0x4B37. CRC-16/ARC, which starts from 0x0000,
   * gives 0xBB3D instead.
   */
  lemma CheckValue(digits: seq<byte>)
    requires |digits| == 9 && forall i :: 0 <= i < 9 ==> digits[i] == 0x31 + i
    ensures Crc16(digits) == 0x4B37
  {
    assert digits[..0] == [];
    Digit1(digits[..0]);
    assert digits[..1] == digits[..0] + [0x31];
    Digit2(digits[..1]);
    assert digits[..2] == digits[..1] + [0x32];
    Digit3(digits[..2]);
    assert digits[..3] == digits[..2] + [0x33];
    Digit4(digits[..3]);
    assert digits[..4] == digits[..3] + [0x34];
    Digit5(digits[..4]);
    assert digits[..5] == digits[..4] + [0x35];
    Digit6(digits[..5]);
    assert digits[..6] == digits[..5] + [0x36];
    Digit7(digits[..6]);
    assert digits[..7] == digits[..6] + [0x37];
    Digit8(digits[..7]);
    assert digits[..8] == digits[..7] + [0x38];
    Digit9(digits[..8]);
    assert digits[..9] == digits[..8] + [0x39];
    assert digits[..9] == digits;
  }

  /** A widened byte occupies no more low bits than the byte has binary digits. */
  lemma {:induction false} WidenBound(b: byte)
    ensures b < 2 ==> Widen(b) <= 0x1
    ensures b < 4 ==> Widen(b) <= 0x3
    ensures b < 8 ==> Widen(b) <= 0x7
    ensures b < 16 ==> Widen(b) <= 0xF
    ensures b < 32 ==> Widen(b) <= 0x1F
    ensures b < 64 ==> Widen(b) <= 0x3F
    ensures b < 128 ==> Widen(b) <= 0x7F
    ensures Widen(b) <= 0xFF
  {
    if b > 0 {
      WidenBound(b / 2);
    }
  }

  /** The low bit of a widened byte is the byte's parity; the rest is the widened half. */
  lemma WidenBits(b: byte)
    ensures Widen(b) & 1 == (if b % 2 == 1 then 1 else 0)
    ensures Widen(b) >> 1 == Widen(b / 2)
  {
    if b > 0 {
      WidenBound(b / 2);
    }
  }

  /** Different bytes widen to different register values. */
  lemma {:induction false} WidenInjective(a: byte, b: byte)
    requires Widen(a) == Widen(b)
    ensures a == b
    decreases a + b
  {
    WidenBits(a);
    WidenBits(b);
    if a + b > 0 {
      WidenInjective(a / 2, b / 2);
    }
  }

  /** One inner-loop pass loses no information: the low bit it consumes reappears as the top bit. */
  lemma ShiftOnceInjective(x: bv16, y: bv16)
    requires ShiftOnce(x) == ShiftOnce(y)
    ensures x == y
  {
  }

  /** The inner loop loses no information: distinct registers stay distinct. */
  lemma {:induction false} ShiftsInjective(x: bv16, y: bv16, n: nat)
    requires Shifts(x, n) == Shifts(y, n)
    ensures x == y
  {
    if n > 0 {
      ShiftOnceInjective(Shifts(x, n - 1), Shifts(y, n - 1));
      ShiftsInjective(x, y, n - 1);
    }
  }

  /** Folding in different bytes from the same register gives different registers. */
  lemma UpdateSeparatesBytes(crc: bv16, a: byte, b: byte)
    requires a != b
    ensures Update(crc, a) != Update(crc, b)
  {
    if Update(crc, a) == Update(crc, b) {
      ShiftsInjective(crc ^ Widen(a), crc ^ Widen(b), 8);
      WidenInjective(a, b);
    }
  }

  /** Folding the same byte into different registers gives different registers. */
  lemma UpdateSeparatesRegisters(x: bv16, y: bv16, b: byte)
    requires x != y
    ensures Update(x, b) != Update(y, b)
  {
    if Update(x, b) == Update(y, b) {
      ShiftsInjective(x ^ Widen(b), y ^ Widen(b), 8);
    }
  }

  /** Once two registers differ, folding in the same bytes keeps them different. */
  lemma {:induction false} SameSuffixKeepsApart(x: seq<byte>, y: seq<byte>, q: seq<byte>)
    requires Register(x) != Register(y)
    ensures Register(x + q) != Register(y + q)
    decreases |q|
  {
    if |q| > 0 {
      var init, last := q[..|q| - 1], q[|q| - 1];
      SameSuffixKeepsApart(x, y, init);
      assert x + q == (x + init) + [last];
      assert y + q == (y + init) + [last];
      RegisterSnoc(x + init, last);
      RegisterSnoc(y + init, last);
      UpdateSeparatesRegisters(Register(x + init), Register(y + init), last);
    } else {
      assert x + q == x && y + q == y;
    }
  }

  /** A register value converts to an integer and back without loss. */
  lemma RegisterValueRoundTrip(x: bv16)
    ensures (x as int) as bv16 == x
  {
  }

  /**
   * The checksum catches every corruption confined to one byte: two payloads that
   * differ in exactly one position never share a checksum.
   */
  lemma SingleByteChangeDetected(p: seq<byte>, a: byte, b: byte, q: seq<byte>)
    requires a != b
    ensures Crc16(p + [a] + q) != Crc16(p + [b] + q)
  {
    RegisterSnoc(p, a);
    RegisterSnoc(p, b);
    UpdateSeparatesBytes(Register(p), a, b);
    SameSuffixKeepsApart(p + [a], p + [b], q);
    RegisterValueRoundTrip(Register(p + [a] + q));
    RegisterValueRoundTrip(Register(p + [b] + q));
  }
}
