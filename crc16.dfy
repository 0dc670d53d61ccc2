/**
 * CRC-16/MODBUS as defined in section 6.2.2 of the MODBUS over Serial Line
 * Specification and Implementation Guide V1.02: a 16-bit register preset to
 * 0xFFFF, each byte XORed into its low half, then eight right shifts, each
 * followed by an XOR with 0xA001 when the bit shifted out was 1.
 */
module Crc16 {
  import opened Bytes

  /** The preset value of the CRC register. */
  const Init: UShort := 0xFFFF

  /** The generator polynomial 0x8005 in bit-reversed form. */
  const Poly: UShort := 0xA001

  /** One shift of the register. */
  function Step(c: UShort): UShort {
    if c & 1 != 0 then (c >> 1) ^ Poly else c >> 1
  }

  /** `k` shifts of the register. */
  function Shifts(c: UShort, k: nat): UShort {
    if k == 0 then c else Step(Shifts(c, k - 1))
  }

  /** Absorbing one byte: XOR it into the low half of the register, then shift eight times. */
  function Absorb(c: UShort, b: Byte): UShort {
    Shifts(c ^ (b as UShort), 8)
  }

  /** The register after absorbing every byte of `s`, in order, starting from `c`. */
  function CrcFrom(c: UShort, s: seq<Byte>): UShort
    decreases |s|
  {
    if s == [] then c else CrcFrom(Absorb(c, s[0]), s[1..])
  }

  /** The CRC of a byte sequence. */
  function Crc(s: seq<Byte>): UShort {
    CrcFrom(Init, s)
  }

  /** The two bytes a CRC occupies on the wire: low byte first. */
  function Trailer(c: UShort): (t: seq<Byte>)
    ensures |t| == 2 && WordLE(t[0], t[1]) == c
  {
    WordLESplit(c);
    [Lo(c), Hi(c)]
  }

  /** `CalculateCRC`: the nested loop of the source, proved to compute `Crc`. */
  method CalculateCrc(data: seq<Byte>) returns (crc: UShort)
    ensures crc == Crc(data)
    ensures data == [] ==> crc == 0xFFFF
  {
    crc := 0xFFFF;
    for pos := 0 to |data|
      invariant crc == Crc(data[..pos])
    {
      crc := crc ^ (data[pos] as UShort);
      ghost var mixed := crc;
      var i := 8;
      while i != 0
        invariant 0 <= i <= 8
        invariant crc == Shifts(mixed, 8 - i)
      {
        ghost var before := crc;
        if crc & 0x0001 != 0 {
          crc := crc >> 1;
          crc := crc ^ 0xA001;
        } else {
          crc := crc >> 1;
        }
        assert crc == Step(before);
        i := i - 1;
      }
      assert crc == Absorb(Crc(data[..pos]), data[pos]);
      CrcOfPrefix(data, pos);
    }
    assert data[..|data|] == data;
  }

  /** The CRC of one more byte of `data` absorbs that byte into the CRC so far. */
  lemma CrcOfPrefix(data: seq<Byte>, pos: nat)
    requires pos < |data|
    ensures Crc(data[..pos + 1]) == Absorb(Crc(data[..pos]), data[pos])
  {
    CrcFromAppend(Init, data[..pos], [data[pos]]);
    assert data[..pos + 1] == data[..pos] + [data[pos]];
    assert [data[pos]][1..] == [];
  }

  /** Absorbing `a + b` is absorbing `a`, then `b`. */
  lemma {:induction false} CrcFromAppend(c: UShort, a: seq<Byte>, b: seq<Byte>)
    ensures CrcFrom(c, a + b) == CrcFrom(CrcFrom(c, a), b)
    decreases |a|
  {
    if a == [] {
      assert a + b == b;
    } else {
      assert (a + b)[1..] == a[1..] + b;
      CrcFromAppend(Absorb(c, a[0]), a[1..], b);
    }
  }

  /** A shift loses no information: the bit shifted out is recovered from the top bit. */
  lemma StepInjective(x: UShort, y: UShort)
    requires Step(x) == Step(y)
    ensures x == y
  {
  }

  /** Any number of shifts loses no information. */
  lemma {:induction false} ShiftsInjective(x: UShort, y: UShort, k: nat)
    requires Shifts(x, k) == Shifts(y, k)
    ensures x == y
  {
    if k > 0 {
      StepInjective(Shifts(x, k - 1), Shifts(y, k - 1));
      ShiftsInjective(x, y, k - 1);
    }
  }

  /** Different registers stay different after absorbing the same bytes. */
  lemma {:induction false} CrcFromInjective(x: UShort, y: UShort, s: seq<Byte>)
    requires CrcFrom(x, s) == CrcFrom(y, s)
    ensures x == y
    decreases |s|
  {
    if s != [] {
      CrcFromInjective(Absorb(x, s[0]), Absorb(y, s[0]), s[1..]);
      ShiftsInjective(x ^ (s[0] as UShort), y ^ (s[0] as UShort), 8);
    }
  }

  /** Absorbing a message that starts with `x`. */
  lemma CrcFromCons(c: UShort, x: Byte, s: seq<Byte>)
    ensures CrcFrom(c, [x] + s) == CrcFrom(Absorb(c, x), s)
  {
    assert ([x] + s)[1..] == s;
  }

  /** Different bytes absorbed into the same register give different registers. */
  lemma AbsorbInjective(c: UShort, x: Byte, y: Byte)
    requires x != y
    ensures Absorb(c, x) != Absorb(c, y)
  {
    if Absorb(c, x) == Absorb(c, y) {
      ShiftsInjective(c ^ (x as UShort), c ^ (y as UShort), 8);
      assert false;
    }
  }

  /**
   * Changing any one byte of a message changes its CRC: in particular every
   * single-bit error is detected.
   */
  lemma CrcDetectsByteChange(p: seq<Byte>, x: Byte, y: Byte, s: seq<Byte>)
    requires x != y
    ensures Crc(p + [x] + s) != Crc(p + [y] + s)
  {
    var c := CrcFrom(Init, p);
    assert p + [x] + s == p + ([x] + s);
    assert p + [y] + s == p + ([y] + s);
    CrcFromAppend(Init, p, [x] + s);
    CrcFromAppend(Init, p, [y] + s);
    CrcFromCons(c, x, s);
    CrcFromCons(c, y, s);
    AbsorbInjective(c, x, y);
    if CrcFrom(Absorb(c, x), s) == CrcFrom(Absorb(c, y), s) {
      CrcFromInjective(Absorb(c, x), Absorb(c, y), s);
    }
  }

  /** Eight shifts written out. */
  lemma ShiftsEight(c: UShort)
    ensures Shifts(c, 8) == Step(Step(Step(Step(Step(Step(Step(Step(c))))))))
  {
    assert Shifts(c, 1) == Step(c);
    assert Shifts(c, 2) == Step(Step(c));
    assert Shifts(c, 3) == Step(Step(Step(c)));
    assert Shifts(c, 4) == Step(Step(Step(Step(c))));
    assert Shifts(c, 5) == Step(Step(Step(Step(Step(c)))));
    assert Shifts(c, 6) == Step(Step(Step(Step(Step(Step(c))))));
    assert Shifts(c, 7) == Step(Step(Step(Step(Step(Step(Step(c)))))));
  }

  /** Absorbing a register's own low byte leaves exactly its high byte. */
  lemma AbsorbOwnLow(c: UShort)
    ensures Absorb(c, Lo(c)) == c >> 8
  {
    ShiftsEight(c ^ (Lo(c) as UShort));
  }

  /** Eight shifts leave a value below 256 only when the low byte shifted in was zero. */
  lemma ShiftsEightTopByte(x: UShort)
    requires Shifts(x, 8) >> 8 == 0
    ensures x & 0xFF == 0
  {
    ShiftsEight(x);
  }

  /** Absorbing a two-byte message. */
  lemma CrcFromPair(c: UShort, lo: Byte, hi: Byte)
    ensures CrcFrom(c, [lo, hi]) == Absorb(Absorb(c, lo), hi)
  {
    assert [lo, hi][1..] == [hi];
    assert [hi][1..] == [];
    assert CrcFrom(c, [lo, hi]) == CrcFrom(Absorb(c, lo), [hi]);
    assert CrcFrom(Absorb(c, lo), [hi]) == CrcFrom(Absorb(Absorb(c, lo), hi), []);
  }

  /** Absorbing a byte clears the register exactly when the register held that byte. */
  lemma AbsorbZero(t: UShort, b: Byte)
    ensures Absorb(t, b) == 0 <==> t == b as UShort
  {
    ShiftsEight(0);
    if Absorb(t, b) == 0 {
      ShiftsInjective(t ^ (b as UShort), 0, 8);
    }
  }

  /** Absorbing a byte leaves a value below 256 only when it was the register's own low byte. */
  lemma AbsorbSmall(c: UShort, lo: Byte)
    requires Absorb(c, lo) >> 8 == 0
    ensures lo == Lo(c)
  {
    ShiftsEightTopByte(c ^ (lo as UShort));
  }

  /**
   * Appending its CRC to a message, low byte first, drives the register to
   * zero, and no other two bytes do.
   */
  lemma TrailerResidue(c: UShort, lo: Byte, hi: Byte)
    ensures CrcFrom(c, [lo, hi]) == 0 <==> [lo, hi] == Trailer(c)
  {
    CrcFromPair(c, lo, hi);
    AbsorbZero(Absorb(c, lo), hi);
    AbsorbOwnLow(c);
    if Absorb(Absorb(c, lo), hi) == 0 {
      AbsorbSmall(c, lo);
    }
  }

  /** The CRC of a message followed by its own trailer is zero. */
  lemma SealedResidue(s: seq<Byte>)
    ensures Crc(s + Trailer(Crc(s))) == 0
  {
    CrcFromAppend(Init, s, Trailer(Crc(s)));
    var t := Trailer(Crc(s));
    TrailerResidue(Crc(s), t[0], t[1]);
    assert [t[0], t[1]] == t;
  }

  /** `cs[k]` is the register after absorbing `s[..k + 1]` from `c`. */
  ghost predicate IsTrace(c: UShort, s: seq<Byte>, cs: seq<UShort>) {
    |cs| == |s| && (|s| > 0 ==> cs[0] == Absorb(c, s[0])) &&
    forall k :: 1 <= k < |s| ==> cs[k] == Absorb(cs[k - 1], s[k])
  }

  /** A trace that agrees with `Absorb` at every step ends at the CRC. */
  lemma {:induction false} TraceEndsAtCrc(c: UShort, s: seq<Byte>, cs: seq<UShort>)
    requires IsTrace(c, s, cs) && s != []
    ensures CrcFrom(c, s) == cs[|cs| - 1]
    decreases |s|
  {
    assert s == [s[0]] + s[1..];
    CrcFromCons(c, s[0], s[1..]);
    if |s| == 1 {
      assert s[1..] == [];
    } else {
      forall k | 1 <= k < |s| - 1 ensures cs[1..][k] == Absorb(cs[1..][k - 1], s[1..][k]) {
        assert cs[k + 1] == Absorb(cs[k], s[k + 1]);
      }
      assert IsTrace(cs[0], s[1..], cs[1..]);
      TraceEndsAtCrc(cs[0], s[1..], cs[1..]);
    }
  }

  /** The check value of CRC-16/MODBUS: the CRC of the ASCII digits "123456789" is 0x4B37. */
  lemma CheckValue()
    ensures Crc([0x31, 0x32, 0x33, 0x34, 0x35, 0x36, 0x37, 0x38, 0x39]) == 0x4B37
  {
    var s: seq<Byte> := [0x31, 0x32, 0x33, 0x34, 0x35, 0x36, 0x37, 0x38, 0x39];
    var cs: seq<UShort> := [0x947E, 0xF595, 0x7A75, 0x30BA, 0xA471, 0x32E4, 0x9D73, 0x37DD, 0x4B37];
    ShiftsEight(0xFFFF ^ 0x31);
    assert cs[0] == Absorb(Init, s[0]);
    ShiftsEight(0x947E ^ 0x32);
    assert cs[1] == Absorb(cs[0], s[1]);
    ShiftsEight(0xF595 ^ 0x33);
    assert cs[2] == Absorb(cs[1], s[2]);
    ShiftsEight(0x7A75 ^ 0x34);
    assert cs[3] == Absorb(cs[2], s[3]);
    ShiftsEight(0x30BA ^ 0x35);
    assert cs[4] == Absorb(cs[3], s[4]);
    ShiftsEight(0xA471 ^ 0x36);
    assert cs[5] == Absorb(cs[4], s[5]);
    ShiftsEight(0x32E4 ^ 0x37);
    assert cs[6] == Absorb(cs[5], s[6]);
    ShiftsEight(0x9D73 ^ 0x38);
    assert cs[7] == Absorb(cs[6], s[7]);
    ShiftsEight(0x37DD ^ 0x39);
    assert cs[8] == Absorb(cs[7], s[8]);
    TraceEndsAtCrc(Init, s, cs);
  }
}
