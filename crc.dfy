/** The frame check sequence of SML transport version 1: CRC-16/X-25, which is the
    16-bit FCS of PPP in HDLC-like framing (RFC 1662, appendix C.2). The firmware
    calls a library for it (`FastCRC16::x25`); here it is specified from the RFC:
    reflected polynomial 0x8408, initial value 0xFFFF, final complement, and the
    result sent least significant octet first. */
module Crc16 {
  import opened Base

  /** The reflected generator polynomial x^16 + x^12 + x^5 + 1. */
  const Poly: bv16 := 0x8408
  /** PPPINITFCS16 of RFC 1662. */
  const InitFcs: bv16 := 0xFFFF
  /** PPPGOODFCS16 of RFC 1662: the register after a frame and its own FCS. */
  const GoodFcs: bv16 := 0xF0B8

  /** One bit of the reflected shift register. */
  function ShiftBit(v: bv16): bv16
  {
    if v & 1 == 1 then (v >> 1) ^ Poly else v >> 1
  }

  /** Eight bits of the shift register, the inner loop of the table generator
      of RFC 1662. */
  function ShiftOctet(v: bv16): bv16
  {
    ShiftBit(ShiftBit(ShiftBit(ShiftBit(ShiftBit(ShiftBit(ShiftBit(ShiftBit(v))))))))
  }

  /** A byte as the shift register sees it: eight bits. */
  function OctetOf(b: byte): bv8
  {
    b as bv8
  }

  /** Eight bits read back as the byte they hold. */
  function ByteOf(o: bv8): byte
  {
    o as byte
  }

  /** Reading a byte as eight bits loses nothing. */
  lemma ByteRoundTrip(b: byte)
    ensures ByteOf(OctetOf(b)) == b
  {
    BitsOfByte(b);
  }

  /** The conversion itself, with no function around it, by counting up
      from zero. */
  lemma {:induction false} BitsOfByte(b: byte)
    ensures (b as bv8) as int == b
    decreases b
  {
    if b > 0 {
      BitsOfByte(b - 1);
      var o := (b - 1) as bv8;
      BitsSuccessor(o);
      BitsInjective(b as bv8, o + 1);
    }
  }

  /** Adding one to eight bits below 255 adds one to the number they hold. */
  lemma BitsSuccessor(o: bv8)
    requires o as int < 255
    ensures (o + 1) as int == o as int + 1
  {
  }

  /** Different bits hold different numbers. */
  lemma BitsInjective(o: bv8, p: bv8)
    requires o as int == p as int
    ensures o == p
  {
  }

  /** Neither does reading eight bits as a byte. */
  lemma OctetRoundTrip(o: bv8)
    ensures OctetOf(ByteOf(o)) == o
  {
  }

  /** Folds one octet into the register, bit by bit. */
  function RegisterStep(fcs: bv16, o: bv8): bv16
  {
    ShiftOctet(fcs ^ (o as bv16))
  }

  /** Folds one byte into the register. */
  function FcsOctet(fcs: bv16, b: byte): bv16
  {
    RegisterStep(fcs, OctetOf(b))
  }

  /** The register after folding in `data`, one octet at a time from the front. */
  function Fcs(fcs: bv16, data: seq<byte>): bv16
    decreases |data|
  {
    if data == [] then fcs else FcsOctet(Fcs(fcs, data[..|data| - 1]), data[|data| - 1])
  }

  /** CRC-16/X-25 of `data`, as `FastCRC16::x25` returns it. */
  function X25(data: seq<byte>): bv16
  {
    Fcs(InitFcs, data) ^ 0xFFFF
  }

  /** The low and high octets of a 16-bit value. */
  function LowOctet(v: bv16): bv8 { (v & 0xFF) as bv8 }
  function HighOctet(v: bv16): bv8 { (v >> 8) as bv8 }

  /** The low and high bytes of a 16-bit value. */
  function Low(v: bv16): byte { ByteOf(LowOctet(v)) }
  function High(v: bv16): byte { ByteOf(HighOctet(v)) }

  /** The 16-bit value whose octets are `lo` and `hi`: `(hi << 8) | lo`. */
  function Word(lo: byte, hi: byte): (w: bv16)
    ensures Low(w) == lo && High(w) == hi
  {
    ByteRoundTrip(lo);
    ByteRoundTrip(hi);
    ((OctetOf(hi) as bv16) << 8) | (OctetOf(lo) as bv16)
  }

  /** A 16-bit value is the word of its own octets. */
  lemma WordOfOctets(v: bv16)
    ensures Word(Low(v), High(v)) == v
  {
    OctetRoundTrip(LowOctet(v));
    OctetRoundTrip(HighOctet(v));
  }

  /** Folding one octet onto the end of data already folded. */
  lemma FcsSnoc(fcs: bv16, data: seq<byte>, b: byte)
    ensures Fcs(fcs, data + [b]) == FcsOctet(Fcs(fcs, data), b)
  {
    assert (data + [b])[..|data|] == data;
  }

  /** Appending the complemented register, low octet first, always leaves the
      register at the good value. */
  lemma ResidueOctets(s: bv16)
    ensures RegisterStep(RegisterStep(s, LowOctet(s ^ 0xFFFF)), HighOctet(s ^ 0xFFFF)) == GoodFcs
  {
  }

  /** Only the complemented register, low octet first, leaves the good value. */
  lemma ResidueOctetsUnique(s: bv16, lo: bv8, hi: bv8)
    requires RegisterStep(RegisterStep(s, lo), hi) == GoodFcs
    ensures lo == LowOctet(s ^ 0xFFFF) && hi == HighOctet(s ^ 0xFFFF)
  {
  }

  /** `ResidueOctets` for the bytes of the firmware's buffer. */
  lemma ResidueStep(s: bv16)
    ensures FcsOctet(FcsOctet(s, Low(s ^ 0xFFFF)), High(s ^ 0xFFFF)) == GoodFcs
  {
    OctetRoundTrip(LowOctet(s ^ 0xFFFF));
    OctetRoundTrip(HighOctet(s ^ 0xFFFF));
    ResidueOctets(s);
  }

  /** `ResidueOctetsUnique` for the bytes of the firmware's buffer. */
  lemma ResidueStepUnique(s: bv16, lo: byte, hi: byte)
    requires FcsOctet(FcsOctet(s, lo), hi) == GoodFcs
    ensures lo == Low(s ^ 0xFFFF) && hi == High(s ^ 0xFFFF)
  {
    ResidueOctetsUnique(s, OctetOf(lo), OctetOf(hi));
    ByteRoundTrip(lo);
    ByteRoundTrip(hi);
  }

  /** A frame is intact in the sense of the firmware (the CRC of all but its last
      two octets equals those two octets read least significant first) exactly
      when folding the whole frame leaves the good FCS of RFC 1662. */
  lemma {:induction false} CheckIffGoodResidue(frame: seq<byte>)
    requires |frame| >= 2
    ensures X25(frame[..|frame| - 2]) == Word(frame[|frame| - 2], frame[|frame| - 1])
        <==> Fcs(InitFcs, frame) == GoodFcs
  {
    var body, lo, hi := frame[..|frame| - 2], frame[|frame| - 2], frame[|frame| - 1];
    assert frame == (body + [lo]) + [hi];
    FcsSnoc(InitFcs, body + [lo], hi);
    FcsSnoc(InitFcs, body, lo);
    var s := Fcs(InitFcs, body);
    if X25(body) == Word(lo, hi) {
      ResidueStep(s);
    } else if Fcs(InitFcs, frame) == GoodFcs {
      ResidueStepUnique(s, lo, hi);
      WordOfOctets(s ^ 0xFFFF);
    }
  }

  /** The digits "123456789", the standard CRC check input. */
  const CheckInput: seq<byte> := [0x31, 0x32, 0x33, 0x34, 0x35, 0x36, 0x37, 0x38, 0x39]

  /** The standard check value of CRC-16/X-25: 0x906E for "123456789". */
  lemma CheckValue()
    ensures X25(CheckInput) == 0x906E
  {
    CheckPrefix9();
    assert CheckInput[..9] == CheckInput;
  }

  /** The register after the first 1 check digits. */
  lemma CheckPrefix1()
    ensures Fcs(InitFcs, CheckInput[..1]) == 0x2F8D
  {
    assert CheckInput[..0] == [];
    CheckValueStep(CheckInput, 0, 0x31, 0xFFFF, 0x2F8D);
  }

  /** The register after the first 2 check digits. */
  lemma CheckPrefix2()
    ensures Fcs(InitFcs, CheckInput[..2]) == 0x4D53
  {
    CheckPrefix1();
    CheckValueStep(CheckInput, 1, 0x32, 0x2F8D, 0x4D53);
  }

  /** The register after the first 3 check digits. */
  lemma CheckPrefix3()
    ensures Fcs(InitFcs, CheckInput[..3]) == 0x634B
  {
    CheckPrefix2();
    CheckValueStep(CheckInput, 2, 0x33, 0x4D53, 0x634B);
  }

  /** The register after the first 4 check digits. */
  lemma CheckPrefix4()
    ensures Fcs(InitFcs, CheckInput[..4]) == 0x8B13
  {
    CheckPrefix3();
    CheckValueStep(CheckInput, 3, 0x34, 0x634B, 0x8B13);
  }

  /** The register after the first 5 check digits. */
  lemma CheckPrefix5()
    ensures Fcs(InitFcs, CheckInput[..5]) == 0x44BF
  {
    CheckPrefix4();
    CheckValueStep(CheckInput, 4, 0x35, 0x8B13, 0x44BF);
  }

  /** The register after the first 6 check digits. */
  lemma CheckPrefix6()
    ensures Fcs(InitFcs, CheckInput[..6]) == 0x198D
  {
    CheckPrefix5();
    CheckValueStep(CheckInput, 5, 0x36, 0x44BF, 0x198D);
  }

  /** The register after the first 7 check digits. */
  lemma CheckPrefix7()
    ensures Fcs(InitFcs, CheckInput[..7]) == 0x1AC8
  {
    CheckPrefix6();
    CheckValueStep(CheckInput, 6, 0x37, 0x198D, 0x1AC8);
  }

  /** The register after the first 8 check digits. */
  lemma CheckPrefix8()
    ensures Fcs(InitFcs, CheckInput[..8]) == 0xF795
  {
    CheckPrefix7();
    CheckValueStep(CheckInput, 7, 0x38, 0x1AC8, 0xF795);
  }

  /** The register after the first 9 check digits. */
  lemma CheckPrefix9()
    ensures Fcs(InitFcs, CheckInput[..9]) == 0x6F91
  {
    CheckPrefix8();
    CheckValueStep(CheckInput, 8, 0x39, 0xF795, 0x6F91);
  }

  /** One octet of the check-value computation. */
  lemma CheckValueStep(d: seq<byte>, i: nat, b: byte, before: bv16, after: bv16)
    requires i < |d| && d[i] == b && Fcs(InitFcs, d[..i]) == before
    requires RegisterStep(before, OctetOf(b)) == after
    ensures Fcs(InitFcs, d[..i + 1]) == after
  {
    assert d[..i + 1] == d[..i] + [d[i]];
    FcsSnoc(InitFcs, d[..i], d[i]);
  }
}
