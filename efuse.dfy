/** Custom eFuse provisioning: four user fields (serial number, hardware revision,
    feature flags and a CRC-16 over the first three) are burned into a one-time-programmable
    store whose bits can only go from 0 to 1. Programming is idempotent: it skips a
    device that already carries a consistent CRC, refuses any value that would need a set
    bit cleared, and stages only the bits that are still missing. */
module Efuse {
  import opened Common

  // ---------------------------------------------------------------------------
  // CRC-16/CCITT-FALSE: polynomial 0x1021, initial value 0xFFFF, no reflection, no final XOR

  const CrcPoly: bv16 := 0x1021
  const CrcInit: bv16 := 0xFFFF

  /** One MSB-first shift of the CRC register. */
  function CrcShift(crc: bv16): bv16
  {
    if crc & 0x8000 != 0 then (crc << 1) ^ CrcPoly else crc << 1
  }

  function CrcShifts(crc: bv16, k: nat): bv16
  {
    if k == 0 then crc else CrcShift(CrcShifts(crc, k - 1))
  }

  /** The register after one data byte: the byte is XORed into the high half, then eight shifts. */
  function CrcByte(crc: bv16, b: bv8): bv16
  {
    Shift8(crc ^ ((b as bv16) << 8))
  }

  function Shift8(x: bv16): bv16
  {
    CrcShift(CrcShift(CrcShift(CrcShift(CrcShift(CrcShift(CrcShift(CrcShift(x))))))))
  }

  lemma EightShifts(x: bv16)
    ensures CrcShifts(x, 8) == Shift8(x)
  {
    assert CrcShifts(x, 1) == CrcShift(x);
    assert CrcShifts(x, 2) == CrcShift(CrcShifts(x, 1));
    assert CrcShifts(x, 3) == CrcShift(CrcShifts(x, 2));
    assert CrcShifts(x, 4) == CrcShift(CrcShifts(x, 3));
    assert CrcShifts(x, 5) == CrcShift(CrcShifts(x, 4));
    assert CrcShifts(x, 6) == CrcShift(CrcShifts(x, 5));
    assert CrcShifts(x, 7) == CrcShift(CrcShifts(x, 6));
  }

  /** The register after feeding `data`, one byte at a time, starting from `crc`. */
  function CrcFrom(crc: bv16, data: seq<bv8>): bv16
  {
    if data == [] then crc else CrcByte(CrcFrom(crc, data[..|data| - 1]), data[|data| - 1])
  }

  function Crc16(data: seq<bv8>): bv16
  {
    CrcFrom(CrcInit, data)
  }

  /** The bitwise CRC routine, as the firmware computes it over a byte buffer. */
  method Crc16CcittFalse(data: array<bv8>) returns (crc: bv16)
    ensures crc == Crc16(data[..])
  {
    crc := CrcInit;
    var i := 0;
    while i < data.Length
      invariant 0 <= i <= data.Length
      invariant crc == CrcFrom(CrcInit, data[..i])
    {
      assert data[..i + 1][..i] == data[..i];
      crc := crc ^ ((data[i] as bv16) << 8);
      ghost var start := crc;
      var b := 0;
      while b < 8
        invariant 0 <= b <= 8
        invariant crc == CrcShifts(start, b)
      {
        if crc & 0x8000 != 0 {
          crc := (crc << 1) ^ CrcPoly;
        } else {
          crc := crc << 1;
        }
        b := b + 1;
      }
      EightShifts(start);
      i := i + 1;
    }
    assert data[..data.Length] == data[..];
  }

  lemma CrcSnoc(crc: bv16, a: seq<bv8>, x: bv8)
    ensures CrcFrom(crc, a + [x]) == CrcByte(CrcFrom(crc, a), x)
  {
    assert (a + [x])[..|a|] == a;
  }

  /** The CRC can be computed incrementally: feeding `a` and then `b` is feeding `a + b`. */
  lemma {:induction false} CrcAppend(crc: bv16, a: seq<bv8>, b: seq<bv8>)
    ensures CrcFrom(crc, a + b) == CrcFrom(CrcFrom(crc, a), b)
    decreases |b|
  {
    if b == [] {
      assert a + b == a;
    } else {
      var b' := b[..|b| - 1];
      var x := b[|b| - 1];
      assert a + b == (a + b') + [x];
      assert b == b' + [x];
      CrcSnoc(crc, a + b', x);
      CrcAppend(crc, a, b');
      CrcSnoc(CrcFrom(crc, a), b', x);
    }
  }

  /** The empty message leaves the register at its initial value. */
  lemma CrcOfEmpty()
    ensures Crc16([]) == 0xFFFF
  {
  }

  /** Four bytes fed one after the other. */
  lemma CrcOfFour(c: bv16, b0: bv8, b1: bv8, b2: bv8, b3: bv8)
    ensures CrcFrom(c, [b0, b1, b2, b3]) == CrcByte(CrcByte(CrcByte(CrcByte(c, b0), b1), b2), b3)
  {
    CrcSnoc(c, [], b0);
    assert [] + [b0] == [b0];
    CrcSnoc(c, [b0], b1);
    assert [b0] + [b1] == [b0, b1];
    CrcSnoc(c, [b0, b1], b2);
    assert [b0, b1] + [b2] == [b0, b1, b2];
    CrcSnoc(c, [b0, b1, b2], b3);
    assert [b0, b1, b2] + [b3] == [b0, b1, b2, b3];
  }

  /** The register values for the check message, byte by byte. */
  lemma CheckMessageSteps()
    ensures CrcByte(CrcByte(CrcByte(CrcByte(CrcInit, 0x31), 0x32), 0x33), 0x34) == 0x5349
    ensures CrcByte(CrcByte(CrcByte(CrcByte(0x5349, 0x35), 0x36), 0x37), 0x38) == 0xA12B
    ensures CrcByte(0xA12B, 0x39) == 0x29B1
  {
  }

  /** The catalogue check value of CRC-16/CCITT-FALSE: the CRC of ASCII "123456789" is 0x29B1. */
  lemma CrcCheckValue()
    ensures Crc16([0x31, 0x32, 0x33, 0x34, 0x35, 0x36, 0x37, 0x38, 0x39]) == 0x29B1
  {
    var a: seq<bv8> := [0x31, 0x32, 0x33, 0x34];
    var b: seq<bv8> := [0x35, 0x36, 0x37, 0x38];
    CheckMessageSteps();
    CrcOfFour(CrcInit, 0x31, 0x32, 0x33, 0x34);
    CrcOfFour(0x5349, 0x35, 0x36, 0x37, 0x38);
    CrcAppend(CrcInit, a, b);
    CrcSnoc(CrcInit, a + b, 0x39);
    assert a + b + [0x39] == [0x31, 0x32, 0x33, 0x34, 0x35, 0x36, 0x37, 0x38, 0x39];
  }

  /** Undoes one shift: the lowest bit of the result tells whether the polynomial was applied. */
  function CrcUnshift(r: bv16): bv16
  {
    if r & 1 != 0 then ((r ^ CrcPoly) >> 1) | 0x8000 else r >> 1
  }

  lemma CrcUnshiftShift(x: bv16)
    ensures CrcUnshift(CrcShift(x)) == x
  {
    ShiftedBack(x);
    if x & 0x8000 != 0 {
      PolyLowBit(x);
      XorPolyTwice(x << 1);
      TopBitSet(x);
    } else {
      ShiftedLowBit(x);
      TopBitClear(x);
    }
  }

  lemma ShiftedLowBit(x: bv16) ensures (x << 1) & 1 == 0 {}
  lemma PolyLowBit(x: bv16) ensures ((x << 1) ^ CrcPoly) & 1 == 1 {}
  lemma ShiftedBack(x: bv16) ensures (x << 1) >> 1 == x & 0x7FFF {}
  lemma TopBitClear(x: bv16) requires x & 0x8000 == 0 ensures x & 0x7FFF == x {}
  lemma TopBitSet(x: bv16) requires x & 0x8000 != 0 ensures (x & 0x7FFF) | 0x8000 == x {}
  lemma XorPolyTwice(a: bv16) ensures (a ^ CrcPoly) ^ CrcPoly == a {}

  lemma CrcShiftInjective(x: bv16, y: bv16)
    requires CrcShift(x) == CrcShift(y)
    ensures x == y
  {
    CrcUnshiftShift(x);
    CrcUnshiftShift(y);
  }

  lemma Shift8Injective(x: bv16, y: bv16)
    requires Shift8(x) == Shift8(y)
    ensures x == y
  {
    var s1x, s1y := CrcShift(x), CrcShift(y);
    var s2x, s2y := CrcShift(s1x), CrcShift(s1y);
    var s3x, s3y := CrcShift(s2x), CrcShift(s2y);
    var s4x, s4y := CrcShift(s3x), CrcShift(s3y);
    var s5x, s5y := CrcShift(s4x), CrcShift(s4y);
    var s6x, s6y := CrcShift(s5x), CrcShift(s5y);
    var s7x, s7y := CrcShift(s6x), CrcShift(s6y);
    CrcShiftInjective(s7x, s7y);
    CrcShiftInjective(s6x, s6y);
    CrcShiftInjective(s5x, s5y);
    CrcShiftInjective(s4x, s4y);
    CrcShiftInjective(s3x, s3y);
    CrcShiftInjective(s2x, s2y);
    CrcShiftInjective(s1x, s1y);
    CrcShiftInjective(x, y);
  }

  lemma CrcByteInjective(c1: bv16, c2: bv16, b: bv8)
    requires CrcByte(c1, b) == CrcByte(c2, b)
    ensures c1 == c2
  {
    Shift8Injective(c1 ^ ((b as bv16) << 8), c2 ^ ((b as bv16) << 8));
  }

  lemma CrcByteDistinguishes(c: bv16, x: bv8, y: bv8)
    requires CrcByte(c, x) == CrcByte(c, y)
    ensures x == y
  {
    Shift8Injective(c ^ ((x as bv16) << 8), c ^ ((y as bv16) << 8));
  }

  /** Two different starting registers never reach the same CRC over the same data. */
  lemma {:induction false} CrcFromInjective(c1: bv16, c2: bv16, data: seq<bv8>)
    requires CrcFrom(c1, data) == CrcFrom(c2, data)
    ensures c1 == c2
    decreases |data|
  {
    if data != [] {
      var pre := data[..|data| - 1];
      var x := data[|data| - 1];
      CrcByteInjective(CrcFrom(c1, pre), CrcFrom(c2, pre), x);
      CrcFromInjective(c1, c2, pre);
    }
  }

  /** The CRC detects every corruption of a single byte, wherever it sits in the message. */
  lemma CrcDetectsByteError(before: seq<bv8>, x: bv8, y: bv8, after: seq<bv8>)
    requires x != y
    ensures Crc16(before + [x] + after) != Crc16(before + [y] + after)
  {
    CrcAppend(CrcInit, before + [x], after);
    CrcAppend(CrcInit, before + [y], after);
    CrcSnoc(CrcInit, before, x);
    CrcSnoc(CrcInit, before, y);
    var c := CrcFrom(CrcInit, before);
    if Crc16(before + [x] + after) == Crc16(before + [y] + after) {
      CrcFromInjective(CrcByte(c, x), CrcByte(c, y), after);
      CrcByteDistinguishes(c, x, y);
      assert false;
    }
  }

  // ---------------------------------------------------------------------------
  // The 22-byte payload: serial number, then hardware revision and feature flags little-endian

  const SerialLen := 16
  const PayloadLen := 22

  function Zeros(n: nat): (z: seq<bv8>)
    ensures |z| == n && forall i :: 0 <= i < n ==> z[i] == 0
  {
    seq(n, i => 0)
  }

  /** `strlen`: the number of bytes before the first NUL, or all of them when there is none. */
  function StrLen(s: seq<bv8>): (n: nat)
    ensures n <= |s|
    ensures forall i :: 0 <= i < n ==> s[i] != 0
    ensures n < |s| ==> s[n] == 0
  {
    if s == [] || s[0] == 0 then 0 else 1 + StrLen(s[1..])
  }

  /** The serial-number field for a C string: at most its first 16 characters, padded with zeros. */
  function SerialBytes(serial: seq<bv8>): (r: seq<bv8>)
    ensures |r| == SerialLen
  {
    var n := if StrLen(serial) > SerialLen then SerialLen else StrLen(serial);
    serial[..n] + Zeros(SerialLen - n)
  }

  /** Reading the field back as a C string (16 bytes plus a terminating NUL) gives the first
      16 characters of the serial: the stored text is the serial, truncated, and nothing else. */
  lemma {:induction false} SerialBytesReadBack(serial: seq<bv8>)
    ensures var stored := SerialBytes(serial) + [0];
            var n := if StrLen(serial) > SerialLen then SerialLen else StrLen(serial);
            StrLen(stored) == n && stored[..n] == serial[..n]
  {
    var stored := SerialBytes(serial) + [0];
    var n := if StrLen(serial) > SerialLen then SerialLen else StrLen(serial);
    StrLenIs(stored, n);
  }

  /** `strlen` is the position of the first NUL. */
  lemma {:induction false} StrLenIs(s: seq<bv8>, n: nat)
    requires n < |s| && s[n] == 0 && forall i :: 0 <= i < n ==> s[i] != 0
    ensures StrLen(s) == n
    decreases n
  {
    if n > 0 {
      StrLenIs(s[1..], n - 1);
    }
  }

  function Payload(serial16: seq<bv8>, hwRev: bv16, flags: bv32): (p: seq<bv8>)
    requires |serial16| == SerialLen
  {
    serial16 + Le16(hwRev) + Le32(flags)
  }

  /** The payload layout: bytes 0..15 are the serial, 16..17 decode to the hardware revision
      and 18..21 to the feature flags; so two different field triples never share a payload. */
  lemma PayloadLayout(serial16: seq<bv8>, hwRev: bv16, flags: bv32)
    requires |serial16| == SerialLen
    ensures var p := Payload(serial16, hwRev, flags);
            |p| == PayloadLen && p[..16] == serial16
            && FromLe16(p[16..18]) == hwRev && FromLe32(p[18..22]) == flags
  {
    var p := Payload(serial16, hwRev, flags);
    assert p[16..18] == Le16(hwRev);
    assert p[18..22] == Le32(flags);
    Le16Decode(hwRev);
    Le32Decode(flags);
  }

  // ---------------------------------------------------------------------------
  // The eFuse fields and their stored bytes

  datatype Field = SerialNumber | HwRev | FeatureFlags | ProvisioningCrc16

  function Width(f: Field): (n: nat)
  {
    match f
    case SerialNumber => 16
    case HwRev => 2
    case FeatureFlags => 4
    case ProvisioningCrc16 => 2
  }

  /** The bytes of the four fields, little-endian for the numeric ones. */
  datatype Fuses = Fuses(serial: seq<bv8>, hwRev: seq<bv8>, flags: seq<bv8>, crc: seq<bv8>)
  {
    function Get(f: Field): seq<bv8>
    {
      match f
      case SerialNumber => serial
      case HwRev => hwRev
      case FeatureFlags => flags
      case ProvisioningCrc16 => crc
    }

    function Set(f: Field, v: seq<bv8>): Fuses
    {
      match f
      case SerialNumber => this.(serial := v)
      case HwRev => this.(hwRev := v)
      case FeatureFlags => this.(flags := v)
      case ProvisioningCrc16 => this.(crc := v)
    }
  }

  predicate WellFormed(m: Fuses)
  {
    |m.serial| == 16 && |m.hwRev| == 2 && |m.flags| == 4 && |m.crc| == 2
  }

  lemma GetWidth(m: Fuses, f: Field)
    requires WellFormed(m)
    ensures |m.Get(f)| == Width(f)
  {
  }

  lemma SetWellFormed(m: Fuses, f: Field, v: seq<bv8>)
    requires WellFormed(m) && |v| == Width(f)
    ensures WellFormed(m.Set(f, v)) && m.Set(f, v).Get(f) == v
  {
  }

  function Blank(): (m: Fuses)
    ensures WellFormed(m)
  {
    Fuses(Zeros(16), Zeros(2), Zeros(4), Zeros(2))
  }

  function OrBytes(a: seq<bv8>, b: seq<bv8>): (r: seq<bv8>)
    requires |a| == |b|
    ensures |r| == |a|
  {
    seq(|a|, i requires 0 <= i < |a| => a[i] | b[i])
  }

  /** `newer` keeps every bit that is set in `older`. */
  predicate BytesCover(newer: seq<bv8>, older: seq<bv8>)
  {
    |newer| == |older| && forall i :: 0 <= i < |older| ==> older[i] & !newer[i] == 0
  }

  predicate Covers(newer: Fuses, older: Fuses)
  {
    WellFormed(newer) && WellFormed(older)
    && BytesCover(newer.serial, older.serial) && BytesCover(newer.hwRev, older.hwRev)
    && BytesCover(newer.flags, older.flags) && BytesCover(newer.crc, older.crc)
  }

  lemma OrKeeps(a: bv8, b: bv8)
    ensures a & !(a | b) == 0
  {
  }

  lemma OrCovers(a: seq<bv8>, b: seq<bv8>)
    requires |a| == |b|
    ensures BytesCover(OrBytes(a, b), a)
  {
    forall i | 0 <= i < |a| ensures a[i] & !OrBytes(a, b)[i] == 0 {
      OrKeeps(a[i], b[i]);
    }
  }

  lemma SelfCover(a: bv8)
    ensures a & !a == 0
  {
  }

  lemma CoversRefl(m: Fuses)
    requires WellFormed(m)
    ensures Covers(m, m)
  {
    forall a | a in {m.serial, m.hwRev, m.flags, m.crc} ensures BytesCover(a, a) {
      forall i | 0 <= i < |a| ensures a[i] & !a[i] == 0 {
        SelfCover(a[i]);
      }
    }
  }

  /** Burning ORs the staged bits into every field, so no set bit is ever lost. */
  function Burn(m: Fuses, staged: Fuses): (r: Fuses)
    requires WellFormed(m) && WellFormed(staged)
    ensures Covers(r, m)
  {
    OrCovers(m.serial, staged.serial);
    OrCovers(m.hwRev, staged.hwRev);
    OrCovers(m.flags, staged.flags);
    OrCovers(m.crc, staged.crc);
    Fuses(OrBytes(m.serial, staged.serial), OrBytes(m.hwRev, staged.hwRev),
          OrBytes(m.flags, staged.flags), OrBytes(m.crc, staged.crc))
  }

  /** The stored payload, built the way the firmware rebuilds it after reading the fields back. */
  function StoredPayload(m: Fuses): seq<bv8>
    requires WellFormed(m)
  {
    Payload(m.serial, FromLe16(m.hwRev), FromLe32(m.flags))
  }

  function StoredCrc(m: Fuses): bv16
    requires WellFormed(m)
  {
    FromLe16(m.crc)
  }

  /** The four fields the firmware wants burned for a serial string, revision and flags. */
  function DesiredFields(serial: seq<bv8>, hwRev: bv16, flags: bv32): (m: Fuses)
    ensures WellFormed(m)
  {
    var s := SerialBytes(serial);
    Fuses(s, Le16(hwRev), Le32(flags), Le16(Crc16(Payload(s, hwRev, flags))))
  }

  /** The desired fields carry a CRC that matches their own payload. */
  lemma DesiredFieldsConsistent(serial: seq<bv8>, hwRev: bv16, flags: bv32)
    ensures var m := DesiredFields(serial, hwRev, flags);
            StoredPayload(m) == Payload(SerialBytes(serial), hwRev, flags)
            && StoredCrc(m) == Crc16(StoredPayload(m))
  {
    var s := SerialBytes(serial);
    Le16Decode(hwRev);
    Le32Decode(flags);
    Le16Decode(Crc16(Payload(s, hwRev, flags)));
  }

  // ---------------------------------------------------------------------------
  // Outcomes of the eFuse driver calls, given as inputs

  /** The error each driver call returns: the provisioned check's reads per field, the
      programming reads per field, batch begin, staging per field, commit. A field missing
      from a map reads or stages without error. */
  datatype Faults = Faults(checkReadErr: map<Field, EspErr>, readErr: map<Field, EspErr>,
                           beginErr: EspErr, stageErr: map<Field, EspErr>, commitErr: EspErr)

  /** The error of the provisioned check's read of field `f`. */
  function CheckReadErr(faults: Faults, f: Field): EspErr
  {
    if f in faults.checkReadErr then faults.checkReadErr[f] else EspOk
  }

  /** The error of the programming read of field `f`. */
  function ReadErr(faults: Faults, f: Field): EspErr
  {
    if f in faults.readErr then faults.readErr[f] else EspOk
  }

  function StageErr(faults: Faults, f: Field): EspErr
  {
    if f in faults.stageErr then faults.stageErr[f] else EspOk
  }

  /** The first error of a sequence of calls made in order, each only if the ones before succeeded. */
  function FirstErr(errs: seq<EspErr>): (e: EspErr)
    ensures e == EspOk <==> forall i :: 0 <= i < |errs| ==> errs[i] == EspOk
    ensures e != EspOk ==> exists i :: 0 <= i < |errs| && errs[i] == e
                                       && forall j :: 0 <= j < i ==> errs[j] == EspOk
  {
    if errs == [] then EspOk
    else if errs[0] != EspOk then errs[0]
    else
      var e := FirstErr(errs[1..]);
      assert e != EspOk ==> exists i :: 0 <= i < |errs[1..]| && errs[1..][i] == e
                                      && forall j :: 0 <= j < i ==> errs[1..][j] == EspOk;
      assert e != EspOk ==> exists i :: 1 <= i < |errs| && errs[i] == e
                                      && forall j :: 0 <= j < i ==> errs[j] == EspOk;
      e
  }

  lemma FirstErrOfFour(a: EspErr, b: EspErr, c: EspErr, d: EspErr)
    ensures FirstErr([a, b, c, d]) == if a != EspOk then a else if b != EspOk then b
                                      else if c != EspOk then c else d
  {
    assert [d][1..] == [];
    assert FirstErr([d]) == d;
    assert [c, d][1..] == [d];
    assert FirstErr([c, d]) == if c != EspOk then c else d;
    assert [b, c, d][1..] == [c, d];
    assert FirstErr([b, c, d]) == if b != EspOk then b else FirstErr([c, d]);
    assert [a, b, c, d][1..] == [b, c, d];
  }

  /** The error of the provisioned check's four field reads, made in field order. */
  function CheckReadsErr(faults: Faults): EspErr
  {
    FirstErr([CheckReadErr(faults, SerialNumber), CheckReadErr(faults, HwRev),
              CheckReadErr(faults, FeatureFlags), CheckReadErr(faults, ProvisioningCrc16)])
  }

  /** The error of the programming's four field reads, made in field order. */
  function ReadsErr(faults: Faults): EspErr
  {
    FirstErr([ReadErr(faults, SerialNumber), ReadErr(faults, HwRev),
              ReadErr(faults, FeatureFlags), ReadErr(faults, ProvisioningCrc16)])
  }

  // ---------------------------------------------------------------------------
  // Provisioned check

  /** The device looks provisioned iff every field reads, the stored CRC is non-zero, and it
      equals the CRC recomputed over the stored payload. */
  predicate Provisioned(m: Fuses, faults: Faults)
    requires WellFormed(m)
  {
    CheckReadsErr(faults) == EspOk && StoredCrc(m) != 0 && StoredCrc(m) == Crc16(StoredPayload(m))
  }

  // ---------------------------------------------------------------------------
  // Conflicts and deltas

  /** Reaching `want` from `cur` would need a set bit cleared. */
  predicate ByteConflict(cur: bv8, want: bv8)
  {
    cur & !want != 0
  }

  predicate HasConflict(cur: seq<bv8>, want: seq<bv8>)
    requires |cur| == |want|
  {
    exists i :: 0 <= i < |cur| && ByteConflict(cur[i], want[i])
  }

  /** The bits to stage: those wanted and not yet set. */
  function Delta(cur: seq<bv8>, want: seq<bv8>): (d: seq<bv8>)
    requires |cur| == |want|
    ensures |d| == |cur|
  {
    seq(|cur|, i requires 0 <= i < |cur| => want[i] & !cur[i])
  }

  lemma DeltaBits(c: bv8, w: bv8)
    ensures (w & !c) & c == 0 && (w & !c) & !w == 0
  {
  }

  /** A delta never restages a bit that is already burned and never stages an unwanted bit. */
  lemma DeltaOnlyNewBits(cur: seq<bv8>, want: seq<bv8>)
    requires |cur| == |want|
    ensures forall i :: 0 <= i < |cur| ==> Delta(cur, want)[i] & cur[i] == 0
    ensures forall i :: 0 <= i < |cur| ==> Delta(cur, want)[i] & !want[i] == 0
  {
    forall i | 0 <= i < |cur|
      ensures Delta(cur, want)[i] & cur[i] == 0 && Delta(cur, want)[i] & !want[i] == 0
    {
      DeltaBits(cur[i], want[i]);
    }
  }

  lemma ByteCompletes(c: bv8, w: bv8)
    requires c & !w == 0
    ensures c | (w & !c) == w
  {
  }

  /** Without a conflict, burning the delta over the current bytes gives exactly the wanted ones. */
  lemma DeltaCompletes(cur: seq<bv8>, want: seq<bv8>)
    requires |cur| == |want| && !HasConflict(cur, want)
    ensures OrBytes(cur, Delta(cur, want)) == want
  {
    forall i | 0 <= i < |cur| ensures OrBytes(cur, Delta(cur, want))[i] == want[i] {
      ByteCompletes(cur[i], want[i]);
    }
  }

  lemma ByteEqual(c: bv8, w: bv8)
    requires c & !w == 0 && w & !c == 0
    ensures c == w
  {
  }

  predicate NonZero(d: seq<bv8>)
  {
    exists i :: 0 <= i < |d| && d[i] != 0
  }

  /** Without a conflict and with nothing new to stage, the current bytes already are the wanted ones. */
  lemma NothingNewMeansEqual(cur: seq<bv8>, want: seq<bv8>)
    requires |cur| == |want| && !HasConflict(cur, want) && !NonZero(Delta(cur, want))
    ensures cur == want
  {
    forall i | 0 <= i < |cur| ensures cur[i] == want[i] {
      assert Delta(cur, want)[i] == 0;
      ByteEqual(cur[i], want[i]);
    }
  }

  /** Bytes never conflict with themselves and have nothing new to stage over themselves. */
  lemma SelfDelta(a: seq<bv8>)
    ensures !HasConflict(a, a) && !NonZero(Delta(a, a))
  {
    forall i | 0 <= i < |a| ensures !ByteConflict(a[i], a[i]) && Delta(a, a)[i] == 0 {
      SelfCover(a[i]);
    }
  }

  lemma NotNonZero(d: seq<bv8>)
    requires !NonZero(d)
    ensures d == Zeros(|d|)
  {
  }

  lemma ZeroOr(x: bv8)
    ensures 0 | x == x
  {
  }

  lemma OrZerosLeft(d: seq<bv8>)
    ensures OrBytes(Zeros(|d|), d) == d
  {
    forall i | 0 <= i < |d| ensures OrBytes(Zeros(|d|), d)[i] == d[i] {
      ZeroOr(d[i]);
    }
  }

  /** The conflict check over one field, as the firmware's loop runs it. */
  method ConflictExists(cur: seq<bv8>, want: seq<bv8>) returns (conflict: bool)
    requires |cur| == |want|
    ensures conflict == HasConflict(cur, want)
  {
    var i := 0;
    while i < |cur|
      invariant 0 <= i <= |cur|
      invariant forall j :: 0 <= j < i ==> !ByteConflict(cur[j], want[j])
    {
      if cur[i] & !want[i] != 0 {
        return true;
      }
      i := i + 1;
    }
    return false;
  }

  /** Builds one field's delta buffer byte by byte and notes whether any byte is non-zero. */
  method ComputeDelta(cur: seq<bv8>, want: seq<bv8>) returns (delta: seq<bv8>, need: bool)
    requires |cur| == |want|
    ensures delta == Delta(cur, want)
    ensures need == NonZero(delta)
  {
    delta := [];
    need := false;
    var i := 0;
    while i < |cur|
      invariant 0 <= i <= |cur|
      invariant |delta| == i
      invariant forall j :: 0 <= j < i ==> delta[j] == want[j] & !cur[j]
      invariant need == exists j :: 0 <= j < i && delta[j] != 0
    {
      delta := delta + [want[i] & !cur[i]];
      need := need || delta[i] != 0;
      i := i + 1;
    }
  }

  // ---------------------------------------------------------------------------
  // Programming, as a function of the store before the call

  datatype Outcome = Outcome(err: EspErr, fuses: Fuses)

  function DeltaMap(m: Fuses, want: Fuses): (d: Fuses)
    requires WellFormed(m) && WellFormed(want)
    ensures WellFormed(d)
  {
    Fuses(Delta(m.serial, want.serial), Delta(m.hwRev, want.hwRev),
          Delta(m.flags, want.flags), Delta(m.crc, want.crc))
  }

  /** Some field of `m` has a bit set that `want` lacks. */
  predicate AnyConflict(m: Fuses, want: Fuses)
    requires WellFormed(m) && WellFormed(want)
  {
    HasConflict(m.serial, want.serial) || HasConflict(m.hwRev, want.hwRev)
    || HasConflict(m.flags, want.flags) || HasConflict(m.crc, want.crc)
  }

  predicate AnyNeeded(d: Fuses)
  {
    NonZero(d.serial) || NonZero(d.hwRev) || NonZero(d.flags) || NonZero(d.crc)
  }

  /** Staging is attempted, in field order, only for the fields with new bits. */
  function StageCallErr(d: Fuses, faults: Faults, f: Field): EspErr
  {
    if NonZero(d.Get(f)) then StageErr(faults, f) else EspOk
  }

  function StagesErr(d: Fuses, faults: Faults): EspErr
  {
    FirstErr([StageCallErr(d, faults, SerialNumber), StageCallErr(d, faults, HwRev),
              StageCallErr(d, faults, FeatureFlags), StageCallErr(d, faults, ProvisioningCrc16)])
  }

  /** The result of `efuse_program_custom_fields` and the store after it. The checks run in
      the firmware's order: a missing serial, an already provisioned device, the four reads,
      a bit that would have to be cleared, nothing new to write, then batch begin, staging
      of the fields with new bits, and commit. Every outcome keeps each set bit set, and
      every error leaves the store as it was. */
  function ProgramSpec(m: Fuses, serial: Option<seq<bv8>>, hwRev: bv16, flags: bv32,
                       faults: Faults): (o: Outcome)
    requires WellFormed(m)
    ensures Covers(o.fuses, m)
    ensures o.err != EspOk ==> o.fuses == m
  {
    CoversRefl(m);
    if serial.None? then Outcome(ErrInvalidArg, m)
    else if Provisioned(m, faults) then Outcome(EspOk, m)
    else if ReadsErr(faults) != EspOk then Outcome(ReadsErr(faults), m)
    else
      var want := DesiredFields(serial.value, hwRev, flags);
      if AnyConflict(m, want) then Outcome(ErrInvalidState, m)
      else
        var d := DeltaMap(m, want);
        if !AnyNeeded(d) then Outcome(EspOk, m)
        else if faults.beginErr != EspOk then Outcome(faults.beginErr, m)
        else if StagesErr(d, faults) != EspOk then Outcome(StagesErr(d, faults), m)
        else if faults.commitErr != EspOk then Outcome(faults.commitErr, m)
        else Outcome(EspOk, Burn(m, d))
  }

  /** A successful call on a device that was not yet provisioned leaves exactly the desired
      bytes in all four fields, whether it had to burn anything or not. */
  lemma ProgramYieldsDesired(m: Fuses, serial: seq<bv8>, hwRev: bv16, flags: bv32, faults: Faults)
    requires WellFormed(m) && !Provisioned(m, faults)
    requires ProgramSpec(m, Some(serial), hwRev, flags, faults).err == EspOk
    ensures ProgramSpec(m, Some(serial), hwRev, flags, faults).fuses == DesiredFields(serial, hwRev, flags)
  {
    var want := DesiredFields(serial, hwRev, flags);
    var d := DeltaMap(m, want);
    if AnyNeeded(d) {
      DeltaCompletes(m.serial, want.serial);
      DeltaCompletes(m.hwRev, want.hwRev);
      DeltaCompletes(m.flags, want.flags);
      DeltaCompletes(m.crc, want.crc);
    } else {
      NothingNewMeansEqual(m.serial, want.serial);
      NothingNewMeansEqual(m.hwRev, want.hwRev);
      NothingNewMeansEqual(m.flags, want.flags);
      NothingNewMeansEqual(m.crc, want.crc);
    }
  }

  /** Programming is idempotent: after a successful call, the same call again succeeds and
      writes nothing, whatever the second call's batch begin, staging and commit would
      return, as long as its reads fail or succeed as the first call's did. */
  lemma ProgramIdempotent(m: Fuses, serial: seq<bv8>, hwRev: bv16, flags: bv32, faults: Faults,
                          again: Faults)
    requires WellFormed(m)
    requires ProgramSpec(m, Some(serial), hwRev, flags, faults).err == EspOk
    requires again.checkReadErr == faults.checkReadErr && again.readErr == faults.readErr
    ensures var m' := ProgramSpec(m, Some(serial), hwRev, flags, faults).fuses;
            ProgramSpec(m', Some(serial), hwRev, flags, again) == Outcome(EspOk, m')
  {
    assert CheckReadsErr(again) == CheckReadsErr(faults) && ReadsErr(again) == ReadsErr(faults);
    if !Provisioned(m, faults) {
      ProgramYieldsDesired(m, serial, hwRev, flags, faults);
      var want := DesiredFields(serial, hwRev, flags);
      SelfDelta(want.serial);
      SelfDelta(want.hwRev);
      SelfDelta(want.flags);
      SelfDelta(want.crc);
      assert !AnyNeeded(DeltaMap(want, want));
    }
  }

  /** After a successful call a later check reads the device as provisioned exactly when
      that check's reads succeed, unless the CRC of the desired payload happens to be 0x0000,
      which the check treats as "never programmed". */
  lemma ProvisionedAfterProgram(m: Fuses, serial: seq<bv8>, hwRev: bv16, flags: bv32, faults: Faults,
                                later: Faults)
    requires WellFormed(m)
    requires ProgramSpec(m, Some(serial), hwRev, flags, faults).err == EspOk
    requires Crc16(Payload(SerialBytes(serial), hwRev, flags)) != 0
    ensures Provisioned(ProgramSpec(m, Some(serial), hwRev, flags, faults).fuses, later)
            <==> CheckReadsErr(later) == EspOk
  {
    if !Provisioned(m, faults) {
      ProgramYieldsDesired(m, serial, hwRev, flags, faults);
      DesiredFieldsConsistent(serial, hwRev, flags);
    }
  }

  /** A device that looks provisioned is left alone even when it holds other values than
      the ones asked for. */
  lemma ProvisionedIsNeverRewritten(m: Fuses, serial: seq<bv8>, hwRev: bv16, flags: bv32, faults: Faults)
    requires WellFormed(m) && Provisioned(m, faults)
    ensures ProgramSpec(m, Some(serial), hwRev, flags, faults) == Outcome(EspOk, m)
  {
  }

  /** The conflict example: a burned 0b1010_0000 cannot become 0b0000_1111, because bit 7
      (and bit 5) would have to be cleared; a delta from 0b0000_0011 to 0b0000_1111 stages 0b0000_1100. */
  lemma ConflictExample()
    ensures HasConflict([0xA0], [0x0F])
    ensures !HasConflict([0x03], [0x0F]) && Delta([0x03], [0x0F]) == [0x0C]
  {
    assert ByteConflict([0xA0][0], [0x0F][0]);
    assert Delta([0x03], [0x0F])[0] == 0x0C;
  }

  // ---------------------------------------------------------------------------
  // The eFuse store

  /** An OR-only store of the four fields with a write batch: staged bits are burned together
      on commit, or dropped on cancel. Each driver call's error is given by the caller. */
  class EfuseStore {
    var burned: Fuses
    var staged: Fuses
    var batchOpen: bool

    predicate Valid()
      reads this
    {
      WellFormed(burned) && WellFormed(staged)
    }

    constructor (initial: Fuses)
      requires WellFormed(initial)
      ensures Valid() && burned == initial && staged == Blank() && !batchOpen
    {
      burned := initial;
      staged := Blank();
      batchOpen := false;
    }

    /** `esp_efuse_read_field_blob`: the field's bytes, or zeros when the read fails. */
    method ReadFieldBlob(f: Field, err: EspErr) returns (e: EspErr, value: seq<bv8>)
      requires Valid()
      ensures e == err && |value| == Width(f)
      ensures value == if err == EspOk then burned.Get(f) else Zeros(Width(f))
    {
      GetWidth(burned, f);
      e := err;
      value := if err == EspOk then burned.Get(f) else Zeros(Width(f));
    }

    /** `esp_efuse_batch_write_begin`. */
    method BatchWriteBegin(err: EspErr) returns (e: EspErr)
      requires Valid() && !batchOpen
      modifies this
      ensures Valid() && e == err && burned == old(burned)
      ensures staged == Blank() && batchOpen == (err == EspOk)
    {
      e := err;
      staged := Blank();
      batchOpen := err == EspOk;
    }

    /** `esp_efuse_write_field_blob` inside a batch: ORs the bits into the pending writes. */
    method WriteFieldBlob(f: Field, bits: seq<bv8>, err: EspErr) returns (e: EspErr)
      requires Valid() && batchOpen && |bits| == Width(f)
      modifies this
      ensures Valid() && e == err && burned == old(burned) && batchOpen
      ensures |old(staged).Get(f)| == |bits|
      ensures staged == if err == EspOk then old(staged).Set(f, OrBytes(old(staged).Get(f), bits))
                        else old(staged)
    {
      GetWidth(staged, f);
      e := err;
      if err == EspOk {
        SetWellFormed(staged, f, OrBytes(staged.Get(f), bits));
        staged := staged.Set(f, OrBytes(staged.Get(f), bits));
      }
    }

    /** `esp_efuse_batch_write_commit`: on success every staged bit is burned; a failed commit
        burns nothing. Either way the batch is over and no set bit is lost. */
    method BatchWriteCommit(err: EspErr) returns (e: EspErr)
      requires Valid() && batchOpen
      modifies this
      ensures Valid() && e == err && !batchOpen && staged == Blank()
      ensures burned == if err == EspOk then Burn(old(burned), old(staged)) else old(burned)
      ensures Covers(burned, old(burned))
    {
      e := err;
      CoversRefl(burned);
      if err == EspOk {
        burned := Burn(burned, staged);
      }
      staged := Blank();
      batchOpen := false;
    }

    /** `esp_efuse_batch_write_cancel`: the pending writes are dropped. */
    method BatchWriteCancel()
      requires Valid() && batchOpen
      modifies this
      ensures Valid() && !batchOpen && staged == Blank() && burned == old(burned)
    {
      staged := Blank();
      batchOpen := false;
    }
  }

  // ---------------------------------------------------------------------------
  // The firmware routines

  /** CRC of a payload, computed by the loop over a buffer holding it. */
  method PayloadCrc(payload: seq<bv8>) returns (crc: bv16)
    ensures crc == Crc16(payload)
  {
    var buf := new bv8[|payload|](i requires 0 <= i < |payload| => payload[i]);
    assert buf[..] == payload;
    crc := Crc16CcittFalse(buf);
  }

  /** `efuse_is_provisioned`: true iff the four reads succeed and the stored CRC is non-zero
      and matches the recomputed one. The optional out-flag always ends equal to the result. */
  method IsProvisioned(store: EfuseStore, faults: Faults) returns (provisioned: bool, crcOk: bool)
    requires store.Valid()
    ensures provisioned == Provisioned(store.burned, faults)
    ensures crcOk == provisioned
  {
    crcOk := false;
    FirstErrOfFour(CheckReadErr(faults, SerialNumber), CheckReadErr(faults, HwRev),
                   CheckReadErr(faults, FeatureFlags), CheckReadErr(faults, ProvisioningCrc16));
    var err, serialRaw := store.ReadFieldBlob(SerialNumber, CheckReadErr(faults, SerialNumber));
    if err != EspOk {
      return false, crcOk;
    }
    var hwRaw;
    err, hwRaw := store.ReadFieldBlob(HwRev, CheckReadErr(faults, HwRev));
    if err != EspOk {
      return false, crcOk;
    }
    var flagsRaw;
    err, flagsRaw := store.ReadFieldBlob(FeatureFlags, CheckReadErr(faults, FeatureFlags));
    if err != EspOk {
      return false, crcOk;
    }
    var crcRaw;
    err, crcRaw := store.ReadFieldBlob(ProvisioningCrc16, CheckReadErr(faults, ProvisioningCrc16));
    if err != EspOk {
      return false, crcOk;
    }
    var stored := FromLe16(crcRaw);
    var recomputed := PayloadCrc(Payload(serialRaw, FromLe16(hwRaw), FromLe32(flagsRaw)));
    var ok := stored != 0 && stored == recomputed;
    crcOk := ok;
    return ok, crcOk;
  }

  /** The four reads of the current field values, in field order, stopping at the first error.
      The numeric fields go through their integer value and back to little-endian bytes, as
      the firmware converts them for the bitwise checks. */
  method ReadCurrent(store: EfuseStore, faults: Faults) returns (err: EspErr, cur: Fuses)
    requires store.Valid()
    ensures err == ReadsErr(faults)
    ensures err == EspOk ==> cur == store.burned
  {
    FirstErrOfFour(ReadErr(faults, SerialNumber), ReadErr(faults, HwRev),
                   ReadErr(faults, FeatureFlags), ReadErr(faults, ProvisioningCrc16));
    cur := Blank();
    var curSerial, curHwRaw, curFlagsRaw, curCrcRaw;
    err, curSerial := store.ReadFieldBlob(SerialNumber, ReadErr(faults, SerialNumber));
    if err != EspOk {
      return;
    }
    err, curHwRaw := store.ReadFieldBlob(HwRev, ReadErr(faults, HwRev));
    if err != EspOk {
      return;
    }
    err, curFlagsRaw := store.ReadFieldBlob(FeatureFlags, ReadErr(faults, FeatureFlags));
    if err != EspOk {
      return;
    }
    err, curCrcRaw := store.ReadFieldBlob(ProvisioningCrc16, ReadErr(faults, ProvisioningCrc16));
    if err != EspOk {
      return;
    }
    Le16Encode(curHwRaw);
    Le32Encode(curFlagsRaw);
    Le16Encode(curCrcRaw);
    cur := Fuses(curSerial, Le16(FromLe16(curHwRaw)), Le32(FromLe32(curFlagsRaw)),
                 Le16(FromLe16(curCrcRaw)));
  }

  /** Stages one field's new bits when it has any; a staging error cancels the batch. */
  method StageField(store: EfuseStore, f: Field, bits: seq<bv8>, need: bool, faults: Faults)
    returns (err: EspErr)
    requires store.Valid() && store.batchOpen && |bits| == Width(f)
    requires need == NonZero(bits) && store.staged.Get(f) == Zeros(Width(f))
    modifies store
    ensures store.Valid() && store.burned == old(store.burned)
    ensures err == if need then StageErr(faults, f) else EspOk
    ensures err == EspOk ==> store.batchOpen && store.staged == old(store.staged).Set(f, bits)
    ensures err != EspOk ==> !store.batchOpen
  {
    err := EspOk;
    if need {
      err := store.WriteFieldBlob(f, bits, StageErr(faults, f));
      if err != EspOk {
        store.BatchWriteCancel();
        return;
      }
      OrZerosLeft(bits);
    } else {
      NotNonZero(bits);
      assert old(store.staged).Set(f, bits) == old(store.staged);
    }
  }

  /** Stages, in field order, each field whose flag says it has new bits, stopping (with the
      batch cancelled) at the first staging error. */
  method StageDeltas(store: EfuseStore, d: Fuses, needSerial: bool, needHw: bool,
                     needFlags: bool, needCrc: bool, faults: Faults) returns (err: EspErr)
    requires store.Valid() && store.batchOpen && store.staged == Blank() && WellFormed(d)
    requires needSerial == NonZero(d.serial) && needHw == NonZero(d.hwRev)
    requires needFlags == NonZero(d.flags) && needCrc == NonZero(d.crc)
    modifies store
    ensures store.Valid() && store.burned == old(store.burned)
    ensures err == StagesErr(d, faults)
    ensures err == EspOk ==> store.batchOpen && store.staged == d
    ensures err != EspOk ==> !store.batchOpen
  {
    FirstErrOfFour(StageCallErr(d, faults, SerialNumber), StageCallErr(d, faults, HwRev),
                   StageCallErr(d, faults, FeatureFlags), StageCallErr(d, faults, ProvisioningCrc16));
    err := StageField(store, SerialNumber, d.serial, needSerial, faults);
    if err != EspOk {
      return;
    }
    err := StageField(store, HwRev, d.hwRev, needHw, faults);
    if err != EspOk {
      return;
    }
    err := StageField(store, FeatureFlags, d.flags, needFlags, faults);
    if err != EspOk {
      return;
    }
    err := StageField(store, ProvisioningCrc16, d.crc, needCrc, faults);
  }

  /** Opens a batch, stages the new bits and commits them. */
  method StageAndCommit(store: EfuseStore, d: Fuses, needSerial: bool, needHw: bool,
                        needFlags: bool, needCrc: bool, faults: Faults) returns (err: EspErr)
    requires store.Valid() && !store.batchOpen && WellFormed(d)
    requires needSerial == NonZero(d.serial) && needHw == NonZero(d.hwRev)
    requires needFlags == NonZero(d.flags) && needCrc == NonZero(d.crc)
    modifies store
    ensures store.Valid() && !store.batchOpen
    ensures err == (if faults.beginErr != EspOk then faults.beginErr
                    else if StagesErr(d, faults) != EspOk then StagesErr(d, faults)
                    else faults.commitErr)
    ensures store.burned == if err == EspOk then Burn(old(store.burned), d) else old(store.burned)
  {
    err := store.BatchWriteBegin(faults.beginErr);
    if err != EspOk {
      return;
    }
    err := StageDeltas(store, d, needSerial, needHw, needFlags, needCrc, faults);
    if err != EspOk {
      return;
    }
    err := store.BatchWriteCommit(faults.commitErr);
  }

  /** `efuse_program_custom_fields` against the store: the result and the new store are those
      of `ProgramSpec`, and the batch is closed again whatever happens. */
  method ProgramCustomFields(store: EfuseStore, serial: Option<seq<bv8>>, hwRev: bv16, flags: bv32,
                             faults: Faults) returns (err: EspErr)
    requires store.Valid() && !store.batchOpen
    modifies store
    ensures store.Valid() && !store.batchOpen
    ensures Outcome(err, store.burned) == ProgramSpec(old(store.burned), serial, hwRev, flags, faults)
  {
    if serial.None? {
      return ErrInvalidArg;
    }
    var provisioned, crcOk := IsProvisioned(store, faults);
    if provisioned && crcOk {
      return EspOk;
    }

    var serialField := SerialBytes(serial.value);
    var desiredCrc := PayloadCrc(Payload(serialField, hwRev, flags));
    var want := Fuses(serialField, Le16(hwRev), Le32(flags), Le16(desiredCrc));
    assert want == DesiredFields(serial.value, hwRev, flags);

    var cur;
    err, cur := ReadCurrent(store, faults);
    if err != EspOk {
      return;
    }

    var conflict := ConflictExists(cur.serial, want.serial);
    if conflict {
      return ErrInvalidState;
    }
    conflict := ConflictExists(cur.hwRev, want.hwRev);
    if conflict {
      return ErrInvalidState;
    }
    conflict := ConflictExists(cur.flags, want.flags);
    if conflict {
      return ErrInvalidState;
    }
    conflict := ConflictExists(cur.crc, want.crc);
    if conflict {
      return ErrInvalidState;
    }

    var serialDelta, needSerial := ComputeDelta(cur.serial, want.serial);
    var hwDelta, needHw := ComputeDelta(cur.hwRev, want.hwRev);
    var flagsDelta, needFlags := ComputeDelta(cur.flags, want.flags);
    var crcDelta, needCrc := ComputeDelta(cur.crc, want.crc);
    if !needSerial && !needHw && !needFlags && !needCrc {
      return EspOk;
    }
    err := StageAndCommit(store, Fuses(serialDelta, hwDelta, flagsDelta, crcDelta),
                          needSerial, needHw, needFlags, needCrc, faults);
  }
}
