/** Shared vocabulary of the firmware models: ESP-IDF status codes, little-endian
    byte encodings of fixed-width integers, and the two text formats the firmware
    prints (decimal numbers and two-digit hexadecimal bytes). */
module Common {

  /** An `esp_err_t`: zero is success, every other value is an error code. */
  type EspErr = int

  const EspOk: EspErr := 0
  const EspFail: EspErr := -1
  const ErrNoMem: EspErr := 0x101
  const ErrInvalidArg: EspErr := 0x102
  const ErrInvalidState: EspErr := 0x103
  const ErrInvalidSize: EspErr := 0x104
  const ErrTimeout: EspErr := 0x107

  const U16Mod: int := 0x1_0000
  const U32Mod: int := 0x1_0000_0000

  datatype Option<+T> = None | Some(value: T)

  // ---------------------------------------------------------------------------
  // Little-endian encodings

  function Le16(x: bv16): (r: seq<bv8>)
  {
    [(x & 0xFF) as bv8, (x >> 8) as bv8]
  }

  function Le32(x: bv32): (r: seq<bv8>)
  {
    [(x & 0xFF) as bv8, ((x >> 8) & 0xFF) as bv8, ((x >> 16) & 0xFF) as bv8, (x >> 24) as bv8]
  }

  function FromLe16(b: seq<bv8>): (x: bv16)
    requires |b| == 2
  {
    (b[0] as bv16) | ((b[1] as bv16) << 8)
  }

  function FromLe32(b: seq<bv8>): (x: bv32)
    requires |b| == 4
  {
    (b[0] as bv32) | ((b[1] as bv32) << 8) | ((b[2] as bv32) << 16) | ((b[3] as bv32) << 24)
  }

  /** Decoding an encoded 16-bit value gives it back. */
  lemma Le16Decode(x: bv16)
    ensures FromLe16(Le16(x)) == x
  {
    var e := Le16(x);
    assert e[0] == (x & 0xFF) as bv8 && e[1] == (x >> 8) as bv8;
    Join16(x);
  }

  /** Every pair of bytes is the encoding of the value it decodes to. */
  lemma Le16Encode(b: seq<bv8>)
    requires |b| == 2
    ensures Le16(FromLe16(b)) == b
  {
    Split16(b[0], b[1]);
  }

  lemma Join16(x: bv16)
    ensures ((x & 0xFF) as bv8 as bv16) | (((x >> 8) as bv8 as bv16) << 8) == x
  {
  }

  lemma Split16(b0: bv8, b1: bv8)
    ensures (((b0 as bv16) | ((b1 as bv16) << 8)) & 0xFF) as bv8 == b0
    ensures (((b0 as bv16) | ((b1 as bv16) << 8)) >> 8) as bv8 == b1
  {
  }

  /** Decoding an encoded 32-bit value gives it back. */
  lemma Le32Decode(x: bv32)
    ensures FromLe32(Le32(x)) == x
  {
    var e := Le32(x);
    assert e[0] == (x & 0xFF) as bv8 && e[1] == ((x >> 8) & 0xFF) as bv8;
    assert e[2] == ((x >> 16) & 0xFF) as bv8 && e[3] == (x >> 24) as bv8;
    Join32(x);
  }

  /** Every four bytes are the encoding of the value they decode to. */
  lemma Le32Encode(b: seq<bv8>)
    requires |b| == 4
    ensures Le32(FromLe32(b)) == b
  {
    Split32(b[0], b[1], b[2], b[3]);
  }

  lemma Join32(x: bv32)
    ensures ((x & 0xFF) as bv8 as bv32) | ((((x >> 8) & 0xFF) as bv8 as bv32) << 8)
          | ((((x >> 16) & 0xFF) as bv8 as bv32) << 16) | (((x >> 24) as bv8 as bv32) << 24) == x
  {
  }

  lemma Split32(b0: bv8, b1: bv8, b2: bv8, b3: bv8)
    ensures var y := (b0 as bv32) | ((b1 as bv32) << 8) | ((b2 as bv32) << 16) | ((b3 as bv32) << 24);
      (y & 0xFF) as bv8 == b0 && ((y >> 8) & 0xFF) as bv8 == b1
      && ((y >> 16) & 0xFF) as bv8 == b2 && (y >> 24) as bv8 == b3
  {
  }

  // ---------------------------------------------------------------------------
  // Decimal text, as printed by `%u` / `%d` / PRIu32

  function DigitChar(d: nat): (c: char)
    requires d < 10
  {
    ['0', '1', '2', '3', '4', '5', '6', '7', '8', '9'][d]
  }

  predicate IsDigit(c: char)
  {
    '0' <= c <= '9'
  }

  function DigitValue(c: char): (d: nat)
    requires IsDigit(c)
  {
    (c as int) - ('0' as int)
  }

  /** `%u` of a non-negative number: its decimal digits, most significant first, no leading zeros. */
  function Decimal(n: nat): (s: seq<char>)
    decreases n
  {
    if n < 10 then [DigitChar(n)] else Decimal(n / 10) + [DigitChar(n % 10)]
  }

  /** The value a string of decimal digits denotes. */
  function DecimalValue(s: seq<char>): (n: nat)
    requires forall i :: 0 <= i < |s| ==> IsDigit(s[i])
  {
    if s == [] then 0 else 10 * DecimalValue(s[..|s| - 1]) + DigitValue(s[|s| - 1])
  }

  lemma DigitRoundTrip(d: nat)
    requires d < 10
    ensures IsDigit(DigitChar(d)) && DigitValue(DigitChar(d)) == d
    ensures d > 0 ==> DigitChar(d) != '0'
  {
  }

  /** The decimal text of n is a non-empty digit string without a leading zero that
      reads back as n. */
  lemma {:induction false} DecimalRoundTrip(n: nat)
    ensures |Decimal(n)| >= 1
    ensures forall i :: 0 <= i < |Decimal(n)| ==> IsDigit(Decimal(n)[i])
    ensures |Decimal(n)| > 1 ==> Decimal(n)[0] != '0'
    ensures DecimalValue(Decimal(n)) == n
    decreases n
  {
    if n < 10 {
      DigitRoundTrip(n);
      assert Decimal(n)[..0] == [];
    } else {
      DecimalRoundTrip(n / 10);
      DigitRoundTrip(n % 10);
      var s := Decimal(n);
      assert s == Decimal(n / 10) + [DigitChar(n % 10)];
      assert s[0] == Decimal(n / 10)[0];
      assert s[..|s| - 1] == Decimal(n / 10);
      assert s[|s| - 1] == DigitChar(n % 10);
    }
  }

  // ---------------------------------------------------------------------------
  // Hexadecimal bytes, as printed by `%02X` and read by `%2x`

  function UpperHexDigit(d: bv8): (c: char)
    requires d < 16
  {
    ['0', '1', '2', '3', '4', '5', '6', '7', '8', '9', 'A', 'B', 'C', 'D', 'E', 'F'][d as int]
  }

  /** `%02X` of a byte: exactly two upper-case hexadecimal digits. */
  function Hex2(b: bv8): (s: seq<char>)
  {
    [UpperHexDigit(b >> 4), UpperHexDigit(b & 0xF)]
  }

  /** The value of one hexadecimal digit of either case, or None for any other character. */
  function HexValue(c: char): (d: Option<bv8>)
  {
    if '0' <= c <= '9' then Some(((c as int) - ('0' as int)) as bv8)
    else if 'a' <= c <= 'f' then Some(((c as int) - ('a' as int) + 10) as bv8)
    else if 'A' <= c <= 'F' then Some(((c as int) - ('A' as int) + 10) as bv8)
    else None
  }

  lemma HexValueOfUpper(d: bv8)
    requires d < 16
    ensures HexValue(UpperHexDigit(d)) == Some(d)
  {
  }

  // ---------------------------------------------------------------------------
  // C strings (NUL-terminated)

  /** The text of a C string held in `s`: everything before the first NUL. */
  function CStr(s: seq<char>): (r: seq<char>)
    ensures r <= s && (forall k :: 0 <= k < |r| ==> r[k] != Nul) && (|r| < |s| ==> s[|r|] == Nul)
  {
    if s == [] || s[0] == Nul then [] else [s[0]] + CStr(s[1..])
  }

  /** Text without a NUL is its own C string. */
  lemma CStrOfPlain(s: seq<char>)
    requires forall k :: 0 <= k < |s| ==> s[k] != Nul
    ensures CStr(s) == s
  {
    if s != [] {
      CStrOfPlain(s[1..]);
    }
  }

  const Nul: char := 0 as char

  /** A buffer that starts with `s` and a NUL holds the C string of `s`. */
  lemma CStrOfPrefixNul(s: seq<char>, t: seq<char>)
    requires |s| < |t| && t[..|s| + 1] == s + [Nul]
    ensures CStr(t) == CStr(s)
    decreases |s|
  {
    if s != [] && s[0] != Nul {
      assert t[1..][..|s| - 1 + 1] == s[1..] + [Nul];
      CStrOfPrefixNul(s[1..], t[1..]);
    }
  }

  // ---------------------------------------------------------------------------
  // Lengths of decimal text

  /** A number below 10^k has at most k decimal digits. */
  lemma {:induction false} DecimalLength(n: nat, k: nat)
    requires n < Pow10(k) && k >= 1
    ensures |Decimal(n)| <= k
    decreases k
  {
    if n >= 10 {
      DecimalLength(n / 10, k - 1);
    }
  }

  function Pow10(k: nat): (p: nat)
    ensures p >= 1
  {
    if k == 0 then 1 else 10 * Pow10(k - 1)
  }

  /** A 32-bit unsigned value prints in at most ten digits. */
  lemma U32DecimalLength(n: nat)
    requires n < U32Mod
    ensures |Decimal(n)| <= 10
  {
    assert Pow10(10) == 10000000000;
    DecimalLength(n, 10);
  }

  // ---------------------------------------------------------------------------
  // Small facts the loop proofs use

  /** The first part of a concatenation is its prefix of that length. */
  lemma PrefixOfConcat<T>(a: seq<T>, b: seq<T>)
    ensures (a + b)[..|a|] == a
  {
  }

  /** A slice that starts where the first part of a concatenation ends lies in the
      second part. */
  lemma SliceAfter<T>(a: seq<T>, b: seq<T>, k: nat)
    requires k <= |b|
    ensures (a + b)[|a|..|a| + k] == b[..k]
  {
  }

  /** The last `k` elements of a concatenation are those of its second part. */
  lemma SuffixOfConcat<T>(a: seq<T>, b: seq<T>, k: nat)
    requires k <= |b|
    ensures (a + b)[|a + b| - k..] == b[|b| - k..]
  {
  }

  /** Regrouping a concatenation, stated on its own so that a loop's proof does not
      have to search for it. */
  lemma ConcatAssoc<T>(a: seq<T>, b: seq<T>, c: seq<T>)
    ensures a + (b + c) == (a + b) + c
  {
  }

  /** Adding to a 32-bit counter in two steps is adding the sum once. */
  lemma ModAddU32(a: nat, x: nat, y: nat)
    ensures ((a + x) % U32Mod + y) % U32Mod == (a + x + y) % U32Mod
  {
  }
}
