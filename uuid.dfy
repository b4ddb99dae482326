/**
 * The version 4 UUIDs of Lib/Graphing/UUID.js: sixteen seed bytes, with
 * the version and variant bits of RFC 4122 (sections 4.1.3 and 4.1.1)
 * stamped into bytes 6 and 8, written as 32 lowercase hexadecimal digits
 * in groups of 8, 4, 4, 4 and 12 (the layout of section 3 of RFC 4122).
 * The seed is an input: where the bytes come from is not modelled.
 */
module Uuid {

  // ----- Hexadecimal -----

  /** The lowercase hexadecimal digit of `n`. */
  function HexDigit(n: nat): (c: char)
    requires n < 16
    ensures IsHexDigit(c)
  {
    if n < 10 then ('0' as int + n) as char else ('a' as int + n - 10) as char
  }

  /** A character `toString(16)` writes. */
  predicate IsHexDigit(c: char) {
    '0' <= c <= '9' || 'a' <= c <= 'f'
  }

  /** The value of a hexadecimal digit, and 0 for any other character. */
  function HexValue(c: char): (n: nat)
    ensures n < 16
  {
    if '0' <= c <= '9' then c as int - '0' as int
    else if 'a' <= c <= 'f' then c as int - 'a' as int + 10
    else 0
  }

  lemma DigitValue(n: nat)
    requires n < 16
    ensures HexValue(HexDigit(n)) == n
  {
  }

  /** `n.toString(16)`: the hexadecimal digits of `n`, most significant first, without leading zeros. */
  function ToHex(n: nat): (s: string)
    ensures |s| > 0
    decreases n
  {
    if n < 16 then [HexDigit(n)] else ToHex(n / 16) + [HexDigit(n % 16)]
  }

  /** Two digits, the high nibble first. */
  function Hex(b: bv8): (s: string)
    ensures |s| == 2
  {
    TwoDigits(b as int)
  }

  /** The two digits of a number below 256, the high one first. */
  function TwoDigits(n: nat): (s: string)
    requires n < 256
    ensures |s| == 2
  {
    [HexDigit(n / 16), HexDigit(n % 16)]
  }

  /** `(j + 0x100).toString(16).substr(1)` is the two-digit hexadecimal of `j`: the leading 1 is dropped. */
  lemma PaddedHex(j: nat)
    requires j < 256
    ensures ToHex(j + 256)[1..] == TwoDigits(j)
  {
    var hi, lo := j / 16, j % 16;
    Digits(j + 256, 16 + hi, lo);
    Digits(16 + hi, 1, hi);
    assert ToHex(16 + hi) == [HexDigit(1), HexDigit(hi)];
    assert ToHex(j + 256) == [HexDigit(1)] + TwoDigits(j);
  }

  /** Division by 16 splits a number into its quotient and its last digit. */
  lemma Digits(n: nat, q: nat, r: nat)
    requires n == 16 * q + r && r < 16
    ensures n / 16 == q && n % 16 == r
  {
  }

  /** The `byteToHex` table: entry `j` is `(j + 0x100).toString(16).substr(1)`. */
  function Table(): (t: seq<string>)
    ensures |t| == 256
  {
    seq(256, j requires 0 <= j < 256 => ToHex(j + 256)[1..])
  }

  /** Every entry of the table is its index in two lowercase hexadecimal digits. */
  lemma TableEntries(b: bv8)
    ensures Table()[b as int] == Hex(b)
  {
    PaddedHex(b as int);
  }

  /** The two digits read back give the byte. */
  lemma HexValues(b: bv8)
    ensures IsHexDigit(Hex(b)[0]) && IsHexDigit(Hex(b)[1])
    ensures HexValue(Hex(b)[0]) * 16 + HexValue(Hex(b)[1]) == b as int
  {
    DigitValue(b as int / 16);
    DigitValue(b as int % 16);
  }

  /** The module-level `byteToHex` array, empty until the first UUID is written. */
  class HexTable {
    var entries: seq<string>

    ghost predicate Valid()
      reads this
    {
      entries == [] || entries == Table()
    }

    constructor ()
      ensures Valid() && entries == []
    {
      entries := [];
    }

    /** Fills the table when it is empty, and leaves a filled table as it is. */
    method Fill()
      requires Valid()
      modifies this
      ensures entries == Table()
      ensures old(entries) != [] ==> entries == old(entries)
    {
      if |entries| == 0 {
        var j := 0;
        while j < 256
          invariant 0 <= j <= 256
          invariant |entries| == j
          invariant forall k :: 0 <= k < j ==> entries[k] == ToHex(k + 256)[1..]
        {
          entries := entries + [ToHex(j + 256)[1..]];
          j := j + 1;
        }
      }
    }
  }

  // ----- The string form -----

  /** Whether a dash comes before byte `k`: the groups after the first start at bytes 4, 6, 8 and 10. */
  predicate DashBefore(k: nat) {
    k == 4 || k == 6 || k == 8 || k == 10
  }

  /** The dashes among the first `i` bytes. */
  function Dashes(i: nat): (d: nat)
    ensures d <= 4
  {
    (if 4 < i then 1 else 0) + (if 6 < i then 1 else 0) + (if 8 < i then 1 else 0) + (if 10 < i then 1 else 0)
  }

  /** Where the digits of byte `k` start. */
  function Pos(k: nat): nat {
    2 * k + Dashes(k + 1)
  }

  /** The first `i` bytes written out, each group after the first preceded by a dash. */
  function Written(bytes: seq<bv8>, i: nat): (s: string)
    requires i <= |bytes|
    ensures |s| == 2 * i + Dashes(i)
  {
    if i == 0 then ""
    else Written(bytes, i - 1) + (if DashBefore(i - 1) then "-" else "") + Hex(bytes[i - 1])
  }

  /** `bytesToUUID`: the sixteen bytes in order, in groups of 4, 2, 2, 2 and 6 bytes joined by dashes. */
  function Format(bytes: seq<bv8>): (s: string)
    requires |bytes| == 16
    ensures |s| == 36
  {
    Written(bytes, 16)
  }

  lemma {:induction false} WrittenPrefix(bytes: seq<bv8>, i: nat, j: nat)
    requires i <= j <= |bytes|
    ensures Written(bytes, i) <= Written(bytes, j)
    decreases j
  {
    if i < j {
      WrittenPrefix(bytes, i, j - 1);
    }
  }

  /** Byte `k` is written as two digits at `Pos(k)`. */
  lemma FormatAt(bytes: seq<bv8>, k: nat)
    requires |bytes| == 16 && k < 16
    ensures Format(bytes)[Pos(k)] == Hex(bytes[k])[0] && Format(bytes)[Pos(k) + 1] == Hex(bytes[k])[1]
  {
    WrittenPrefix(bytes, k + 1, 16);
    var w := Written(bytes, k + 1);
    assert w[Pos(k)] == Hex(bytes[k])[0] && w[Pos(k) + 1] == Hex(bytes[k])[1];
  }

  /** The groups are joined by dashes at indexes 8, 13, 18 and 23. */
  lemma FormatDashes(bytes: seq<bv8>)
    requires |bytes| == 16
    ensures var s := Format(bytes); s[8] == '-' && s[13] == '-' && s[18] == '-' && s[23] == '-'
  {
    var s := Format(bytes);
    forall k: nat | DashBefore(k)
      ensures s[Pos(k) - 1] == '-'
    {
      WrittenPrefix(bytes, k + 1, 16);
      assert Written(bytes, k + 1)[Pos(k) - 1] == '-';
    }
    assert Pos(4) - 1 == 8 && Pos(6) - 1 == 13 && Pos(8) - 1 == 18 && Pos(10) - 1 == 23;
  }

  /** The bytes a UUID string spells, two digits at each byte's place. */
  function Parse(s: string): (bytes: seq<bv8>)
    requires |s| == 36
    ensures |bytes| == 16
  {
    seq(16, k requires 0 <= k < 16 => (HexValue(s[Pos(k)]) * 16 + HexValue(s[Pos(k) + 1])) as bv8)
  }

  /** The string spells exactly the bytes it was written from. */
  lemma ParseFormat(bytes: seq<bv8>)
    requires |bytes| == 16
    ensures Parse(Format(bytes)) == bytes
  {
    forall k | 0 <= k < 16
      ensures Parse(Format(bytes))[k] == bytes[k]
    {
      FormatAt(bytes, k);
      HexValues(bytes[k]);
    }
  }

  /** Every digit of the string is a lowercase hexadecimal digit. */
  lemma FormatDigits(bytes: seq<bv8>, k: nat)
    requires |bytes| == 16 && k < 16
    ensures IsHexDigit(Format(bytes)[Pos(k)]) && IsHexDigit(Format(bytes)[Pos(k) + 1])
  {
    FormatAt(bytes, k);
  }

  // ----- Version and variant -----

  lemma VersionMask(b: bv8)
    ensures ((b & 0x0f) | 0x40) as int == b as int % 16 + 0x40
  {
  }

  lemma VariantMask(b: bv8)
    ensures ((b & 0x3f) | 0x80) as int == b as int % 64 + 0x80
  {
  }

  /**
   * The seed with the version of section 4.1.3 of RFC 4122 (high nibble 4)
   * in byte 6, which keeps its low nibble, and the variant of section 4.1.1
   * (top bits 10) in byte 8, which keeps its low six bits.
   */
  function Stamped(seed: seq<bv8>): (r: seq<bv8>)
    requires |seed| == 16
    ensures |r| == 16
    ensures forall i :: 0 <= i < 16 && i != 6 && i != 8 ==> r[i] == seed[i]
    ensures r[6] as int / 16 == 4 && r[6] as int % 16 == seed[6] as int % 16
    ensures r[8] as int / 64 == 2 && r[8] as int % 64 == seed[8] as int % 64
  {
    VersionMask(seed[6]);
    VariantMask(seed[8]);
    seed[6 := (seed[6] & 0x0f) | 0x40][8 := (seed[8] & 0x3f) | 0x80]
  }

  /** A stamped UUID has '4' at index 14 and one of 8, 9, a and b at index 19. */
  lemma VersionAndVariant(seed: seq<bv8>)
    requires |seed| == 16
    ensures var s := Format(Stamped(seed)); s[14] == '4' && s[19] in "89ab"
  {
    var r := Stamped(seed);
    FormatAt(r, 6);
    FormatAt(r, 8);
    assert Pos(6) == 14 && Pos(8) == 19;
    var hi := r[8] as int / 16;
    assert 8 <= hi < 12;
    assert HexDigit(hi) == "89ab"[hi - 8];
  }

  // ----- Generating a UUID -----

  /** `bytesToUUID`: fills the table when it is empty and writes the first sixteen bytes of the buffer. */
  method BytesToUuid(t: HexTable, buffer: array<bv8>) returns (s: string)
    requires t.Valid() && buffer.Length >= 16
    modifies t
    ensures t.entries == Table()
    ensures s == Format(buffer[..16])
  {
    t.Fill();
    var bytes := buffer[..16];
    s := "";
    var i := 0;
    while i < 16
      invariant 0 <= i <= 16
      invariant s == Written(bytes, i)
      invariant t.entries == Table()
    {
      if DashBefore(i) {
        s := s + "-";
      }
      TableEntries(bytes[i]);
      s := s + t.entries[bytes[i] as int];
      i := i + 1;
    }
  }

  /** Stamps the version and variant into the seed in place. */
  method Stamp(seed: array<bv8>)
    requires seed.Length == 16
    modifies seed
    ensures seed[..] == Stamped(old(seed[..]))
  {
    seed[6] := (seed[6] & 0x0f) | 0x40;
    seed[8] := (seed[8] & 0x3f) | 0x80;
  }

  /** A version 4 UUID from sixteen seed bytes, which are stamped in place. */
  method NewUuid(t: HexTable, seed: array<bv8>) returns (s: string)
    requires t.Valid() && seed.Length == 16
    modifies t, seed
    ensures seed[..] == Stamped(old(seed[..]))
    ensures s == Format(seed[..]) && Parse(s) == seed[..]
    ensures |s| == 36 && s[14] == '4' && s[19] in "89ab"
  {
    ghost var before := seed[..];
    Stamp(seed);
    s := BytesToUuid(t, seed);
    assert seed[..16] == seed[..];
    ParseFormat(seed[..]);
    VersionAndVariant(before);
  }
}
