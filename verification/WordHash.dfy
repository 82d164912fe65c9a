/** CRC_Word of s-crc.c and Compare_UTF8 of s-find.c: when the word hash agrees with comparison ignoring case. */
module WordHash {
  /** A word's spelling as code points, none of them zero. */
  type Name = seq<nat>

  /** The lower-case table for the first 0x2E00 code points, and the CRC table. */
  datatype Tables = Tables(lower: seq<nat>, crc24: seq<bv32>)

  // ---- Ignoring case ----

  predicate CaseEqualPoint(t: Tables, c: nat, d: nat) {
    c == d || (c < |t.lower| && d < |t.lower| && t.lower[c] == t.lower[d])
  }

  predicate CaseEqual(t: Tables, x: Name, y: Name) {
    |x| == |y| && forall i :: 0 <= i < |x| ==> CaseEqualPoint(t, x[i], y[i])
  }

  /** Compare_UTF8 as Make_Word reads it: zero for identical, positive for a case difference, else negative. */
  function Compare(t: Tables, x: Name, y: Name): int {
    if x == y then 0 else if CaseEqual(t, x, y) then 1 else -1
  }

  lemma {:induction false} CaseEqualEquivalence(t: Tables, x: Name, y: Name, z: Name)
    ensures CaseEqual(t, x, x)
    ensures CaseEqual(t, x, y) ==> CaseEqual(t, y, x)
    ensures CaseEqual(t, x, y) && CaseEqual(t, y, z) ==> CaseEqual(t, x, z)
  {
  }

  // ---- CRC_Word ----

  /** Number of bytes of the UTF-8 form of a code point, and the first of them. */
  function Width(c: nat): nat {
    if c < 0x80 then 1 else if c < 0x800 then 2 else if c < 0x10000 then 3 else 4
  }

  function FirstByte(c: nat): nat {
    if c < 0x80 then c
    else if c < 0x800 then 0xC0 + c / 0x40
    else if c < 0x10000 then 0xE0 + c / 0x1000
    else (0xF0 + c / 0x40000) % 0x100
  }

  function Bytes(x: Name): nat {
    if |x| == 0 then 0 else Bytes(x[..|x| - 1]) + Width(x[|x| - 1])
  }

  function Lower(t: Tables, c: nat): nat {
    if c < |t.lower| then t.lower[c] else c
  }

  /** What the hash starts from: the length in bytes and the lower case of the first byte alone. */
  function StartSum(t: Tables, x: Name): nat {
    Bytes(x) + Lower(t, if |x| == 0 then 0 else FirstByte(x[0])) % 0x100
  }

  function Word32(n: nat): bv32 {
    (n % 0x1_0000_0000) as bv32
  }

  function CrcStart(t: Tables, x: Name): bv32 {
    Word32(StartSum(t, x))
  }

  function TableIndex(hash: bv32, c: bv32): (i: nat)
    ensures i < 256
  {
    (((hash >> 16) ^ c) & 0xFF) as nat
  }

  function Advance(hash: bv32, entry: bv32): bv32 {
    ((hash << 8) & 0x00FF_FFFF) ^ entry
  }

  function CrcStep(t: Tables, hash: bv32, c: nat): bv32
    requires |t.crc24| == 256
  {
    Advance(hash, t.crc24[TableIndex(hash, (Lower(t, c) % 0x100) as bv32)])
  }

  function CrcFold(t: Tables, hash: bv32, x: Name): bv32
    requires |t.crc24| == 256
  {
    if |x| == 0 then hash else CrcStep(t, CrcFold(t, hash, x[..|x| - 1]), x[|x| - 1])
  }

  /** CRC_Word. */
  function Key(t: Tables, x: Name): nat
    requires |t.crc24| == 256
  {
    CrcFold(t, CrcStart(t, x), x) as nat
  }

  // ---- When the hash ignores case ----

  /** The table of a CRC: 24-bit entries, any two of which differ in the low byte. */
  ghost predicate CrcTable(t: Tables) {
    && |t.crc24| == 256
    && (forall i :: 0 <= i < 256 ==> t.crc24[i] <= 0x00FF_FFFF)
    && (forall i, j :: 0 <= i < j < 256 ==> t.crc24[i] & 0xFF != t.crc24[j] & 0xFF)
  }

  lemma AdvanceLow(hash: bv32, entry: bv32)
    ensures Advance(hash, entry) & 0xFF == entry & 0xFF
  {
  }

  lemma AdvanceInjective(h: bv32, k: bv32, entry: bv32)
    requires h <= 0x00FF_FFFF && k <= 0x00FF_FFFF
    requires Advance(h, entry) == Advance(k, entry)
    ensures h & 0xFFFF == k & 0xFFFF
  {
  }

  lemma IndexInjective(h: bv32, k: bv32, c: bv32)
    requires h <= 0x00FF_FFFF && k <= 0x00FF_FFFF && h & 0xFFFF == k & 0xFFFF
    requires ((h >> 16) ^ c) & 0xFF == ((k >> 16) ^ c) & 0xFF
    ensures h == k
  {
  }

  lemma AdvanceRange(hash: bv32, entry: bv32)
    requires entry <= 0x00FF_FFFF
    ensures Advance(hash, entry) <= 0x00FF_FFFF
  {
  }

  lemma SameNat(x: bv32, y: bv32)
    requires x as nat == y as nat
    ensures x == y
  {
    assert (x as nat) as bv32 == x;
    assert (y as nat) as bv32 == y;
  }

  lemma SameIndex(h: bv32, k: bv32, n: bv32)
    requires TableIndex(h, n) == TableIndex(k, n)
    ensures ((h >> 16) ^ n) & 0xFF == ((k >> 16) ^ n) & 0xFF
  {
    SameNat(((h >> 16) ^ n) & 0xFF, ((k >> 16) ^ n) & 0xFF);
  }

  lemma SameEntry(t: Tables, h: bv32, k: bv32, i: nat, j: nat)
    requires CrcTable(t) && i < 256 && j < 256 && Advance(h, t.crc24[i]) == Advance(k, t.crc24[j])
    ensures i == j
  {
    AdvanceLow(h, t.crc24[i]);
    AdvanceLow(k, t.crc24[j]);
    hide Advance;
  }

  /** One step of the CRC loses nothing of its state. */
  lemma StepInjective(t: Tables, h: bv32, k: bv32, c: nat)
    requires CrcTable(t) && h <= 0x00FF_FFFF && k <= 0x00FF_FFFF
    requires CrcStep(t, h, c) == CrcStep(t, k, c)
    ensures h == k
  {
    hide TableIndex, Advance, Lower;
    var n := (Lower(t, c) % 0x100) as bv32;
    var i, j := TableIndex(h, n), TableIndex(k, n);
    SameEntry(t, h, k, i, j);
    hide CrcTable, CrcStep;
    SameIndex(h, k, n);
    AdvanceInjective(h, k, t.crc24[i]);
    IndexInjective(h, k, n);
  }

  lemma {:induction false} FoldRange(t: Tables, h: bv32, x: Name)
    requires CrcTable(t) && h <= 0x00FF_FFFF
    ensures CrcFold(t, h, x) <= 0x00FF_FFFF
  {
    if |x| > 0 {
      var n := (Lower(t, x[|x| - 1]) % 0x100) as bv32;
      var g := CrcFold(t, h, x[..|x| - 1]);
      AdvanceRange(g, t.crc24[TableIndex(g, n)]);
    }
  }

  lemma StepLower(t: Tables, h: bv32, c: nat, d: nat)
    requires |t.crc24| == 256 && CaseEqualPoint(t, c, d)
    ensures CrcStep(t, h, c) == CrcStep(t, h, d)
  {
    assert Lower(t, c) == Lower(t, d);
  }

  /** On names equal but for case the CRC depends on the starting value only, and tells any two of them apart. */
  lemma {:induction false} FoldAgrees(t: Tables, h: bv32, k: bv32, x: Name, y: Name)
    requires CrcTable(t) && h <= 0x00FF_FFFF && k <= 0x00FF_FFFF && CaseEqual(t, x, y)
    ensures CrcFold(t, h, x) == CrcFold(t, k, y) <==> h == k
  {
    assert |t.crc24| == 256;
    hide CrcTable, CrcStep;
    if |x| > 0 {
      var n := |x| - 1;
      FoldAgrees(t, h, k, x[..n], y[..n]);
      FoldRange(t, h, x[..n]);
      FoldRange(t, k, y[..n]);
      assert CaseEqualPoint(t, x[n], y[n]);
      StepLower(t, CrcFold(t, k, y[..n]), x[n], y[n]);
      if CrcFold(t, h, x) == CrcFold(t, k, y) {
        StepInjective(t, CrcFold(t, h, x[..n]), CrcFold(t, k, y[..n]), x[n]);
      }
    }
  }

  /** The part of the starting value that a first step of the CRC keeps. */
  function Low24(h: bv32): bv32 {
    h & 0x00FF_FFFF
  }

  lemma IndexLow(h: bv32, n: bv32)
    ensures TableIndex(Low24(h), n) == TableIndex(h, n)
  {
    assert ((Low24(h) >> 16) ^ n) & 0xFF == ((h >> 16) ^ n) & 0xFF;
  }

  lemma AdvanceOfLow(h: bv32, entry: bv32)
    ensures Advance(Low24(h), entry) == Advance(h, entry)
  {
  }

  lemma StepLow(t: Tables, h: bv32, c: nat)
    requires |t.crc24| == 256
    ensures CrcStep(t, Low24(h), c) == CrcStep(t, h, c)
  {
    hide Lower;
    var n := (Lower(t, c) % 0x100) as bv32;
    IndexLow(h, n);
    hide TableIndex;
    AdvanceOfLow(h, t.crc24[TableIndex(h, n)]);
  }

  lemma {:induction false} FoldLow(t: Tables, h: bv32, x: Name)
    requires |t.crc24| == 256 && |x| > 0
    ensures CrcFold(t, Low24(h), x) == CrcFold(t, h, x)
  {
    hide CrcStep, Low24;
    if |x| == 1 {
      StepLow(t, h, x[0]);
    } else {
      FoldLow(t, h, x[..|x| - 1]);
    }
  }

  lemma Low24Range(h: bv32)
    ensures Low24(h) <= 0x00FF_FFFF
  {
  }

  /**
   * CRC_Word gives names that differ only in case one hash value exactly when their starting values, length in bytes
   * plus lower case of the first byte, agree in 24 bits; its comment promises a case-insensitive hash outright.
   */
  lemma KeyAgrees(t: Tables, x: Name, y: Name)
    requires CrcTable(t) && CaseEqual(t, x, y)
    ensures Key(t, x) == Key(t, y) <==> Low24(CrcStart(t, x)) == Low24(CrcStart(t, y))
  {
    var h, k := CrcStart(t, x), CrcStart(t, y);
    assert |t.crc24| == 256 && |x| == |y|;
    if |x| == 0 {
      assert x == y;
    } else {
      FoldLow(t, h, x);
      FoldLow(t, k, y);
      Low24Range(h);
      Low24Range(k);
      hide CrcStart, CrcFold, CrcTable, CaseEqual, Low24;
      FoldAgrees(t, Low24(h), Low24(k), x, y);
      if Key(t, x) == Key(t, y) {
        SameNat(CrcFold(t, h, x), CrcFold(t, k, y));
      }
    }
  }

  ghost predicate IsAscii(x: Name) {
    forall i :: 0 <= i < |x| ==> x[i] < 0x80
  }

  lemma {:induction false} AsciiBytes(x: Name)
    requires IsAscii(x)
    ensures Bytes(x) == |x|
  {
    if |x| > 0 {
      AsciiBytes(x[..|x| - 1]);
    }
  }

  lemma {:induction false} AsciiSum(t: Tables, x: Name, y: Name)
    requires CaseEqual(t, x, y) && IsAscii(x) && IsAscii(y) && Bytes(x) == Bytes(y)
    ensures StartSum(t, x) == StartSum(t, y)
  {
    hide Bytes;
    if |x| > 0 {
      assert CaseEqualPoint(t, x[0], y[0]);
      assert FirstByte(x[0]) == x[0] && FirstByte(y[0]) == y[0];
      assert Lower(t, x[0]) == Lower(t, y[0]);
    }
  }

  lemma {:induction false} AsciiStart(t: Tables, x: Name, y: Name)
    requires CaseEqual(t, x, y) && IsAscii(x) && IsAscii(y)
    ensures CrcStart(t, x) == CrcStart(t, y)
  {
    AsciiBytes(x);
    AsciiBytes(y);
    AsciiSum(t, x, y);
    hide StartSum, Word32;
  }

  /** From one starting value the CRC of names equal but for case is the same. */
  lemma {:induction false} FoldSame(t: Tables, h: bv32, x: Name, y: Name)
    requires |t.crc24| == 256 && CaseEqual(t, x, y)
    ensures CrcFold(t, h, x) == CrcFold(t, h, y)
  {
    hide CrcStep;
    if |x| > 0 {
      var n := |x| - 1;
      FoldSame(t, h, x[..n], y[..n]);
      assert CaseEqualPoint(t, x[n], y[n]);
      StepLower(t, CrcFold(t, h, x[..n]), x[n], y[n]);
    }
  }

  /** In particular the hash ignores case on ASCII names. */
  lemma {:induction false} AsciiAgrees(t: Tables, x: Name, y: Name)
    requires |t.crc24| == 256 && CaseEqual(t, x, y) && IsAscii(x) && IsAscii(y)
    ensures Key(t, x) == Key(t, y)
  {
    AsciiStart(t, x, y);
    FoldSame(t, CrcStart(t, x), x, y);
  }

  lemma StartOfOne(t: Tables, c: nat)
    requires Width(c) == 2 && FirstByte(c) < |t.lower| && t.lower[FirstByte(c)] < 0x100
    ensures StartSum(t, [c]) == 2 + t.lower[FirstByte(c)]
  {
    hide FirstByte;
    assert [c][..0] == [];
    assert Bytes([c]) == 2;
  }

  lemma DiaeresisSums(t: Tables)
    requires |t.lower| == 0x2E00 && t.lower[0xC3] == 0xE3 && t.lower[0xC5] == 0xE5
    ensures StartSum(t, [0xFF]) == 0xE5 && StartSum(t, [0x178]) == 0xE7
  {
    assert FirstByte(0xFF) == 0xC3 && FirstByte(0x178) == 0xC5;
    hide StartSum;
    StartOfOne(t, 0xFF);
    StartOfOne(t, 0x178);
  }

  lemma SmallWord(n: nat)
    requires n < 0x1_0000_0000
    ensures Word32(n) == n as bv32
  {
  }

  lemma DiaeresisWords(n: nat, k: nat)
    requires n == 0xE5 && k == 0xE7
    ensures n as bv32 == 0xE5 && k as bv32 == 0xE7
  {
  }

  lemma DiaeresisStart(t: Tables)
    requires |t.lower| == 0x2E00 && t.lower[0xC3] == 0xE3 && t.lower[0xC5] == 0xE5
    ensures CrcStart(t, [0xFF]) == 0xE5 && CrcStart(t, [0x178]) == 0xE7
  {
    hide StartSum, Word32;
    DiaeresisSums(t);
    SmallWord(0xE5);
    SmallWord(0xE7);
    DiaeresisWords(0xE5, 0xE7);
  }

  /** y with diaeresis, U+00FF, and its capital, U+0178: equal but for case, yet hashed apart. */
  lemma CaseSplitsHash(t: Tables)
    requires CrcTable(t) && |t.lower| == 0x2E00
    requires t.lower[0xFF] == 0xFF && t.lower[0x178] == 0xFF && t.lower[0xC3] == 0xE3 && t.lower[0xC5] == 0xE5
    ensures CaseEqual(t, [0xFF], [0x178]) && Key(t, [0xFF]) != Key(t, [0x178])
  {
    assert CaseEqualPoint(t, 0xFF, 0x178);
    DiaeresisStart(t);
    hide CrcTable, CrcStart, CaseEqualPoint;
    KeyAgrees(t, [0xFF], [0x178]);
  }

  lemma LastIndex(h: bv32)
    requires h <= 0xFFFF
    ensures TableIndex(h, 0xFF) == 0xFF
  {
    assert ((h >> 16) ^ 0xFF) & 0xFF == 0xFF;
  }

  lemma FoldOne(t: Tables, h: bv32, c: nat)
    requires |t.crc24| == 256 && h <= 0xFFFF && Lower(t, c) == 0xFF
    ensures CrcFold(t, h, [c]) == Advance(h, t.crc24[0xFF])
  {
    assert [c][..0] == [];
    assert CrcFold(t, h, []) == h;
    assert (0xFF % 0x100) as bv32 == 0xFF;
    LastIndex(h);
  }

  /** Their hash values with the last entry of the table that Make_CRC24_Table computes. */
  lemma DiaeresisKeys(t: Tables)
    requires |t.crc24| == 256 && t.crc24[0xFF] == 0xDD8538 && |t.lower| == 0x2E00
    requires t.lower[0xFF] == 0xFF && t.lower[0x178] == 0xFF && t.lower[0xC3] == 0xE3 && t.lower[0xC5] == 0xE5
    ensures Key(t, [0xFF]) == 0xDD6038 && Key(t, [0x178]) == 0xDD6238
  {
    DiaeresisStart(t);
    assert Lower(t, 0xFF) == 0xFF && Lower(t, 0x178) == 0xFF;
    assert Advance(0xE5, 0xDD8538) == 0xDD6038 && Advance(0xE7, 0xDD8538) == 0xDD6238;
    hide CrcFold, CrcStart, Advance, Lower;
    FoldOne(t, 0xE5, 0xFF);
    FoldOne(t, 0xE7, 0x178);
  }
}
