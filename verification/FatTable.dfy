/**
 The File Allocation Table: the three packed entry formats, the table buffer and
 the bitmap that remembers which of its sectors differ from the disk.

 Bytes and bitmap words are natural numbers in range, and the source's masks and
 shifts are written as division and remainder by powers of two.
 */
module FatTable {
  import opened Arithmetic
  import opened Options

  type Byte = x: int | 0 <= x < 256

  datatype FatType = Fat12 | Fat16 | Fat32

  datatype FatEntry = Free | Next(cluster: nat) | EndOfChain | Bad | Reserved

  /** The mark of a bad cluster; the end-of-chain marks start right after it. */
  function BadMark(ty: FatType): nat {
    match ty
    case Fat12 => 0xFF7
    case Fat16 => 0xFFF7
    case Fat32 => 0x0FFF_FFF7
  }

  function FromU32(ty: FatType, entry: nat): FatEntry {
    if entry == 0 then Free
    else if entry >= BadMark(ty) + 1 then EndOfChain
    else if entry == BadMark(ty) then Bad
    else if 2 <= entry then Next(entry)
    else Reserved
  }

  function ToU32(e: FatEntry, ty: FatType): Option<nat> {
    match e
    case Free => Some(0)
    case EndOfChain => Some(BadMark(ty) + 1)
    case Bad => Some(BadMark(ty))
    case Next(c) => if 2 <= c < BadMark(ty) then Some(c) else None
    case Reserved => None
  }

  /** The entries `write_fat_entry` accepts: those that have an encoding. */
  predicate Encodable(e: FatEntry, ty: FatType) {
    ToU32(e, ty).Some?
  }

  function EncodedLimit(ty: FatType): nat {
    match ty
    case Fat12 => 0x1000
    case Fat16 => 0x1_0000
    case Fat32 => 0x1000_0000
  }

  /** Encoding then decoding is the identity on everything that can be encoded. */
  lemma EncodeDecode(e: FatEntry, ty: FatType)
    requires Encodable(e, ty)
    ensures ToU32(e, ty).value < EncodedLimit(ty)
    ensures FromU32(ty, ToU32(e, ty).value) == e
  {
  }

  /** What the raw values of each type mean. */
  lemma RawMeaning(ty: FatType, raw: nat)
    requires raw < EncodedLimit(ty)
    ensures var top := match ty case Fat12 => 0x1000 case Fat16 => 0x1_0000 case Fat32 => 0x1000_0000;
      && top == EncodedLimit(ty)
      && (FromU32(ty, raw) == Free <==> raw == 0)
      && (FromU32(ty, raw) == Reserved <==> raw == 1)
      && (FromU32(ty, raw) == Bad <==> raw == top - 9)
      && (FromU32(ty, raw) == EndOfChain <==> top - 8 <= raw)
      && (forall c :: FromU32(ty, raw) == Next(c) <==> c == raw && 2 <= raw < top - 9)
  {
  }

  // ---------------------------------------------------------------------------
  // Packed entries

  /** Byte offset of an entry; 12-bit entries take a byte and a half each. */
  function FatOffset(ty: FatType, entry: nat): nat {
    match ty
    case Fat12 => entry * 3 / 2
    case Fat16 => entry * 2
    case Fat32 => entry * 4
  }

  function EntryBytes(ty: FatType): nat {
    if ty == Fat32 then 4 else 2
  }

  predicate EntryFits(ty: FatType, length: nat, entry: nat) {
    FatOffset(ty, entry) + EntryBytes(ty) <= length
  }

  /** A 12-bit value from the two bytes an even or odd entry lies in. */
  function Join12(entry: nat, low: nat, high: nat): nat {
    if entry % 2 == 1 then high * 16 + low / 16 else high % 16 * 256 + low
  }

  /** The two bytes after an even or odd 12-bit entry is stored in them. */
  function Split12(entry: nat, value: nat, low: Byte, high: Byte): (Byte, Byte)
    requires value < 0x1000
  {
    if entry % 2 == 1
    then (low % 16 + value * 16 % 256, value / 16)
    else (value % 256, high / 16 * 16 + value / 256)
  }

  function LittleEndian(bytes: seq<Byte>): nat {
    if bytes == [] then 0 else bytes[0] as nat + 256 * LittleEndian(bytes[1..])
  }

  function LittleEndianBytes(value: nat, count: nat): (r: seq<Byte>)
    ensures |r| == count
  {
    if count == 0 then [] else [value % 256] + LittleEndianBytes(value / 256, count - 1)
  }

  function Pow256(count: nat): nat {
    if count == 0 then 1 else 256 * Pow256(count - 1)
  }

  lemma {:induction false} LittleEndianRoundTrip(value: nat, count: nat)
    requires value < Pow256(count)
    ensures LittleEndian(LittleEndianBytes(value, count)) == value
  {
    if count > 0 {
      LittleEndianRoundTrip(value / 256, count - 1);
      assert LittleEndianBytes(value, count)[1..] == LittleEndianBytes(value / 256, count - 1);
    }
  }

  /** `buffer` with `bytes` stored at `o`. */
  function Store(buffer: seq<Byte>, o: nat, bytes: seq<Byte>): (r: seq<Byte>)
    requires o + |bytes| <= |buffer|
    ensures |r| == |buffer|
  {
    buffer[..o] + bytes + buffer[o + |bytes|..]
  }

  function ReadRaw(ty: FatType, buffer: seq<Byte>, entry: nat): nat
    requires EntryFits(ty, |buffer|, entry)
  {
    var o := FatOffset(ty, entry);
    match ty
    case Fat12 => Join12(entry, buffer[o], buffer[o + 1])
    case Fat16 => LittleEndian(buffer[o..o + 2])
    case Fat32 => LittleEndian(buffer[o..o + 4]) % 0x1000_0000
  }

  /** Where in the table an entry is: 12, 16 or 32 bits each, low bits first, the top four of 32 ignored. */
  lemma RawBytes(ty: FatType, buffer: seq<Byte>, i: nat)
    requires EntryFits(ty, |buffer|, i)
    ensures var raw := ReadRaw(ty, buffer, i);
      match ty
      case Fat12 =>
        var k := 3 * (i / 2);
        if i % 2 == 0 then raw == buffer[k] as nat + buffer[k + 1] as nat % 16 * 256
        else raw == buffer[k + 1] as nat / 16 + 16 * buffer[k + 2] as nat
      case Fat16 => raw == buffer[2 * i] as nat + 256 * buffer[2 * i + 1] as nat
      case Fat32 =>
        raw == buffer[4 * i] as nat + 0x100 * buffer[4 * i + 1] as nat + 0x1_0000 * buffer[4 * i + 2] as nat
             + 0x100_0000 * (buffer[4 * i + 3] as nat % 16)
  {
    match ty
    case Fat12 =>
      Offset12(i);
      hide FatOffset;
    case Fat16 => LittleEndian2(buffer[2 * i..2 * i + 2]);
    case Fat32 =>
      LittleEndian4(buffer[4 * i..4 * i + 4]);
      LowBits(LittleEndian(buffer[4 * i..4 * i + 4]), buffer[4 * i + 3]);
  }

  /** Cutting off the top four of 32 bits. */
  lemma LowBits(value: nat, high: Byte)
    requires 0 <= value - 0x100_0000 * high < 0x100_0000
    ensures value % 0x1000_0000 == value - 0x100_0000 * high + 0x100_0000 * (high % 16)
  {
    var (q, r) := (high / 16, high % 16);
    assert value == 0x1000_0000 * q + (value - 0x100_0000 * high + 0x100_0000 * r);
  }

  lemma LittleEndian2(b: seq<Byte>)
    requires |b| == 2
    ensures LittleEndian(b) == b[0] as nat + 256 * b[1] as nat
  {
    assert LittleEndian(b[1..]) == b[1] as nat + 256 * LittleEndian(b[2..]) by {
      assert b[1..][1..] == b[2..];
    }
  }

  lemma LittleEndian4(b: seq<Byte>)
    requires |b| == 4
    ensures LittleEndian(b) == b[0] as nat + 0x100 * b[1] as nat + 0x1_0000 * b[2] as nat + 0x100_0000 * b[3] as nat
  {
    assert b[1..][1..] == b[2..];
    LittleEndian2(b[2..]);
    assert LittleEndian(b[1..]) == b[1] as nat + 256 * LittleEndian(b[2..]);
  }

  function ReadEntry(ty: FatType, buffer: seq<Byte>, entry: nat): FatEntry
    requires EntryFits(ty, |buffer|, entry)
  {
    FromU32(ty, ReadRaw(ty, buffer, entry))
  }

  function WriteRaw(ty: FatType, buffer: seq<Byte>, entry: nat, value: nat): (r: seq<Byte>)
    requires EntryFits(ty, |buffer|, entry) && value < EncodedLimit(ty)
    ensures |r| == |buffer|
  {
    var o := FatOffset(ty, entry);
    match ty
    case Fat12 =>
      var (low, high) := Split12(entry, value, buffer[o], buffer[o + 1]);
      Store(buffer, o, [low, high])
    case Fat16 => Store(buffer, o, LittleEndianBytes(value, 2))
    case Fat32 => Store(buffer, o, LittleEndianBytes(value, 4))
  }

  function WriteEntry(ty: FatType, buffer: seq<Byte>, entry: nat, e: FatEntry): (r: seq<Byte>)
    requires EntryFits(ty, |buffer|, entry) && Encodable(e, ty)
    ensures |r| == |buffer|
  {
    EncodeDecode(e, ty);
    WriteRaw(ty, buffer, entry, ToU32(e, ty).value)
  }

  /** The halves of a shared byte do not disturb each other. */
  lemma Split12Join(entry: nat, value: nat, low: Byte, high: Byte)
    requires value < 0x1000
    ensures var (l, h) := Split12(entry, value, low, high);
      && Join12(entry, l, h) == value
      && (entry % 2 == 1 ==> l % 16 == low % 16)
      && (entry % 2 == 0 ==> h / 16 == high / 16)
  {
    var (a, b) := (value / 16, value % 16);
    assert value * 16 == a * 256 + b * 16;
    DivModOfSum(a, 256, b * 16);
    DivModOfSum(b, 16, low % 16);
    DivModOfSum(high / 16, 16, value / 256);
  }

  lemma WriteRawReadSame(ty: FatType, buffer: seq<Byte>, i: nat, value: nat)
    requires EntryFits(ty, |buffer|, i) && value < EncodedLimit(ty)
    ensures ReadRaw(ty, WriteRaw(ty, buffer, i, value), i) == value
  {
    var o := FatOffset(ty, i);
    var after := WriteRaw(ty, buffer, i, value);
    match ty
    case Fat12 =>
      Split12Join(i, value, buffer[o], buffer[o + 1]);
    case Fat16 =>
      assert value < Pow256(2);
      LittleEndianRoundTrip(value, 2);
      assert after[o..o + 2] == LittleEndianBytes(value, 2);
    case Fat32 =>
      assert value < Pow256(4);
      LittleEndianRoundTrip(value, 4);
      assert after[o..o + 4] == LittleEndianBytes(value, 4);
  }

  lemma WriteRawReadOther(ty: FatType, buffer: seq<Byte>, i: nat, value: nat, j: nat)
    requires EntryFits(ty, |buffer|, i) && EntryFits(ty, |buffer|, j) && i != j
    requires value < EncodedLimit(ty)
    ensures ReadRaw(ty, WriteRaw(ty, buffer, i, value), j) == ReadRaw(ty, buffer, j)
  {
    match ty
    case Fat12 => WriteOther12(buffer, i, value, j);
    case Fat16 => StoreElsewhere(buffer, 2 * i, LittleEndianBytes(value, 2), 2 * j, 2);
    case Fat32 => StoreElsewhere(buffer, 4 * i, LittleEndianBytes(value, 4), 4 * j, 4);
  }

  lemma StoreElsewhere(buffer: seq<Byte>, o: nat, bytes: seq<Byte>, p: nat, n: nat)
    requires o + |bytes| <= |buffer| && p + n <= |buffer| && (p + n <= o || o + |bytes| <= p)
    ensures Store(buffer, o, bytes)[p..p + n] == buffer[p..p + n]
  {
  }

  lemma WriteOther12(buffer: seq<Byte>, i: nat, value: nat, j: nat)
    requires EntryFits(Fat12, |buffer|, i) && EntryFits(Fat12, |buffer|, j) && i != j && value < 0x1000
    ensures ReadRaw(Fat12, WriteRaw(Fat12, buffer, i, value), j) == ReadRaw(Fat12, buffer, j)
  {
    var (o, p) := (FatOffset(Fat12, i), FatOffset(Fat12, j));
    Neighbours12(i, j);
    hide FatOffset;
    Split12Join(i, value, buffer[o], buffer[o + 1]);
    hide Split12;
  }

  /** Two 12-bit entries share at most one byte, an even entry's second with the next one's first. */
  lemma Neighbours12(i: nat, j: nat)
    requires i != j
    ensures var (o, p) := (FatOffset(Fat12, i), FatOffset(Fat12, j));
      || p + 1 < o || o + 1 < p
      || (p == o + 1 && i % 2 == 0 && j % 2 == 1)
      || (o == p + 1 && j % 2 == 0 && i % 2 == 1)
  {
    Offset12(i);
    Offset12(j);
    hide FatOffset;
  }

  lemma Offset12(i: nat)
    ensures var k := i / 2;
      if i % 2 == 0 then i == 2 * k && FatOffset(Fat12, i) == 3 * k
      else i == 2 * k + 1 && FatOffset(Fat12, i) == 3 * k + 1
  {
    var k := i / 2;
    assert i * 3 == if i % 2 == 0 then 2 * (3 * k) else 2 * (3 * k + 1) + 1;
  }

  /**
   Writing one entry stores exactly that entry: it reads back, and every other
   entry reads as before, the 12-bit neighbour that shares a byte included.
   */
  lemma WriteReadEntry(ty: FatType, buffer: seq<Byte>, i: nat, e: FatEntry, j: nat)
    requires EntryFits(ty, |buffer|, i) && EntryFits(ty, |buffer|, j) && Encodable(e, ty)
    ensures ReadEntry(ty, WriteEntry(ty, buffer, i, e), j)
         == if i == j then e else ReadEntry(ty, buffer, j)
  {
    EncodeDecode(e, ty);
    var value := ToU32(e, ty).value;
    if i == j {
      WriteRawReadSame(ty, buffer, i, value);
    } else {
      WriteRawReadOther(ty, buffer, i, value, j);
    }
  }

  /** The table's sector `s`. */
  function SectorOf(buffer: seq<Byte>, sectorSize: nat, s: nat): (r: seq<Byte>)
    requires (s + 1) * sectorSize <= |buffer|
    ensures |r| == sectorSize
  {
    assert (s + 1) * sectorSize == s * sectorSize + sectorSize;
    buffer[s * sectorSize..(s + 1) * sectorSize]
  }

  /** The sectors `write_fat_entry` marks: a 12-bit entry may cross a sector boundary. */
  predicate Marks(ty: FatType, i: nat, sectorSize: nat, s: int)
    requires sectorSize > 0
  {
    || s == SectorAt(FatOffset(ty, i), sectorSize)
    || (ty == Fat12 && s == SectorAt(FatOffset(ty, i) + 1, sectorSize))
  }

  /** The sector that holds a byte of the table. */
  function SectorAt(offset: nat, sectorSize: nat): nat
    requires sectorSize > 0
  {
    offset / sectorSize
  }

  /** Every byte of an entry is in one of the sectors `write_fat_entry` marks. */
  lemma EntrySectors(ty: FatType, i: nat, sectorSize: nat, k: nat)
    requires sectorSize > 0 && sectorSize % 4 == 0
    requires FatOffset(ty, i) <= k < FatOffset(ty, i) + EntryBytes(ty)
    ensures Marks(ty, i, sectorSize, k / sectorSize)
  {
    var o := FatOffset(ty, i);
    EntryInWord(ty, i, k);
    if ty != Fat12 {
      SameAlignedWord(o, k, sectorSize);
    } else if k != o {
      assert k == o + 1;
    }
  }

  lemma EntryInWord(ty: FatType, i: nat, k: nat)
    requires FatOffset(ty, i) <= k < FatOffset(ty, i) + EntryBytes(ty)
    ensures if ty == Fat12 then k == FatOffset(ty, i) || k == FatOffset(ty, i) + 1 else FatOffset(ty, i) / 4 == k / 4
  {
    match ty
    case Fat12 =>
    case Fat16 =>
      DivBounds(i, 2);
      DivUnique(FatOffset(ty, i), 4, i / 2);
      DivUnique(k, 4, i / 2);
    case Fat32 =>
      DivUnique(FatOffset(ty, i), 4, i);
      DivUnique(k, 4, i);
  }

  lemma OffsetFits(ty: FatType, bytes: nat, i: nat)
    requires EntryFits(ty, bytes, i)
    ensures FatOffset(ty, i) < bytes && (ty == Fat12 ==> FatOffset(ty, i) + 1 < bytes)
  {
  }

  /** The sectors of an entry are sectors of the table. */
  lemma EntryInTable(ty: FatType, sectorSize: nat, sectors: nat, i: nat)
    requires sectorSize > 0 && EntryFits(ty, sectors * sectorSize, i)
    ensures SectorAt(FatOffset(ty, i), sectorSize) < sectors
    ensures ty == Fat12 ==> SectorAt(FatOffset(ty, i) + 1, sectorSize) < sectors
  {
    OffsetFits(ty, sectors * sectorSize, i);
    hide EntryFits, FatOffset;
    OffsetInSector(FatOffset(ty, i), sectorSize, sectors);
    if ty == Fat12 {
      OffsetInSector(FatOffset(ty, i) + 1, sectorSize, sectors);
    }
  }

  lemma OffsetInSector(offset: nat, sectorSize: nat, sectors: nat)
    requires sectorSize > 0 && offset < sectors * sectorSize
    ensures SectorAt(offset, sectorSize) < sectors
  {
    DivBounds(offset, sectorSize);
    if offset / sectorSize >= sectors {
      MulMonotone(sectors, offset / sectorSize, sectorSize);
    }
  }

  /** A write changes no sector other than those it marks. */
  lemma WriteStaysInSectors(ty: FatType, buffer: seq<Byte>, i: nat, e: FatEntry, sectorSize: nat, s: nat)
    requires EntryFits(ty, |buffer|, i) && Encodable(e, ty)
    requires sectorSize > 0 && sectorSize % 4 == 0 && (s + 1) * sectorSize <= |buffer|
    requires !Marks(ty, i, sectorSize, s)
    ensures SectorOf(WriteEntry(ty, buffer, i, e), sectorSize, s) == SectorOf(buffer, sectorSize, s)
  {
    hide WriteEntry, FatOffset, EntryBytes, EntryFits, Encodable, Marks;
    var after := WriteEntry(ty, buffer, i, e);
    var (from, to) := (s * sectorSize, (s + 1) * sectorSize);
    forall k | from <= k < to
      ensures after[k] == buffer[k]
    {
      ByteStays(ty, buffer, i, e, sectorSize, s, k);
    }
    assert after[from..to] == buffer[from..to];
  }

  lemma ByteStays(ty: FatType, buffer: seq<Byte>, i: nat, e: FatEntry, sectorSize: nat, s: nat, k: nat)
    requires EntryFits(ty, |buffer|, i) && Encodable(e, ty) && sectorSize > 0 && sectorSize % 4 == 0 && k < |buffer|
    requires s * sectorSize <= k < (s + 1) * sectorSize && !Marks(ty, i, sectorSize, s)
    ensures WriteEntry(ty, buffer, i, e)[k] == buffer[k]
  {
    hide WriteEntry, FatOffset, EntryBytes, EntryFits, Encodable, Marks;
    DivUnique(k, sectorSize, s);
    if FatOffset(ty, i) <= k < FatOffset(ty, i) + EntryBytes(ty) {
      EntrySectors(ty, i, sectorSize, k);
    }
    WriteOutside(ty, buffer, i, e, k);
  }

  lemma WriteOutside(ty: FatType, buffer: seq<Byte>, i: nat, e: FatEntry, k: nat)
    requires EntryFits(ty, |buffer|, i) && Encodable(e, ty) && k < |buffer|
    requires !(FatOffset(ty, i) <= k < FatOffset(ty, i) + EntryBytes(ty))
    ensures WriteEntry(ty, buffer, i, e)[k] == buffer[k]
  {
  }

  // ---------------------------------------------------------------------------
  // Bitmap words

  const WORD_BITS: nat := 64

  type Word = w: nat | w < Pow2(WORD_BITS)

  /** Bit `b` of a word: `(w >> b) & 1`. */
  predicate Bit(w: nat, b: nat) {
    if b == 0 then w % 2 == 1 else Bit(w / 2, b - 1)
  }

  /** `w | (1 << b)`. */
  function SetBit(w: nat, b: nat): nat {
    if b == 0 then w / 2 * 2 + 1 else SetBit(w / 2, b - 1) * 2 + w % 2
  }

  function Pow2(n: nat): (p: nat)
    ensures p > 0
  {
    if n == 0 then 1 else 2 * Pow2(n - 1)
  }

  lemma {:induction false} BitOfSetBit(w: nat, k: nat, b: nat)
    ensures Bit(SetBit(w, k), b) <==> b == k || Bit(w, b)
  {
    if k > 0 && b > 0 {
      BitOfSetBit(w / 2, k - 1, b - 1);
    }
  }

  lemma {:induction false} SetBitBound(w: nat, k: nat, n: nat)
    requires w < Pow2(n) && k < n
    ensures SetBit(w, k) < Pow2(n)
  {
    var (high, p) := (w / 2, Pow2(n - 1));
    assert high < p;
    if k > 0 {
      SetBitBound(high, k - 1, n - 1);
      DigitBelow(SetBit(high, k - 1), w % 2, p);
    } else {
      DigitBelow(high, 1, p);
    }
  }

  lemma DigitBelow(high: nat, low: nat, p: nat)
    requires high < p && low < 2
    ensures high * 2 + low < 2 * p
  {
  }

  lemma {:induction false} BitBound(w: nat, b: nat, n: nat)
    requires w < Pow2(n) && Bit(w, b)
    ensures b < n
  {
    if n == 0 {
      ZeroHasNoBits(b);
    } else if b > 0 {
      BitBound(w / 2, b - 1, n - 1);
    }
  }

  lemma {:induction false} ZeroHasNoBits(b: nat)
    ensures !Bit(0, b)
  {
    if b > 0 {
      ZeroHasNoBits(b - 1);
    }
  }

  /** `rest` is `word` shifted right by `bit`. */
  ghost predicate ShiftedBy(word: nat, bit: nat, rest: nat) {
    forall b: nat :: b >= bit ==> (Bit(word, b) <==> Bit(rest, b - bit))
  }

  lemma ShiftOnce(word: nat, bit: nat, rest: nat)
    requires ShiftedBy(word, bit, rest)
    ensures ShiftedBy(word, bit + 1, rest / 2)
    ensures Bit(word, bit) <==> rest % 2 == 1
  {
    forall b: nat | b >= bit + 1 ensures Bit(word, b) <==> Bit(rest / 2, b - (bit + 1)) {
      assert Bit(rest, b - bit) <==> Bit(rest / 2, b - bit - 1);
    }
  }

  lemma ShiftedOut(word: Word, bit: nat, b: nat)
    requires ShiftedBy(word, bit, 0) && Bit(word, b)
    ensures b < bit && b < WORD_BITS
  {
    if b >= bit {
      ZeroHasNoBits(b - bit);
    }
    BitBound(word, b, WORD_BITS);
  }

  /** The positions of a word's set bits, found by shifting the word out. */
  method SetBits(word: Word) returns (r: seq<nat>)
    ensures forall k :: 0 <= k < |r| ==> r[k] < WORD_BITS
    ensures forall b: nat :: b in r <==> Bit(word, b)
    ensures forall k, l :: 0 <= k < l < |r| ==> r[k] < r[l]
  {
    r := [];
    var dirty: nat := word;
    var bit := 0;
    while dirty != 0
      invariant forall k :: 0 <= k < |r| ==> r[k] < bit
      invariant forall b: nat :: b < bit ==> (b in r <==> Bit(word, b))
      invariant ShiftedBy(word, bit, dirty)
      invariant forall k, l :: 0 <= k < l < |r| ==> r[k] < r[l]
    {
      ShiftOnce(word, bit, dirty);
      if dirty % 2 != 0 {
        r := r + [bit];
      }
      dirty := dirty / 2;
      bit := bit + 1;
    }
    forall b: nat | Bit(word, b) ensures b < bit && b < WORD_BITS {
      ShiftedOut(word, bit, b);
    }
    forall k | 0 <= k < |r| ensures r[k] < WORD_BITS {
      assert r[k] in r;
    }
  }

  /** The dirty bit of a sector. */
  predicate SectorDirty(bitmap: seq<Word>, sector: nat)
    requires sector < WORD_BITS * |bitmap|
  {
    Bit(bitmap[sector / WORD_BITS], sector % WORD_BITS)
  }

  function MarkDirty(bitmap: seq<Word>, sector: nat): (r: seq<Word>)
    requires sector < WORD_BITS * |bitmap|
    ensures |r| == |bitmap|
  {
    SetBitBound(bitmap[sector / WORD_BITS], sector % WORD_BITS, WORD_BITS);
    bitmap[sector / WORD_BITS := SetBit(bitmap[sector / WORD_BITS], sector % WORD_BITS)]
  }

  lemma MarkDirtyBits(bitmap: seq<Word>, sector: nat, t: nat)
    requires sector < WORD_BITS * |bitmap| && t < WORD_BITS * |bitmap|
    ensures SectorDirty(MarkDirty(bitmap, sector), t) <==> t == sector || SectorDirty(bitmap, t)
  {
    BitOfSetBit(bitmap[sector / WORD_BITS], sector % WORD_BITS, t % WORD_BITS);
  }

  // ---------------------------------------------------------------------------
  // The table as a sequence of entries

  function EntryCount(ty: FatType, length: nat): nat {
    match ty
    case Fat12 => length * 2 / 3
    case Fat16 => length / 2
    case Fat32 => length / 4
  }

  /** An index is within the table exactly when all its bytes are within the buffer. */
  lemma FitsIffCounted(ty: FatType, length: nat, i: nat)
    ensures EntryFits(ty, length, i) <==> i < EntryCount(ty, length)
  {
  }

  ghost function EntriesOf(ty: FatType, buffer: seq<Byte>): (r: seq<FatEntry>)
    ensures |r| == EntryCount(ty, |buffer|)
    ensures forall i :: 0 <= i < |r| ==> EntryFits(ty, |buffer|, i) && r[i] == ReadEntry(ty, buffer, i)
  {
    seq(EntryCount(ty, |buffer|),
        i requires 0 <= i < EntryCount(ty, |buffer|) =>
          FitsIffCounted(ty, |buffer|, i); ReadEntry(ty, buffer, i))
  }

  /** On the sequence of entries a packed write is a plain update. */
  lemma WriteUpdatesEntries(ty: FatType, buffer: seq<Byte>, i: nat, e: FatEntry)
    requires i < EntryCount(ty, |buffer|) && Encodable(e, ty)
    ensures EntryFits(ty, |buffer|, i)
    ensures EntriesOf(ty, WriteEntry(ty, buffer, i, e)) == EntriesOf(ty, buffer)[i := e]
  {
    FitsIffCounted(ty, |buffer|, i);
    var after := WriteEntry(ty, buffer, i, e);
    forall j | 0 <= j < EntryCount(ty, |buffer|)
      ensures EntriesOf(ty, after)[j] == EntriesOf(ty, buffer)[i := e][j]
    {
      FitsIffCounted(ty, |buffer|, j);
      WriteReadEntry(ty, buffer, i, e, j);
    }
  }

  /** The allocatable clusters: free entries past the two reserved ones. */
  ghost function FreeClusters(entries: seq<FatEntry>): set<nat> {
    set i: nat | 2 <= i < |entries| && entries[i] == Free
  }

  lemma LowestFree(entries: seq<FatEntry>, i: nat)
    requires 2 <= i < |entries| && entries[i] == Free && forall c :: 2 <= c < i ==> entries[c] != Free
    ensures i in FreeClusters(entries) && forall c :: c in FreeClusters(entries) ==> i <= c
  {
  }

  lemma NoFreeClusters(entries: seq<FatEntry>)
    ensures FreeClusters(entries) == {} <==> forall c :: 2 <= c < |entries| ==> entries[c] != Free
  {
    forall c: nat | 2 <= c < |entries| && entries[c] == Free ensures c in FreeClusters(entries) {
    }
  }

  ghost predicate NoneFreePast(entries: seq<FatEntry>, end: nat) {
    forall i :: end <= i < |entries| ==> entries[i] != Free
  }

  /** Every table sector whose dirty bit is clear is on disk as it is in the buffer. */
  ghost predicate CleanOnDisk(buffer: seq<Byte>, sectorSize: nat, sectors: nat, bitmap: seq<Word>,
                              onDisk: seq<seq<Byte>>)
    requires |buffer| == sectors * sectorSize && sectors <= WORD_BITS * |bitmap|
  {
    && |onDisk| == sectors
    && forall s: nat :: s < sectors && !SectorDirty(bitmap, s) ==>
         onDisk[s] == TableSector(buffer, sectorSize, sectors, s)
  }

  ghost function TableSector(buffer: seq<Byte>, sectorSize: nat, sectors: nat, s: nat): (r: seq<Byte>)
    requires |buffer| == sectors * sectorSize && s < sectors
    ensures |r| == sectorSize
  {
    MulMonotone(s + 1, sectors, sectorSize);
    SectorOf(buffer, sectorSize, s)
  }

  /** Whatever the disk held, marking an entry's sectors keeps every unmarked sector in step. */
  lemma WriteKeepsCleanOnDisk(ty: FatType, buffer: seq<Byte>, i: nat, e: FatEntry, sectorSize: nat, sectors: nat,
                              bitmap: seq<Word>, marked: seq<Word>, onDisk: seq<seq<Byte>>)
    requires EntryFits(ty, |buffer|, i) && Encodable(e, ty)
    requires sectorSize > 0 && sectorSize % 4 == 0
    requires |buffer| == sectors * sectorSize && sectors <= WORD_BITS * |bitmap| && |marked| == |bitmap|
    requires CleanOnDisk(buffer, sectorSize, sectors, bitmap, onDisk)
    requires forall t: nat :: t < sectors ==>
      (SectorDirty(marked, t) <==> SectorDirty(bitmap, t) || Marks(ty, i, sectorSize, t))
    ensures CleanOnDisk(WriteEntry(ty, buffer, i, e), sectorSize, sectors, marked, onDisk)
  {
    var after := WriteEntry(ty, buffer, i, e);
    forall s: nat | s < sectors && !SectorDirty(marked, s)
      ensures onDisk[s] == TableSector(after, sectorSize, sectors, s)
    {
      MulMonotone(s + 1, sectors, sectorSize);
      WriteStaysInSectors(ty, buffer, i, e, sectorSize, s);
    }
  }

  datatype NextResult = Ok(next: Option<nat>) | UnexpectedFatEntry

  /** `Fat`: the in-memory table with its dirty-sector bitmap. */
  class Fat {
    const ty: FatType
    const sectorSize: nat
    const sectors: nat
    var buffer: seq<Byte>
    var dirty: bool
    var bitmap: seq<Word>

    ghost predicate Valid()
      reads this
    {
      && sectorSize > 0 && sectorSize % 4 == 0
      && |buffer| == sectors * sectorSize
      && |bitmap| == (sectors + 63) / WORD_BITS
      && (forall s: nat :: s < WORD_BITS * |bitmap| && SectorDirty(bitmap, s) ==> dirty && s < sectors)
    }

    ghost function Entries(): seq<FatEntry>
      reads this
    {
      EntriesOf(ty, buffer)
    }

    /** Every table sector whose dirty bit is clear is on disk as it is in the buffer. */
    ghost predicate Tracks(onDisk: seq<seq<Byte>>)
      requires Valid()
      reads this
    {
      CleanOnDisk(buffer, sectorSize, sectors, bitmap, onDisk)
    }

    /** A table as `Fat::load` reads it. */
    constructor (ty: FatType, sectorSize: nat, sectors: nat, data: seq<Byte>)
      requires sectorSize > 0 && sectorSize % 4 == 0 && |data| == sectors * sectorSize
      ensures Valid() && this.ty == ty && this.sectorSize == sectorSize && this.sectors == sectors
      ensures buffer == data && !dirty
      ensures forall s: nat :: s < sectors ==> !SectorDirty(bitmap, s)
    {
      this.ty, this.sectorSize, this.sectors := ty, sectorSize, sectors;
      buffer, dirty := data, false;
      bitmap := seq((sectors + 63) / WORD_BITS, _ => 0);
      new;
      forall s: nat | s < WORD_BITS * |bitmap| ensures !SectorDirty(bitmap, s) {
        ZeroHasNoBits(s % WORD_BITS);
      }
    }

    /** The dirty sectors in increasing order, read off the bitmap word by word. */
    method DirtySectors() returns (r: seq<nat>)
      requires Valid()
      ensures forall k :: 0 <= k < |r| ==> r[k] < sectors
      ensures forall s: nat :: s < sectors ==> (s in r <==> SectorDirty(bitmap, s))
      ensures forall k, l :: 0 <= k < l < |r| ==> r[k] < r[l]
    {
      r := [];
      if !dirty {
        return;
      }
      for i := 0 to |bitmap|
        invariant forall k :: 0 <= k < |r| ==> r[k] < WORD_BITS * i
        invariant forall s: nat :: s < WORD_BITS * i ==> (s in r <==> SectorDirty(bitmap, s))
        invariant forall k, l :: 0 <= k < l < |r| ==> r[k] < r[l]
      {
        var bits := SetBits(bitmap[i]);
        var found := seq(|bits|, k requires 0 <= k < |bits| => WORD_BITS * i + bits[k]);
        forall s: nat | WORD_BITS * i <= s < WORD_BITS * (i + 1)
          ensures s in found <==> SectorDirty(bitmap, s)
        {
          var b := s - WORD_BITS * i;
          assert s / WORD_BITS == i && s % WORD_BITS == b;
          if b in bits {
            var k :| 0 <= k < |bits| && bits[k] == b;
            assert found[k] == s;
          }
        }
        r := r + found;
      }
      forall k | 0 <= k < |r| ensures r[k] < sectors {
        assert r[k] in r;
        assert SectorDirty(bitmap, r[k]);
      }
    }

    method MarkSectorDirty(sector: nat)
      requires sector < WORD_BITS * |bitmap|
      modifies this`bitmap
      ensures |bitmap| == |old(bitmap)|
      ensures forall t: nat :: t < WORD_BITS * |bitmap| ==>
        (SectorDirty(bitmap, t) <==> t == sector || SectorDirty(old(bitmap), t))
    {
      forall t: nat | t < WORD_BITS * |bitmap|
        ensures SectorDirty(MarkDirty(bitmap, sector), t) <==> t == sector || SectorDirty(bitmap, t)
      {
        MarkDirtyBits(bitmap, sector, t);
      }
      bitmap := MarkDirty(bitmap, sector);
    }

    method ClearDirty()
      requires Valid()
      modifies this`dirty, this`bitmap
      ensures Valid() && !dirty
      ensures forall s: nat :: s < sectors ==> !SectorDirty(bitmap, s)
    {
      if dirty {
        dirty := false;
        bitmap := seq(|bitmap|, _ => 0);
      }
      forall s: nat | s < WORD_BITS * |bitmap| ensures !SectorDirty(bitmap, s) {
        ZeroHasNoBits(s % WORD_BITS);
      }
    }

    method ReadFatEntry(entry: nat) returns (r: FatEntry)
      requires entry < |Entries()|
      ensures r == Entries()[entry]
    {
      FitsIffCounted(ty, |buffer|, entry);
      r := ReadEntry(ty, buffer, entry);
    }

    /** Stores an entry; whatever the disk held, its clean sectors still agree with the buffer. */
    method WriteFatEntry(entry: nat, e: FatEntry, ghost onDisk: seq<seq<Byte>>)
      requires Valid() && Tracks(onDisk)
      requires entry < |Entries()| && Encodable(e, ty)
      modifies this
      ensures Valid() && Tracks(onDisk)
      ensures Entries() == old(Entries())[entry := e]
    {
      FitsIffCounted(ty, |buffer|, entry);
      WriteUpdatesEntries(ty, buffer, entry, e);
      ghost var (buffer0, bitmap0) := (buffer, bitmap);
      buffer := WriteEntry(ty, buffer, entry, e);
      MarkEntryDirty(entry);
      dirty := true;
      WriteKeepsCleanOnDisk(ty, buffer0, entry, e, sectorSize, sectors, bitmap0, bitmap, onDisk);
    }

    /** Marks the sectors of an entry: a 12-bit entry can cross a sector boundary. */
    method MarkEntryDirty(entry: nat)
      requires sectorSize > 0 && sectors <= WORD_BITS * |bitmap|
      requires EntryFits(ty, sectors * sectorSize, entry)
      modifies this`bitmap
      ensures |bitmap| == |old(bitmap)|
      ensures forall t: nat :: t < WORD_BITS * |bitmap| ==>
        (SectorDirty(bitmap, t) <==> SectorDirty(old(bitmap), t) || (t < sectors && Marks(ty, entry, sectorSize, t)))
    {
      hide FatOffset, EntryFits, SectorDirty, SectorAt;
      var fatOffset := FatOffset(ty, entry);
      EntryInTable(ty, sectorSize, sectors, entry);
      MarkSectorDirty(SectorAt(fatOffset, sectorSize));
      if ty == Fat12 {
        MarkSectorDirty(SectorAt(fatOffset + 1, sectorSize));
      }
    }

    lemma CountIs()
      ensures |Entries()| == EntryCount(ty, |buffer|)
    {
    }

    /** The lowest free cluster, if there is one. */
    method FindFreeCluster() returns (r: Option<nat>)
      ensures r.None? <==> FreeClusters(Entries()) == {}
      ensures r.None? ==> forall c :: 2 <= c < |Entries()| ==> Entries()[c] != Free
      ensures r.Some? ==> 2 <= r.value < |Entries()| && Entries()[r.value] == Free
      ensures r.Some? ==> r.value in FreeClusters(Entries())
      ensures r.Some? ==> forall c :: c in FreeClusters(Entries()) ==> r.value <= c
    {
      hide Fat.Entries, EntryCount, FreeClusters;
      CountIs();
      var numberOfFatEntries := EntryCount(ty, |buffer|);
      var i := 2;
      while i < numberOfFatEntries
        invariant 2 <= i && numberOfFatEntries == |Entries()|
        invariant forall c :: 2 <= c < i && c < |Entries()| ==> Entries()[c] != Free
      {
        var entry := ReadFatEntry(i);
        if entry == Free {
          LowestFree(Entries(), i);
          return Some(i);
        }
        i := i + 1;
      }
      NoFreeClusters(Entries());
      r := None;
    }

    method NextCluster(cluster: nat) returns (r: NextResult)
      requires cluster < |Entries()|
      ensures match Entries()[cluster]
              case Next(c) => r == Ok(Some(c))
              case EndOfChain => r == Ok(None)
              case _ => r == UnexpectedFatEntry
    {
      var entry := ReadFatEntry(cluster);
      r := match entry
           case Next(c) => Ok(Some(c))
           case EndOfChain => Ok(None)
           case _ => UnexpectedFatEntry;
    }
  }
}
