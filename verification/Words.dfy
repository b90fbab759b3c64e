/** 32-bit registers, and how bytes (numbers) and registers (bit vectors) correspond. */
module Words {
  import opened Bytes

  // Registers are 32-bit vectors; bytes are numbers. The two meet bit by bit.
  // Lemmas above the bit level hide the bit operations they build on.

  type Word = bv32

  datatype Bits = Bits(b0: bool, b1: bool, b2: bool, b3: bool, b4: bool, b5: bool, b6: bool, b7: bool)

  function NibbleValue(b0: bool, b1: bool, b2: bool, b3: bool): (r: nat)
    ensures r < 16
  {
    (if b0 then 1 else 0) + (if b1 then 2 else 0) + (if b2 then 4 else 0) + (if b3 then 8 else 0)
  }

  predicate NibbleBit(n: nat, k: nat) {
    match k
    case 0 => n in {1, 3, 5, 7, 9, 11, 13, 15}
    case 1 => n in {2, 3, 6, 7, 10, 11, 14, 15}
    case 2 => n in {4, 5, 6, 7, 12, 13, 14, 15}
    case _ => n >= 8
  }

  function BitsOfByte(b: byte): Bits {
    var low, high := b % 16, b / 16;
    Bits(NibbleBit(low, 0), NibbleBit(low, 1), NibbleBit(low, 2), NibbleBit(low, 3),
         NibbleBit(high, 0), NibbleBit(high, 1), NibbleBit(high, 2), NibbleBit(high, 3))
  }

  function ByteOfBits(b: Bits): byte {
    NibbleValue(b.b0, b.b1, b.b2, b.b3) + 16 * NibbleValue(b.b4, b.b5, b.b6, b.b7)
  }

  function WordBit(b: bool, w: bv32): bv32 {
    if b then w else 0
  }

  function WordOfBits(b: Bits): Word {
    (WordBit(b.b0, 1) | WordBit(b.b1, 2) | WordBit(b.b2, 4) | WordBit(b.b3, 8) |
         WordBit(b.b4, 16) | WordBit(b.b5, 32) | WordBit(b.b6, 64) | WordBit(b.b7, 128))
  }

  function BitsOfWord(w: Word): Bits {
    Bits(w & 1 != 0, w & 2 != 0, w & 4 != 0, w & 8 != 0,
         w & 16 != 0, w & 32 != 0, w & 64 != 0, w & 128 != 0)
  }

  /** A byte widened to a word. */
  function Widen(b: byte): Word {
    WordOfBits(BitsOfByte(b))
  }

  /** The low byte of a word. */
  function LowByte(w: Word): byte {
    ByteOfBits(BitsOfWord(w))
  }

  lemma NibbleBits(b0: bool, b1: bool, b2: bool, b3: bool)
    ensures var n := NibbleValue(b0, b1, b2, b3);
            NibbleBit(n, 0) == b0 && NibbleBit(n, 1) == b1 && NibbleBit(n, 2) == b2 && NibbleBit(n, 3) == b3
  {
  }

  lemma NibbleOfBits(n: nat)
    requires n < 16
    ensures NibbleValue(NibbleBit(n, 0), NibbleBit(n, 1), NibbleBit(n, 2), NibbleBit(n, 3)) == n
  {
  }

  lemma Halves(low: nat, high: nat)
    requires low < 16
    ensures (low + 16 * high) % 16 == low && (low + 16 * high) / 16 == high
  {
  }

  lemma WordBits(b: Bits)
    ensures BitsOfWord(WordOfBits(b)) == b && IsByte(WordOfBits(b))
  {
  }

  lemma LowBits(w: bv32)
    ensures WordBit(w & 1 != 0, 1) | WordBit(w & 2 != 0, 2) | WordBit(w & 4 != 0, 4) | WordBit(w & 8 != 0, 8) |
            WordBit(w & 16 != 0, 16) | WordBit(w & 32 != 0, 32) | WordBit(w & 64 != 0, 64) | WordBit(w & 128 != 0, 128)
         == w & 0xFF
  {
  }

  lemma WordOfItsBits(w: Word)
    ensures WordOfBits(BitsOfWord(w)) == Low(w)
  {
    hide WordBit;
    LowBits(w);
  }

  lemma ByteBits(b: Bits)
    ensures BitsOfByte(ByteOfBits(b)) == b
  {
    var low, high := NibbleValue(b.b0, b.b1, b.b2, b.b3), NibbleValue(b.b4, b.b5, b.b6, b.b7);
    NibbleBits(b.b0, b.b1, b.b2, b.b3);
    NibbleBits(b.b4, b.b5, b.b6, b.b7);
    Halves(low, high);
  }

  lemma WidenLowByte(w: Word)
    ensures Widen(LowByte(w)) == Low(w)
  {
    hide WordOfBits, BitsOfWord, Low, BitsOfByte, ByteOfBits;
    ByteBits(BitsOfWord(w));
    WordOfItsBits(w);
  }

  lemma ByteOfItsBits(b: byte)
    ensures ByteOfBits(BitsOfByte(b)) == b
  {
    hide NibbleBit, NibbleValue;
    NibbleOfBits(b % 16);
    NibbleOfBits(b / 16);
  }

  lemma LowByteWiden(b: byte)
    ensures LowByte(Widen(b)) == b && IsByte(Widen(b))
  {
    hide WordOfBits, BitsOfWord, IsByte, ByteOfBits, BitsOfByte;
    WordBits(BitsOfByte(b));
    ByteOfItsBits(b);
  }

  // ---- words ------------------------------------------------------------------

  function Xor(a: Word, b: Word): Word {
    (a ^ b)
  }

  function Low(w: Word): Word {
    (w & 0xFF)
  }

  function High(w: Word): Word {
    (w & 0xFFFF_FF00)
  }

  function Down8(w: Word): Word {
    (w >> 8)
  }

  function Up8(w: Word): Word {
    (w << 8)
  }

  predicate IsByte(w: Word) {
    w & 0xFFFF_FF00 == 0
  }

  const ONES: Word := 0xFFFF_FFFF

  lemma XorCancel(a: Word, b: Word, w: Word)
    requires Xor(a, w) == Xor(b, w)
    ensures a == b
  {
  }

  lemma XorAssociative(a: Word, b: Word, c: Word)
    ensures Xor(Xor(a, b), c) == Xor(a, Xor(b, c))
  {
  }

  lemma SplitLow(w: Word)
    ensures Xor(Low(w), High(w)) == w && Low(High(w)) == 0 && Down8(High(w)) == Down8(w)
  {
  }

  // ---- four bytes at once -----------------------------------------------------

  /** Four widened bytes side by side; they do not overlap, so xor puts them together. */
  function Join4(w0: Word, w1: Word, w2: Word, w3: Word): Word {
    Xor(Xor(Xor(w0, Up8(w1)), Up8(Up8(w2))), Up8(Up8(Up8(w3))))
  }

  /** Four bytes as one word, least significant byte first. */
  function Word4(d: bytes): Word
    requires |d| == 4
  {
    Join4(Widen(d[0]), Widen(d[1]), Widen(d[2]), Widen(d[3]))
  }

  /** The bytes of a register, least significant first (tpkg__put32). */
  function WordBytes(w: Word): (r: bytes)
    ensures |r| == 4
  {
    [LowByte(w), LowByte(Down8(w)), LowByte(Down8(Down8(w))), LowByte(Down8(Down8(Down8(w))))]
  }

  lemma BytesOfWord(w: Word)
    ensures Word4(WordBytes(w)) == w
  {
    hide LowByte, Widen;
    WidenLowByte(w);
    WidenLowByte(Down8(w));
    WidenLowByte(Down8(Down8(w)));
    WidenLowByte(Down8(Down8(Down8(w))));
  }

  lemma Word4Parts(d: bytes)
    requires |d| == 4 && IsByte(Widen(d[0])) && IsByte(Widen(d[1])) && IsByte(Widen(d[2])) && IsByte(Widen(d[3]))
    ensures var w := Word4(d);
            && Low(w) == Widen(d[0]) && Low(Down8(w)) == Widen(d[1])
            && Low(Down8(Down8(w))) == Widen(d[2]) && Low(Down8(Down8(Down8(w)))) == Widen(d[3])
  {
    hide Widen;
  }

  lemma ByteFromLow(w: Word, b: byte)
    requires Low(w) == Widen(b)
    ensures LowByte(w) == b
  {
    hide LowByte, Widen, Low, IsByte;
    WidenLowByte(w);
    LowByteWiden(LowByte(w));
    LowByteWiden(b);
  }

  lemma WordOfBytes(d: bytes)
    requires |d| == 4
    ensures WordBytes(Word4(d)) == d
  {
    hide LowByte, Widen, Low, IsByte, Down8, Word4;
    LowByteWiden(d[0]);
    LowByteWiden(d[1]);
    LowByteWiden(d[2]);
    LowByteWiden(d[3]);
    Word4Parts(d);
    var w := Word4(d);
    ByteFromLow(w, d[0]);
    ByteFromLow(Down8(w), d[1]);
    ByteFromLow(Down8(Down8(w)), d[2]);
    ByteFromLow(Down8(Down8(Down8(w))), d[3]);
  }

  // ---- putting a number together from shifted bytes ----------------------------

  /** Bits that do not overlap: or-ing them together adds them. */
  lemma OrIsSum(n: bv64, m: bv64)
    requires n & m == 0
    ensures n | m == n + m
  {
  }

  lemma ShiftedApart(n: bv64, b: bv64, k: bv64)
    requires k < 64 && n >> k == 0
    ensures n & (b << k) == 0
  {
  }

  /** tpkg__get64 (and tpkg__get32): or-ing in a byte above all bits set so far adds it. */
  lemma OrAddsByte(n: bv64, b: bv64, k: bv64)
    requires k < 64 && n >> k == 0
    ensures n | (b << k) == n + (b << k)
  {
    ShiftedApart(n, b, k);
    OrIsSum(n, b << k);
  }
}
