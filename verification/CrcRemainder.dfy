/**
 * What CRC-32 is, apart from the routines: the remainder of a division of polynomials
 * over the field of two elements, with the first and the last 32 bits inverted.
 */
module CrcRemainder {
  import opened Bytes
  import opened Words
  import opened Crc

  // ---------------------------------------------------------------------
  // Polynomials
  // ---------------------------------------------------------------------

  /** Coefficients, the highest degree first. */
  type Polynomial = seq<bool>

  /** The degrees of the generator x^32 + x^26 + ... + x + 1. */
  const DEGREES: set<int> := {32, 26, 23, 22, 16, 12, 11, 10, 8, 7, 5, 4, 2, 1, 0}

  function Generator(): (g: Polynomial)
    ensures |g| == 33 && forall i :: 0 <= i < 33 ==> g[i] == (32 - i in DEGREES)
  {
    seq(33, i => 32 - i in DEGREES)
  }

  /** b added to the leading coefficients of a. */
  function Added(a: Polynomial, b: Polynomial): (r: Polynomial)
    requires |b| <= |a|
    ensures |r| == |a|
    ensures forall i :: 0 <= i < |a| ==> r[i] == if i < |b| then a[i] != b[i] else a[i]
  {
    seq(|a|, i requires 0 <= i < |a| => if i < |b| then a[i] != b[i] else a[i])
  }

  /** Long division by the generator. */
  function Remainder(m: Polynomial): (r: Polynomial)
    ensures |r| == if |m| <= 32 then |m| else 32
    decreases |m|
  {
    if |m| <= 32 then m
    else if m[0] then Remainder(Added(m, Generator())[1..])
    else Remainder(m[1..])
  }

  function Repeated(b: bool, n: nat): (r: Polynomial)
    ensures |r| == n && forall i :: 0 <= i < n ==> r[i] == b
  {
    seq(n, _ => b)
  }

  function Inverted(a: Polynomial): (r: Polynomial)
    ensures |r| == |a|
  {
    Added(a, Repeated(true, |a|))
  }

  /** A byte is read from its lowest bit. */
  function ByteBits(b: byte): (r: Polynomial)
    ensures |r| == 8
  {
    [b % 2 == 1, b / 2 % 2 == 1, b / 4 % 2 == 1, b / 8 % 2 == 1,
     b / 16 % 2 == 1, b / 32 % 2 == 1, b / 64 % 2 == 1, b / 128 % 2 == 1]
  }

  function MessageBits(d: bytes): (r: Polynomial)
    ensures |r| == 8 * |d|
  {
    if d == [] then [] else ByteBits(d[0]) + MessageBits(d[1..])
  }

  predicate Bit(w: Word, mask: Word) {
    And(w, mask) != 0
  }

  function LowBits(w: Word): (r: Polynomial)
    ensures |r| == 8
  {
    [Bit(w, 1), Bit(w, 2), Bit(w, 4), Bit(w, 8), Bit(w, 16), Bit(w, 32), Bit(w, 64), Bit(w, 128)]
  }

  /** The coefficients in a register: its lowest bit is that of x^31. */
  function Coefficients(w: Word): (r: Polynomial)
    ensures |r| == 32
  {
    LowBits(w) + LowBits(Down8(w)) + LowBits(Down8(Down8(w))) + LowBits(Down8(Down8(Down8(w))))
  }

  // ---------------------------------------------------------------------
  // Registers as polynomials
  // ---------------------------------------------------------------------

  function And(w: Word, mask: Word): Word {
    (w & mask)
  }

  lemma MaskOfXor(a: Word, b: Word, mask: Word)
    ensures And(Xor(a, b), mask) == Xor(And(a, mask), And(b, mask))
  {
  }

  predicate IsMask(mask: Word) {
    mask == 1 || mask == 2 || mask == 4 || mask == 8 || mask == 16 || mask == 32 || mask == 64 || mask == 128
  }

  lemma Masks()
    ensures IsMask(1) && IsMask(2) && IsMask(4) && IsMask(8) && IsMask(16) && IsMask(32) && IsMask(64) && IsMask(128)
  {
  }

  lemma Masked(a: Word, mask: Word)
    requires IsMask(mask)
    ensures And(a, mask) == 0 || And(a, mask) == mask
  {
  }

  lemma OneOrNone(x: Word, y: Word, mask: Word)
    requires (x == 0 || x == mask) && (y == 0 || y == mask)
    ensures Xor(x, y) != 0 <==> (x != 0) != (y != 0)
  {
    XorIsZero(x, y);
    hide Xor;
  }

  lemma XorIsZero(x: Word, y: Word)
    ensures Xor(x, y) == 0 <==> x == y
  {
    XorSelf(y);
    if Xor(x, y) == 0 {
      XorCancel(x, y, y);
    }
  }

  lemma XorSelf(x: Word)
    ensures Xor(x, x) == 0
  {
  }

  lemma BitOfXor(a: Word, b: Word, mask: Word)
    requires IsMask(mask)
    ensures Bit(Xor(a, b), mask) <==> Bit(a, mask) != Bit(b, mask)
  {
    hide IsMask, And, Xor;
    Masked(a, mask);
    Masked(b, mask);
    MaskOfXor(a, b, mask);
    OneOrNone(And(a, mask), And(b, mask), mask);
  }

  lemma LowBitsAt(w: Word)
    ensures LowBits(w)[0] == Bit(w, 1) && LowBits(w)[1] == Bit(w, 2) && LowBits(w)[2] == Bit(w, 4)
    ensures LowBits(w)[3] == Bit(w, 8) && LowBits(w)[4] == Bit(w, 16) && LowBits(w)[5] == Bit(w, 32)
    ensures LowBits(w)[6] == Bit(w, 64) && LowBits(w)[7] == Bit(w, 128)
  {
    hide Bit;
  }

  lemma LowBitsOfXor(a: Word, b: Word)
    ensures LowBits(Xor(a, b)) == Added(LowBits(a), LowBits(b))
  {
    Masks();
    hide Bit, Xor, Added, IsMask, LowBits;
    LowBitsAt(a);
    LowBitsAt(b);
    LowBitsAt(Xor(a, b));
    BitOfXor(a, b, 1);
    BitOfXor(a, b, 2);
    BitOfXor(a, b, 4);
    BitOfXor(a, b, 8);
    BitOfXor(a, b, 16);
    BitOfXor(a, b, 32);
    BitOfXor(a, b, 64);
    BitOfXor(a, b, 128);
    BitsAdded(LowBits(a), LowBits(b), LowBits(Xor(a, b)));
  }

  lemma BitsAdded(a: Polynomial, b: Polynomial, c: Polynomial)
    requires |a| == |b| == |c| == 8
    requires c[0] == (a[0] != b[0]) && c[1] == (a[1] != b[1]) && c[2] == (a[2] != b[2]) && c[3] == (a[3] != b[3])
    requires c[4] == (a[4] != b[4]) && c[5] == (a[5] != b[5]) && c[6] == (a[6] != b[6]) && c[7] == (a[7] != b[7])
    ensures c == Added(a, b)
  {
    hide Added;
    forall i | 0 <= i < 8 ensures c[i] == (a[i] != b[i]) {
      assert i == 0 || i == 1 || i == 2 || i == 3 || i == 4 || i == 5 || i == 6 || i == 7;
    }
  }

  lemma Down8OfXor(a: Word, b: Word)
    ensures Down8(Xor(a, b)) == Xor(Down8(a), Down8(b))
  {
  }

  lemma AddedInParts(a: Polynomial, b: Polynomial, c: Polynomial, d: Polynomial)
    requires |a| == |c| && |b| == |d|
    ensures Added(a + b, c + d) == Added(a, c) + Added(b, d)
  {
  }

  lemma CoefficientsOfXor(a: Word, b: Word)
    ensures Coefficients(Xor(a, b)) == Added(Coefficients(a), Coefficients(b))
  {
    hide LowBits, Xor, Down8, Added;
    var a1, b1 := Down8(a), Down8(b);
    var a2, b2 := Down8(a1), Down8(b1);
    var a3, b3 := Down8(a2), Down8(b2);
    LowBitsOfXor(a, b);
    LowBitsOfXor(a1, b1);
    LowBitsOfXor(a2, b2);
    LowBitsOfXor(a3, b3);
    Down8OfXor(a, b);
    Down8OfXor(a1, b1);
    Down8OfXor(a2, b2);
    AddedInParts(LowBits(a), LowBits(a1), LowBits(b), LowBits(b1));
    AddedInParts(LowBits(a) + LowBits(a1), LowBits(a2), LowBits(b) + LowBits(b1), LowBits(b2));
    AddedInParts(LowBits(a) + LowBits(a1) + LowBits(a2), LowBits(a3), LowBits(b) + LowBits(b1) + LowBits(b2), LowBits(b3));
  }

  function Half(w: Word): Word {
    (w >> 1)
  }

  lemma BitOfHalf(c: Word)
    ensures Bit(Half(c), 1) == Bit(c, 2) && Bit(Half(c), 2) == Bit(c, 4) && Bit(Half(c), 4) == Bit(c, 8)
    ensures Bit(Half(c), 8) == Bit(c, 16) && Bit(Half(c), 16) == Bit(c, 32) && Bit(Half(c), 32) == Bit(c, 64)
    ensures Bit(Half(c), 64) == Bit(c, 128) && Bit(Half(c), 128) == Bit(Down8(c), 1)
    ensures Down8(Half(c)) == Half(Down8(c))
  {
  }

  lemma LowBitsOfHalf(c: Word)
    ensures LowBits(Half(c)) == LowBits(c)[1..] + [LowBits(Down8(c))[0]]
    ensures Down8(Half(c)) == Half(Down8(c))
  {
    hide Bit, Down8, Half;
    BitOfHalf(c);
  }

  lemma Slid(a: Polynomial, b: Polynomial, c: Polynomial, d: Polynomial)
    requires |a| == |b| == |c| == |d| == 8
    ensures (a[1..] + [b[0]]) + (b[1..] + [c[0]]) + (c[1..] + [d[0]]) + (d[1..] + [false]) == (a + b + c + d)[1..] + [false]
  {
  }

  lemma NothingAbove(c: Word)
    ensures Down8(Down8(Down8(Down8(c)))) == 0 && !LowBits(0)[0]
  {
  }

  lemma CoefficientsOfHalf(c: Word)
    ensures Coefficients(Half(c)) == Coefficients(c)[1..] + [false]
  {
    NothingAbove(c);
    hide LowBits, Down8, Half;
    var c1 := Down8(c);
    var c2 := Down8(c1);
    var c3 := Down8(c2);
    LowBitsOfHalf(c);
    LowBitsOfHalf(c1);
    LowBitsOfHalf(c2);
    LowBitsOfHalf(c3);
    Slid(LowBits(c), LowBits(c1), LowBits(c2), LowBits(c3));
  }

  lemma GeneratorBits()
    ensures Coefficients(0xEDB8_8320) == Generator()[1..]
  {
  }

  /** One shift of the register multiplies by x and reduces. */
  function Step(w: Polynomial): (r: Polynomial)
    requires |w| == 32
    ensures |r| == 32
  {
    var slid := w[1..] + [false];
    if w[0] then Added(slid, Generator()[1..]) else slid
  }

  lemma LowBitIs(c: Word)
    ensures Coefficients(c)[0] == (c & 1 == 1)
  {
    LowBitsAt(c);
    assert c & 1 == 0 || c & 1 == 1;
    hide LowBits;
  }

  lemma ShiftIs(c: Word)
    ensures Shift(c) == if c & 1 == 1 then Xor(Half(c), 0xEDB8_8320) else Half(c)
  {
  }

  lemma ShiftIsStep(c: Word)
    ensures Coefficients(Shift(c)) == Step(Coefficients(c))
  {
    hide Coefficients, Shift, Half, Xor;
    LowBitIs(c);
    ShiftIs(c);
    CoefficientsOfHalf(c);
    CoefficientsOfXor(Half(c), 0xEDB8_8320);
    GeneratorBits();
  }

  function Steps(w: Polynomial, n: nat): (r: Polynomial)
    requires |w| == 32
    ensures |r| == 32
    decreases n
  {
    if n == 0 then w else Steps(Step(w), n - 1)
  }

  lemma Shift8IsSteps(c: Word)
    ensures Coefficients(Shift8(c)) == Steps(Coefficients(c), 8)
  {
    hide Coefficients, Shift, Step;
    var c1 := Shift(c);
    var c2 := Shift(c1);
    var c3 := Shift(c2);
    var c4 := Shift(c3);
    var c5 := Shift(c4);
    var c6 := Shift(c5);
    var c7 := Shift(c6);
    ShiftIsStep(c);
    ShiftIsStep(c1);
    ShiftIsStep(c2);
    ShiftIsStep(c3);
    ShiftIsStep(c4);
    ShiftIsStep(c5);
    ShiftIsStep(c6);
    ShiftIsStep(c7);
    assert Steps(Coefficients(c7), 1) == Coefficients(Shift(c7));
    assert Steps(Coefficients(c6), 2) == Steps(Coefficients(c7), 1);
    assert Steps(Coefficients(c5), 3) == Steps(Coefficients(c6), 2);
    assert Steps(Coefficients(c4), 4) == Steps(Coefficients(c5), 3);
    assert Steps(Coefficients(c3), 5) == Steps(Coefficients(c4), 4);
    assert Steps(Coefficients(c2), 6) == Steps(Coefficients(c3), 5);
    assert Steps(Coefficients(c1), 7) == Steps(Coefficients(c2), 6);
  }

  lemma NibbleDigits(n: nat)
    requires n < 16
    ensures NibbleBit(n, 0) == (n % 2 == 1) && NibbleBit(n, 1) == (n / 2 % 2 == 1)
    ensures NibbleBit(n, 2) == (n / 4 % 2 == 1) && NibbleBit(n, 3) == (n / 8 % 2 == 1)
  {
  }

  lemma LowDigits(b: byte)
    ensures b % 16 % 2 == b % 2 && b % 16 / 2 % 2 == b / 2 % 2
    ensures b % 16 / 4 % 2 == b / 4 % 2 && b % 16 / 8 % 2 == b / 8 % 2
  {
    var q, r := b / 16, b % 16;
    SplitDigits(q, r);
    EvenPlus(8 * q, r);
    EvenPlus(4 * q, r / 2);
    EvenPlus(2 * q, r / 4);
    EvenPlus(q, r / 8);
  }

  lemma SplitDigits(q: nat, r: nat)
    ensures (16 * q + r) / 2 == 8 * q + r / 2 && (16 * q + r) / 4 == 4 * q + r / 4 && (16 * q + r) / 8 == 2 * q + r / 8
  {
  }

  lemma EvenPlus(n: nat, r: nat)
    ensures (2 * n + r) % 2 == r % 2
  {
  }

  lemma HighDigits(b: byte)
    ensures b / 16 / 2 == b / 32 && b / 16 / 4 == b / 64 && b / 16 / 8 == b / 128
  {
  }

  lemma ByteDigits(b: byte)
    ensures var bits := BitsOfByte(b);
      ByteBits(b) == [bits.b0, bits.b1, bits.b2, bits.b3, bits.b4, bits.b5, bits.b6, bits.b7]
  {
    hide NibbleBit;
    LowDigits(b);
    HighDigits(b);
    NibbleDigits(b % 16);
    NibbleDigits(b / 16);
  }

  lemma LowBitsAreBits(w: Word)
    ensures var bits := BitsOfWord(w);
      LowBits(w) == [bits.b0, bits.b1, bits.b2, bits.b3, bits.b4, bits.b5, bits.b6, bits.b7]
  {
  }

  lemma WidenedBits(b: byte)
    ensures LowBits(Widen(b)) == ByteBits(b) && Down8(Widen(b)) == 0
  {
    hide BitsOfByte, ByteBits, LowBits, WordOfBits, BitsOfWord, IsByte, Down8;
    WordBits(BitsOfByte(b));
    LowBitsAreBits(Widen(b));
    ByteDigits(b);
    ByteIsLow(Widen(b));
  }

  lemma ByteIsLow(w: Word)
    requires IsByte(w)
    ensures Down8(w) == 0
  {
  }

  lemma NoBits()
    ensures LowBits(0) == Repeated(false, 8) && Down8(0) == 0
  {
  }

  lemma CoefficientsOfByte(b: byte)
    ensures Coefficients(Widen(b)) == ByteBits(b) + Repeated(false, 24)
  {
    hide LowBits, Widen, Down8, ByteBits;
    WidenedBits(b);
    NoBits();
  }

  // ---------------------------------------------------------------------
  // The register machine divides
  // ---------------------------------------------------------------------

  /** Dividing on past a leading zero of the message is one step of the register. */
  lemma OneStep(rest: Polynomial, w: Polynomial)
    requires |w| == 32 <= |rest|
    ensures Remainder(Added([false] + rest, w)) == Remainder(Added(rest, Step(w)))
  {
    var m := Added([false] + rest, w);
    if w[0] {
      assert Added(m, Generator())[1..] == Added(rest, Step(w));
    } else {
      assert m[1..] == Added(rest, Step(w));
    }
  }

  lemma {:induction false} ManySteps(n: nat, rest: Polynomial, w: Polynomial)
    requires |w| == 32 <= |rest|
    ensures Remainder(Added(Repeated(false, n) + rest, w)) == Remainder(Added(rest, Steps(w, n)))
    decreases n
  {
    hide Remainder, Added, Step;
    if n == 0 {
      assert Repeated(false, 0) + rest == rest;
    } else {
      assert Repeated(false, n) + rest == [false] + (Repeated(false, n - 1) + rest);
      OneStep(Repeated(false, n - 1) + rest, w);
      ManySteps(n - 1, rest, Step(w));
    }
  }

  /** The first byte of a message can be added to the register instead. */
  lemma ByteIntoRegister(b: byte, rest: Polynomial, w: Polynomial)
    requires |w| == 32 <= |rest|
    ensures Added(ByteBits(b) + rest, w)
         == Added(Repeated(false, 8) + rest, Added(w, ByteBits(b) + Repeated(false, 24)))
  {
  }

  lemma {:induction false} FeedDivides(s: Word, d: bytes)
    ensures Coefficients(Feed(s, d)) == Remainder(Added(MessageBits(d) + Repeated(false, 32), Coefficients(s)))
    decreases |d|
  {
    hide Coefficients, Remainder, Added, Steps, ByteBits, Widen, Shift8, Xor;
    var zeros := Repeated(false, 32);
    if d == [] {
      Undivided(zeros, Coefficients(s));
      assert MessageBits(d) + zeros == zeros;
    } else {
      var rest, x := MessageBits(d[1..]) + zeros, Xor(s, Widen(d[0]));
      assert MessageBits(d) + zeros == ByteBits(d[0]) + rest;
      ByteIntoRegister(d[0], rest, Coefficients(s));
      CoefficientsOfXor(s, Widen(d[0]));
      CoefficientsOfByte(d[0]);
      ManySteps(8, rest, Coefficients(x));
      Shift8IsSteps(x);
      FeedDivides(Shift8(x), d[1..]);
    }
  }

  lemma Undivided(zeros: Polynomial, w: Polynomial)
    requires zeros == Repeated(false, 32) && |w| == 32
    ensures Remainder(Added(zeros, w)) == w
  {
    assert Added(zeros, w) == w;
  }

  lemma OnesAreOnes()
    ensures Coefficients(ONES) == Repeated(true, 32)
  {
    assert LowBits(0xFF) == Repeated(true, 8) && LowBits(0xFFFF) == Repeated(true, 8);
    assert LowBits(0xFF_FFFF) == Repeated(true, 8) && LowBits(0xFFFF_FFFF) == Repeated(true, 8);
    assert Down8(ONES) == 0xFF_FFFF && Down8(Down8(ONES)) == 0xFFFF && Down8(Down8(Down8(ONES))) == 0xFF;
  }

  /**
   * The CRC of a message: append 32 zeros, invert the first 32 bits, divide by the
   * generator, invert the remainder.
   */
  lemma CrcIsRemainder(d: bytes)
    ensures Coefficients(Crc32(d)) == Inverted(Remainder(Added(MessageBits(d) + Repeated(false, 32), Repeated(true, 32))))
  {
    hide Coefficients, Remainder, Added, Feed, Xor;
    FeedDivides(ONES, d);
    CoefficientsOfXor(Feed(ONES, d), ONES);
    OnesAreOnes();
  }

  // ---------------------------------------------------------------------
  // A register as a number
  // ---------------------------------------------------------------------

  /** The number with these binary digits, lowest first. */
  function BinaryValue(bits: Polynomial): nat {
    if bits == [] then 0 else (if bits[0] then 1 else 0) + 2 * BinaryValue(bits[1..])
  }

  function Pow2(n: nat): (p: nat)
    ensures p > 0
  {
    if n == 0 then 1 else 2 * Pow2(n - 1)
  }

  lemma {:induction false} ValueOfConcat(a: Polynomial, b: Polynomial)
    ensures BinaryValue(a + b) == BinaryValue(a) + Pow2(|a|) * BinaryValue(b)
    decreases |a|
  {
    if a == [] {
      assert a + b == b;
    } else {
      assert (a + b)[1..] == a[1..] + b;
      ValueOfConcat(a[1..], b);
      Distribute(BinaryValue(a[1..]), Pow2(|a| - 1), BinaryValue(b));
    }
  }

  lemma Distribute(x: nat, p: nat, y: nat)
    ensures 2 * (x + p * y) == 2 * x + 2 * p * y
  {
  }

  function Digits(n: nat, k: nat): (r: Polynomial)
    ensures |r| == k
  {
    if k == 0 then [] else [n % 2 == 1] + Digits(n / 2, k - 1)
  }

  lemma {:induction false} ValueOfDigits(n: nat, k: nat)
    requires n < Pow2(k)
    ensures BinaryValue(Digits(n, k)) == n
    decreases k
  {
    if k > 0 {
      ValueOfDigits(n / 2, k - 1);
      assert Digits(n, k)[1..] == Digits(n / 2, k - 1);
    }
  }

  lemma HalfThenDivide(n: nat, p: nat)
    requires p > 0
    ensures n / 2 / p == n / (2 * p)
  {
    var q, r := n / 2 / p, n / 2 % p;
    var rest := 2 * r + n % 2;
    assert n == 2 * (q * p + r) + n % 2;
    Bytes.DivUnique(n, 2 * p, q, rest);
  }

  lemma {:induction false} DigitAt(n: nat, k: nat, i: nat)
    requires i < k
    ensures Digits(n, k)[i] == (n / Pow2(i) % 2 == 1)
    decreases i
  {
    if i > 0 {
      DigitAt(n / 2, k - 1, i - 1);
      HalfThenDivide(n, Pow2(i - 1));
    }
  }

  lemma ByteBitsAt(b: byte)
    ensures ByteBits(b)[0] == (b % 2 == 1) && ByteBits(b)[1] == (b / 2 % 2 == 1)
    ensures ByteBits(b)[2] == (b / 4 % 2 == 1) && ByteBits(b)[3] == (b / 8 % 2 == 1)
    ensures ByteBits(b)[4] == (b / 16 % 2 == 1) && ByteBits(b)[5] == (b / 32 % 2 == 1)
    ensures ByteBits(b)[6] == (b / 64 % 2 == 1) && ByteBits(b)[7] == (b / 128 % 2 == 1)
  {
  }

  lemma DigitsOfByte(b: byte)
    ensures ByteBits(b) == Digits(b, 8)
  {
    hide Digits, ByteBits;
    ByteBitsAt(b);
    assert Pow2(1) == 2 && Pow2(2) == 4 && Pow2(3) == 8 && Pow2(4) == 16;
    assert Pow2(5) == 32 && Pow2(6) == 64 && Pow2(7) == 128;
    DigitAt(b, 8, 0);
    DigitAt(b, 8, 1);
    DigitAt(b, 8, 2);
    DigitAt(b, 8, 3);
    DigitAt(b, 8, 4);
    DigitAt(b, 8, 5);
    DigitAt(b, 8, 6);
    DigitAt(b, 8, 7);
    hide Pow2;
    SameEight(ByteBits(b), Digits(b, 8));
  }

  lemma SameEight(a: Polynomial, b: Polynomial)
    requires |a| == |b| == 8 && a[0] == b[0] && a[1] == b[1] && a[2] == b[2] && a[3] == b[3]
    requires a[4] == b[4] && a[5] == b[5] && a[6] == b[6] && a[7] == b[7]
    ensures a == b
  {
    forall i | 0 <= i < 8 ensures a[i] == b[i] {
      assert i == 0 || i == 1 || i == 2 || i == 3 || i == 4 || i == 5 || i == 6 || i == 7;
    }
  }

  lemma ByteValue(b: byte)
    ensures BinaryValue(ByteBits(b)) == b
  {
    hide ByteBits, BinaryValue;
    DigitsOfByte(b);
    assert Pow2(4) == 16 && Pow2(6) == 64 && Pow2(8) == 256;
    ValueOfDigits(b, 8);
  }

  /** The bits of a byte string, read as one number, are its little-endian value. */
  lemma {:induction false} ValueOfMessage(d: bytes)
    ensures BinaryValue(MessageBits(d)) == LeValue(d)
    decreases |d|
  {
    hide ByteBits;
    if d != [] {
      ValueOfConcat(ByteBits(d[0]), MessageBits(d[1..]));
      ByteValue(d[0]);
      ValueOfMessage(d[1..]);
      assert Pow2(4) == 16 && Pow2(6) == 64 && Pow2(8) == 256;
    }
  }

  lemma LowByteDigits(w: Word)
    ensures ByteBits(LowByte(w)) == LowBits(w)
  {
    hide ByteBits, LowBits, BitsOfByte, ByteOfBits, BitsOfWord;
    LowBitsAreBits(w);
    ByteDigits(LowByte(w));
    Words.ByteBits(BitsOfWord(w));
  }

  /** The four bytes stored for a register are the number with the register's bits. */
  lemma RegisterValue(w: Word)
    ensures MessageBits(WordBytes(w)) == Coefficients(w)
    ensures LeValue(WordBytes(w)) == BinaryValue(Coefficients(w))
  {
    hide ByteBits, LowBits, LowByte, Down8, LeValue, BinaryValue;
    var w1 := Down8(w);
    var w2 := Down8(w1);
    var w3 := Down8(w2);
    LowByteDigits(w);
    LowByteDigits(w1);
    LowByteDigits(w2);
    LowByteDigits(w3);
    FourBytes(LowByte(w), LowByte(w1), LowByte(w2), LowByte(w3));
    ValueOfMessage(WordBytes(w));
  }

  lemma FourBytes(a: byte, b: byte, c: byte, d: byte)
    ensures MessageBits([a, b, c, d]) == ByteBits(a) + ByteBits(b) + ByteBits(c) + ByteBits(d)
  {
    hide ByteBits;
    assert [a, b, c, d][1..] == [b, c, d] && [b, c, d][1..] == [c, d] && [c, d][1..] == [d] && [d][1..] == [];
    assert MessageBits([d]) == ByteBits(d) + [] == ByteBits(d);
    assert MessageBits([c, d]) == ByteBits(c) + ByteBits(d);
    assert MessageBits([b, c, d]) == ByteBits(b) + (ByteBits(c) + ByteBits(d));
  }
}
