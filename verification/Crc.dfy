/** CRC-32 (polynomial 0xEDB88320): bit-at-a-time, table-driven and streaming. */
module Crc {
  import opened Bytes
  import opened Words

  // ---- the register -------------------------------------------------------------

  /** One bit of the division: shift out the low bit, reduce if it was set. */
  function Shift(c: Word): Word {
    if c & 1 == 1 then (c >> 1) ^ 0xEDB8_8320 else c >> 1
  }

  function Shift8(c: Word): Word {
    Shift(Shift(Shift(Shift(Shift(Shift(Shift(Shift(c))))))))
  }

  function Absorb(state: Word, b: byte): Word {
    Shift8(Xor(state, Widen(b)))
  }

  /** The register after reading data, starting from state. */
  function Feed(state: Word, data: bytes): Word
    decreases data
  {
    if data == [] then state else Feed(Absorb(state, data[0]), data[1..])
  }

  function Crc32(data: bytes): Word {
    Xor(Feed(ONES, data), ONES)
  }

  lemma CrcIs(data: bytes)
    ensures Crc32(data) == Xor(Feed(ONES, data), ONES)
  {
  }

  lemma {:induction false} FeedConcat(state: Word, a: bytes, b: bytes)
    ensures Feed(state, a + b) == Feed(Feed(state, a), b)
    decreases a
  {
    hide Absorb;
    if a == [] {
      assert a + b == b;
    } else {
      assert (a + b)[1..] == a[1..] + b;
      FeedConcat(Absorb(state, a[0]), a[1..], b);
    }
  }

  lemma FeedSnoc(state: Word, a: bytes, b: byte)
    ensures Feed(state, a + [b]) == Absorb(Feed(state, a), b)
  {
    hide Absorb;
    FeedConcat(state, a, [b]);
    assert Feed(Feed(state, a), [b]) == Feed(Absorb(Feed(state, a), b), []);
  }

  lemma HalfOfXor(a: bv32, b: bv32)
    ensures (a ^ b) >> 1 == (a >> 1) ^ (b >> 1)
    ensures (a ^ b) & 1 == 1 <==> (a & 1 == 1) != (b & 1 == 1)
  {
  }

  lemma XorCommutes(a: bv32, b: bv32, p: bv32)
    ensures (a ^ p) ^ b == (a ^ b) ^ p && a ^ (b ^ p) == (a ^ b) ^ p && (a ^ p) ^ (b ^ p) == a ^ b
  {
  }

  lemma ShiftLinear(a: Word, b: Word)
    ensures Shift(Xor(a, b)) == Xor(Shift(a), Shift(b))
  {
    HalfOfXor(a, b);
    XorCommutes(a >> 1, b >> 1, 0xEDB8_8320);
  }

  lemma Shift8Linear(a: Word, b: Word)
    ensures Shift8(Xor(a, b)) == Xor(Shift8(a), Shift8(b))
  {
    hide Shift, Xor;
    var a1, b1 := Shift(a), Shift(b);
    var a2, b2 := Shift(a1), Shift(b1);
    var a3, b3 := Shift(a2), Shift(b2);
    var a4, b4 := Shift(a3), Shift(b3);
    var a5, b5 := Shift(a4), Shift(b4);
    var a6, b6 := Shift(a5), Shift(b5);
    var a7, b7 := Shift(a6), Shift(b6);
    ShiftLinear(a, b);
    ShiftLinear(a1, b1);
    ShiftLinear(a2, b2);
    ShiftLinear(a3, b3);
    ShiftLinear(a4, b4);
    ShiftLinear(a5, b5);
    ShiftLinear(a6, b6);
    ShiftLinear(a7, b7);
  }

  lemma Shift8High(c: Word)
    requires Low(c) == 0
    ensures Shift8(c) == Down8(c)
  {
  }

  /** The byte-wise table step is eight bit-wise steps. */
  lemma TableStep(c: Word)
    ensures Shift8(c) == Xor(Shift8(Low(c)), Down8(c))
  {
    hide Shift8, Xor, Low, High, Down8;
    SplitLow(c);
    Shift8Linear(Low(c), High(c));
    Shift8High(High(c));
  }

  lemma ShiftInjective(a: Word, b: Word)
    requires Shift(a) == Shift(b)
    ensures a == b
  {
  }

  lemma Shift8Injective(a: Word, b: Word)
    requires Shift8(a) == Shift8(b)
    ensures a == b
  {
    hide Shift;
    var a1, b1 := Shift(a), Shift(b);
    var a2, b2 := Shift(a1), Shift(b1);
    var a3, b3 := Shift(a2), Shift(b2);
    var a4, b4 := Shift(a3), Shift(b3);
    var a5, b5 := Shift(a4), Shift(b4);
    var a6, b6 := Shift(a5), Shift(b5);
    var a7, b7 := Shift(a6), Shift(b6);
    ShiftInjective(a7, b7);
    ShiftInjective(a6, b6);
    ShiftInjective(a5, b5);
    ShiftInjective(a4, b4);
    ShiftInjective(a3, b3);
    ShiftInjective(a2, b2);
    ShiftInjective(a1, b1);
    ShiftInjective(a, b);
  }

  /** Different registers stay different whatever is read next. */
  lemma {:induction false} FeedInjective(s: Word, t: Word, data: bytes)
    requires Feed(s, data) == Feed(t, data)
    ensures s == t
    decreases data
  {
    hide Shift8, Xor;
    if data != [] {
      FeedInjective(Absorb(s, data[0]), Absorb(t, data[0]), data[1..]);
      Shift8Injective(Xor(s, Widen(data[0])), Xor(t, Widen(data[0])));
      XorCancel(s, t, Widen(data[0]));
    }
  }

  // ---- four bytes at once ---------------------------------------------------------

  predicate Fits24(w: Word) {
    w & 0xFF00_0000 == 0
  }

  lemma UpDown(w: Word)
    requires Fits24(w)
    ensures Low(Up8(w)) == 0 && Down8(Up8(w)) == w
  {
  }

  /** What is xored in after eight shifts could have been xored in, eight places up, before. */
  lemma Shift8Xor(x: Word, w: Word)
    requires Fits24(w)
    ensures Xor(Shift8(x), w) == Shift8(Xor(x, Up8(w)))
  {
    hide Shift8, Xor, Up8, Low, Down8, Fits24;
    UpDown(w);
    Shift8Linear(x, Up8(w));
    Shift8High(Up8(w));
  }

  function Shift32(c: Word): Word {
    Shift8(Shift8(Shift8(Shift8(c))))
  }

  lemma FeedFour(s: Word, d: bytes)
    requires |d| == 4
    ensures Feed(s, d) == Absorb(Absorb(Absorb(Absorb(s, d[0]), d[1]), d[2]), d[3])
  {
    hide Absorb;
    FeedSnoc(s, [], d[0]);
    FeedSnoc(s, d[..1], d[1]);
    FeedSnoc(s, d[..2], d[2]);
    FeedSnoc(s, d[..3], d[3]);
    assert d[..1] == [] + [d[0]] && d[..2] == d[..1] + [d[1]] && d[..3] == d[..2] + [d[2]] && d == d[..3] + [d[3]];
  }

  lemma ByteFits(w: Word)
    requires IsByte(w)
    ensures Fits24(w) && Fits24(Up8(w)) && Fits24(Up8(Up8(w)))
  {
  }

  lemma Word4Sum(s: Word, d: bytes)
    requires |d| == 4
    ensures Xor(Xor(Xor(Xor(s, Widen(d[0])), Up8(Widen(d[1]))), Up8(Up8(Widen(d[2])))), Up8(Up8(Up8(Widen(d[3])))))
         == Xor(s, Word4(d))
  {
    hide Widen, Xor, Up8;
    var w0, w1, w2, w3 := Widen(d[0]), Up8(Widen(d[1])), Up8(Up8(Widen(d[2]))), Up8(Up8(Up8(Widen(d[3]))));
    XorAssociative(s, w0, w1);
    XorAssociative(s, Xor(w0, w1), w2);
    XorAssociative(s, Xor(Xor(w0, w1), w2), w3);
  }

  /** Reading four bytes is one 32-step division of the register xor the data word. */
  lemma FeedWord(s: Word, d: bytes)
    requires |d| == 4
    ensures Feed(s, d) == Shift32(Xor(s, Word4(d)))
  {
    hide Shift8, Xor, Up8, Fits24, Widen, LowByte, IsByte, Word4;
    var w1, w2, w3 := Widen(d[1]), Widen(d[2]), Widen(d[3]);
    LowByteWiden(d[1]);
    LowByteWiden(d[2]);
    LowByteWiden(d[3]);
    ByteFits(w1);
    ByteFits(w2);
    ByteFits(w3);
    FeedFour(s, d);
    var x0 := Xor(s, Widen(d[0]));
    Shift8Xor(x0, w1);
    var x1 := Xor(x0, Up8(w1));
    Shift8Xor(Shift8(x1), w2);
    Shift8Xor(x1, Up8(w2));
    var x2 := Xor(x1, Up8(Up8(w2)));
    Shift8Xor(Shift8(Shift8(x2)), w3);
    Shift8Xor(Shift8(x2), Up8(w3));
    Shift8Xor(x2, Up8(Up8(w3)));
    Word4Sum(s, d);
  }

  lemma Shift32Injective(a: Word, b: Word)
    requires Shift32(a) == Shift32(b)
    ensures a == b
  {
    hide Shift8;
    Shift8Injective(Shift8(Shift8(Shift8(a))), Shift8(Shift8(Shift8(b))));
    Shift8Injective(Shift8(Shift8(a)), Shift8(Shift8(b)));
    Shift8Injective(Shift8(a), Shift8(b));
    Shift8Injective(a, b);
  }

  // ---- error detection ------------------------------------------------------------

  /** A difference confined to at most four adjacent bytes always changes the register. */
  lemma {:induction false} BurstChangesRegister(s: Word, d: bytes, e: bytes)
    requires |d| == |e| <= 4 && d != e
    ensures Feed(s, d) != Feed(s, e)
    decreases 4 - |d|
  {
    hide Shift32, Xor, Word4;
    if |d| == 4 {
      if Feed(s, d) == Feed(s, e) {
        FeedWord(s, d);
        FeedWord(s, e);
        Shift32Injective(Xor(s, Word4(d)), Xor(s, Word4(e)));
        XorSame(s, Word4(d), Word4(e));
        WordOfBytes(d);
        WordOfBytes(e);
        assert false;
      }
    } else {
      assert (d + [0])[..|d|] == d && (e + [0])[..|e|] == e;
      BurstChangesRegister(s, d + [0], e + [0]);
      FeedSnoc(s, d, 0);
      FeedSnoc(s, e, 0);
    }
  }

  lemma XorSame(s: Word, a: Word, b: Word)
    requires Xor(s, a) == Xor(s, b)
    ensures a == b
  {
  }

  /** The same, inside a longer message. */
  lemma BurstDetected(s: Word, before: bytes, d: bytes, e: bytes, after: bytes)
    requires |d| == |e| <= 4 && d != e
    ensures Feed(s, before + d + after) != Feed(s, before + e + after)
  {
    FeedConcat(s, before + d, after);
    FeedConcat(s, before + e, after);
    FeedConcat(s, before, d);
    FeedConcat(s, before, e);
    BurstChangesRegister(Feed(s, before), d, e);
    if Feed(s, before + d + after) == Feed(s, before + e + after) {
      FeedInjective(Feed(s, before + d), Feed(s, before + e), after);
    }
  }

  /** What the register holds after any message followed by its own stored CRC. */
  const RESIDUE := Shift32(ONES)

  /** A stored CRC matches exactly when reading it too leaves the residue in the register. */
  lemma StoredCrc(message: bytes, stored: bytes)
    requires |stored| == 4
    ensures stored == WordBytes(Crc32(message)) <==> Feed(ONES, message + stored) == RESIDUE
  {
    hide Shift32, Xor, Word4, WordBytes;
    var s := Feed(ONES, message);
    FeedConcat(ONES, message, stored);
    FeedWord(s, stored);
    BytesOfWord(Crc32(message));
    WordOfBytes(stored);
    XorInvolution(s);
    if Feed(ONES, message + stored) == RESIDUE {
      Shift32Injective(Xor(s, Word4(stored)), ONES);
      XorSame(s, Word4(stored), Xor(s, ONES));
    }
  }

  lemma XorInvolution(s: Word)
    ensures Xor(s, Xor(s, ONES)) == ONES
  {
  }

  // ---- the value itself -------------------------------------------------------------

  /** The ASCII digits 1 to 9, on which CRCs are compared by convention. */
  const CHECK_INPUT: bytes := [0x31, 0x32, 0x33, 0x34, 0x35, 0x36, 0x37, 0x38, 0x39]

  lemma LowCheckDigits()
    ensures Widen(0x31) == 0x31 && Widen(0x32) == 0x32 && Widen(0x33) == 0x33 && Widen(0x34) == 0x34
    ensures Widen(0x35) == 0x35
  {
  }

  lemma HighCheckDigits()
    ensures Widen(0x36) == 0x36 && Widen(0x37) == 0x37 && Widen(0x38) == 0x38 && Widen(0x39) == 0x39
  {
  }

  lemma CheckRegisters()
    ensures Shift8(Xor(0xFFFF_FFFF, 0x31)) == 0x7C23_1048
    ensures Shift8(Xor(0x7C23_1048, 0x32)) == 0xB0AC_BB32
    ensures Shift8(Xor(0xB0AC_BB32, 0x33)) == 0x77B7_9C2D
    ensures Shift8(Xor(0x77B7_9C2D, 0x34)) == 0x641C_1F5C
    ensures Shift8(Xor(0x641C_1F5C, 0x35)) == 0x340A_C5E3
    ensures Shift8(Xor(0x340A_C5E3, 0x36)) == 0xF68D_2C9E
    ensures Shift8(Xor(0xF68D_2C9E, 0x37)) == 0xAFFC_9660
    ensures Shift8(Xor(0xAFFC_9660, 0x38)) == 0x651F_2550
    ensures Shift8(Xor(0x651F_2550, 0x39)) == 0x340B_C6D9
  {
  }

  /** The published check value of CRC-32. */
  lemma CheckValue()
    ensures Crc32(CHECK_INPUT) == 0xCBF4_3926
  {
    hide Shift8, Widen;
    LowCheckDigits();
    HighCheckDigits();
    CheckRegisters();
    var d := CHECK_INPUT;
    assert Feed(ONES, d[..1]) == 0x7C23_1048 by { FeedSnoc(ONES, d[..0], d[0]); assert d[..1] == d[..0] + [d[0]]; }
    assert Feed(ONES, d[..2]) == 0xB0AC_BB32 by { FeedSnoc(ONES, d[..1], d[1]); assert d[..2] == d[..1] + [d[1]]; }
    assert Feed(ONES, d[..3]) == 0x77B7_9C2D by { FeedSnoc(ONES, d[..2], d[2]); assert d[..3] == d[..2] + [d[2]]; }
    assert Feed(ONES, d[..4]) == 0x641C_1F5C by { FeedSnoc(ONES, d[..3], d[3]); assert d[..4] == d[..3] + [d[3]]; }
    assert Feed(ONES, d[..5]) == 0x340A_C5E3 by { FeedSnoc(ONES, d[..4], d[4]); assert d[..5] == d[..4] + [d[4]]; }
    assert Feed(ONES, d[..6]) == 0xF68D_2C9E by { FeedSnoc(ONES, d[..5], d[5]); assert d[..6] == d[..5] + [d[5]]; }
    assert Feed(ONES, d[..7]) == 0xAFFC_9660 by { FeedSnoc(ONES, d[..6], d[6]); assert d[..7] == d[..6] + [d[6]]; }
    assert Feed(ONES, d[..8]) == 0x651F_2550 by { FeedSnoc(ONES, d[..7], d[7]); assert d[..8] == d[..7] + [d[7]]; }
    assert Feed(ONES, d[..9]) == 0x340B_C6D9 by { FeedSnoc(ONES, d[..8], d[8]); assert d[..9] == d[..8] + [d[8]]; }
    assert d[..9] == d;
  }

  /** A leading zero byte always shows. */
  lemma LeadingZeroShows(d: bytes)
    ensures Crc32([0] + d) != Crc32(d)
  {
    ZeroByteMovesOnes();
    hide Absorb, Xor;
    FeedConcat(ONES, [0], d);
    FeedSnoc(ONES, [], 0);
    assert [] + [0] == [0];
    if Crc32([0] + d) == Crc32(d) {
      XorCancel(Feed(ONES, [0] + d), Feed(ONES, d), ONES);
      FeedInjective(Absorb(ONES, 0), ONES, d);
    }
  }

  lemma ZeroByteMovesOnes()
    ensures Absorb(ONES, 0) != ONES
  {
    assert Widen(0) == 0;
    assert Shift8(0xFFFF_FFFF) == 0x2DFD_1072;
  }

  // ---- the routines ---------------------------------------------------------------

  lemma MaskedShift(c: Word)
    ensures (c >> 1) ^ (0xEDB8_8320 & (0 - (c & 1))) == Shift(c)
  {
    if c & 1 == 1 {
      assert 0 - (c & 1) == 0xFFFF_FFFF;
    } else {
      assert c & 1 == 0;
    }
  }

  function ShiftTimes(c: Word, n: nat): Word {
    if n == 0 then c else Shift(ShiftTimes(c, n - 1))
  }

  lemma EightShifts(c: Word)
    ensures ShiftTimes(c, 8) == Shift8(c)
  {
    hide Shift;
    assert ShiftTimes(c, 1) == Shift(c) && ShiftTimes(c, 2) == Shift(Shift(c));
    assert ShiftTimes(c, 3) == Shift(Shift(Shift(c))) && ShiftTimes(c, 4) == Shift(Shift(Shift(Shift(c))));
    assert ShiftTimes(c, 5) == Shift(ShiftTimes(c, 4)) && ShiftTimes(c, 6) == Shift(ShiftTimes(c, 5));
    assert ShiftTimes(c, 7) == Shift(ShiftTimes(c, 6)) && ShiftTimes(c, 8) == Shift(ShiftTimes(c, 7));
  }

  /** Eight masked shifts, the inner loop of tpkg_crc32 and of the table builder. */
  method ShiftByte(c: Word) returns (r: Word)
    ensures r == Shift8(c)
  {
    r := c;
    for k := 0 to 8
      invariant r == ShiftTimes(c, k)
    {
      MaskedShift(r);
      r := (r >> 1) ^ (0xEDB8_8320 & (0 - (r & 1)));
    }
    EightShifts(c);
  }

  /** tpkg_crc32: one bit at a time. */
  method TpkgCrc32(p: array<byte>, at: nat, n: nat) returns (crc: Word)
    requires at + n <= p.Length
    ensures crc == Crc32(p[at..at + n])
    ensures p[at..at + n] == CHECK_INPUT ==> crc == 0xCBF4_3926
  {
    hide Shift8, Xor, Widen, Crc32;
    crc := ONES;
    for i := 0 to n
      invariant crc == Feed(ONES, p[at..at + i])
    {
      FeedSnoc(ONES, p[at..at + i], p[at + i]);
      assert p[at..at + i + 1] == p[at..at + i] + [p[at + i]];
      crc := ShiftByte(Xor(crc, Widen(p[at + i])));
    }
    CrcIs(p[at..at + n]);
    CheckValue();
    crc := Xor(crc, ONES);
  }

  ghost predicate IsTable(t: seq<Word>) {
    |t| == 0x100 && forall i: byte :: t[i] == Shift8(Widen(i))
  }

  method CrcTable() returns (t: array<Word>)
    ensures fresh(t) && IsTable(t[..])
  {
    hide Shift8, Widen;
    t := new Word[0x100];
    for i := 0 to 0x100
      invariant forall j: byte :: j < i ==> t[j] == Shift8(Widen(j))
    {
      t[i] := ShiftByte(Widen(i));
    }
  }

  lemma DownOfXorByte(s: Word, w: Word)
    requires IsByte(w)
    ensures Down8(Xor(s, w)) == Down8(s)
  {
  }

  /** One table step absorbs one byte. */
  lemma TableAbsorbs(state: Word, b: byte)
    ensures Xor(Shift8(Widen(LowByte(Xor(state, Widen(b))))), Down8(state)) == Absorb(state, b)
  {
    hide Shift8, Xor, Widen, LowByte, Down8, IsByte, Low;
    var x := Xor(state, Widen(b));
    WidenLowByte(x);
    TableStep(x);
    LowByteWiden(b);
    DownOfXorByte(state, Widen(b));
  }

  /** crc32_update: one table look-up a byte, from any register state. */
  method CrcUpdate(table: array<Word>, state: Word, data: bytes) returns (r: Word)
    requires IsTable(table[..])
    ensures r == Feed(state, data)
  {
    hide Shift8, Xor, Widen, LowByte, Down8;
    r := state;
    for i := 0 to |data|
      invariant r == Feed(state, data[..i])
    {
      FeedSnoc(state, data[..i], data[i]);
      assert data[..i + 1] == data[..i] + [data[i]];
      TableAbsorbs(r, data[i]);
      var index := LowByte(Xor(r, Widen(data[i])));
      assert table[..][index] == Shift8(Widen(index));
      r := Xor(table[index], Down8(r));
    }
    assert data[..|data|] == data;
  }

  // ---- chunks -----------------------------------------------------------------------

  function Joined(chunks: seq<bytes>): bytes {
    if chunks == [] then [] else chunks[0] + Joined(chunks[1..])
  }

  /**
   * The streaming CRC: start from all ones, update with each chunk, invert.
   * However the bytes are cut up, the result is tpkg_crc32 of all of them.
   */
  method StreamingCrc(chunks: seq<bytes>) returns (crc: Word)
    ensures crc == Crc32(Joined(chunks))
    ensures Joined(chunks) == CHECK_INPUT ==> crc == 0xCBF4_3926
  {
    hide Xor, Crc32;
    var table := CrcTable();
    var state := ONES;
    for i := 0 to |chunks|
      invariant IsTable(table[..])
      invariant Feed(state, Joined(chunks[i..])) == Feed(ONES, Joined(chunks))
    {
      FeedConcat(state, chunks[i], Joined(chunks[i + 1..]));
      assert chunks[i..][1..] == chunks[i + 1..];
      state := CrcUpdate(table, state, chunks[i]);
    }
    CrcIs(Joined(chunks));
    CheckValue();
    crc := Xor(state, ONES);
  }
}
