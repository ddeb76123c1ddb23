/** The checksum of src/log_manager.rs is the remainder of a polynomial division. */
module CrcDivision {
  import opened Common
  import opened Folds
  import opened Crc32
  import opened PolynomialDivision

  function Down(w: bv32): bv32 {
    w >> 1
  }

  predicate Odd(w: bv32) {
    w & 1 != 0
  }

  /** The register of the bit loop. */
  const CRC: Register<bv32> := Register(Down, Odd, Xor, BitStep, 0xEDB8_8320, 1)

  /** A checksum as coefficients: its lowest bit is the highest power. */
  function Coefficients(c: bv32): (p: seq<bool>)
    ensures |p| == DEGREE
  {
    Row(CRC, c)
  }

  /** The bits of a byte in the order in which they are sent, the lowest first. */
  function BitsOf(b: u8): (s: seq<bool>) {
    [b & 1 != 0, b & 2 != 0, b & 4 != 0, b & 8 != 0, b & 0x10 != 0, b & 0x20 != 0, b & 0x40 != 0, b & 0x80 != 0]
  }

  // ----- the register is one of words -----

  lemma XorDown(x: bv32, y: bv32)
    ensures Down(Xor(x, y)) == Xor(Down(x), Down(y)) && (Odd(Xor(x, y)) <==> Odd(x) != Odd(y))
  {
  }

  lemma WordsAddDown()
    ensures AddsDown(Down, Xor)
  {
    forall x, y ensures Down(Xor(x, y)) == Xor(Down(x), Down(y)) {
      XorDown(x, y);
    }
  }

  lemma WordsAddOdd()
    ensures AddsOdd(Odd, Xor)
  {
    forall x, y ensures Odd(Xor(x, y)) <==> Odd(x) != Odd(y) {
      XorDown(x, y);
    }
  }

  lemma DownEight(c: bv32)
    ensures Down(Down(Down(Down(Down(Down(Down(Down(c)))))))) == Shr8(c)
  {
  }

  lemma NothingLeft(c: bv32)
    ensures Shr8(Shr8(Shr8(Shr8(c)))) == 0 && !Odd(0)
  {
  }

  /** Thirty-two shifts leave nothing. */
  lemma AllShiftedOut(c: bv32)
    ensures Iterate(Down, c, DEGREE) == 0 && !Odd(Iterate(Down, c, DEGREE))
  {
    forall x ensures Down(Down(Down(Down(Down(Down(Down(Down(x)))))))) == Shr8(x) {
      DownEight(x);
    }
    IterateByEights(Down, Shr8, c);
    NothingLeft(c);
  }

  lemma RoundIs(x: bv32)
    ensures BitStep(x) == if Odd(x) then Xor(Down(x), 0xEDB8_8320) else Down(x)
  {
  }

  lemma LowestBit(c: bv32)
    ensures Down(Xor(c, 1)) == Down(c) && (Odd(Xor(c, 1)) <==> !Odd(c))
  {
  }

  lemma BytesOfConstant()
    ensures Seen(Down, Odd, 0xEDB88320, 8) == [false, false, false, false, false, true, false, false]
    ensures Iterate(Down, 0xEDB88320, 8) == 0xEDB883
    ensures Seen(Down, Odd, 0xEDB883, 8) == [true, true, false, false, false, false, false, true]
    ensures Iterate(Down, 0xEDB883, 8) == 0xEDB8
    ensures Seen(Down, Odd, 0xEDB8, 8) == [false, false, false, true, true, true, false, true]
    ensures Iterate(Down, 0xEDB8, 8) == 0xED
    ensures Seen(Down, Odd, 0xED, 8) == [true, false, true, true, false, true, true, true]
    ensures Iterate(Down, 0xED, 8) == 0x0
  {
    EightSeen(Down, Odd, 0xEDB88320, 0x76DC4190, 0x3B6E20C8, 0x1DB71064, 0xEDB8832,
              0x76DC419, 0x3B6E20C, 0x1DB7106, 0xEDB883);
    EightSeen(Down, Odd, 0xEDB883, 0x76DC41, 0x3B6E20, 0x1DB710, 0xEDB88,
              0x76DC4, 0x3B6E2, 0x1DB71, 0xEDB8);
    EightSeen(Down, Odd, 0xEDB8, 0x76DC, 0x3B6E, 0x1DB7, 0xEDB,
              0x76D, 0x3B6, 0x1DB, 0xED);
    EightSeen(Down, Odd, 0xED, 0x76, 0x3B, 0x1D, 0xE,
              0x7, 0x3, 0x1, 0x0);
  }

  /** The constant of the loop is the generator without its highest power. */
  lemma ConstantIsGenerator()
    ensures Row(CRC, 0xEDB8_8320) == GeneratorRow()
  {
    BytesOfConstant();
    SeenInBytes(Down, Odd, 0xEDB8_8320, 0xEDB883, 0xEDB8, 0xED);
  }

  lemma WordsTakeRounds()
    ensures Rounds(CRC)
  {
    forall x ensures BitStep(x) == if Odd(x) then Xor(Down(x), 0xEDB8_8320) else Down(x) {
      RoundIs(x);
    }
  }

  lemma WordsFlipLowest()
    ensures FlipsLowest(CRC)
  {
    forall x ensures Down(Xor(x, 1)) == Down(x) && (Odd(Xor(x, 1)) <==> !Odd(x)) {
      LowestBit(x);
    }
  }

  lemma WordsHaveWidth()
    ensures HasWidth(CRC)
  {
    forall x ensures !Odd(Iterate(Down, x, DEGREE)) {
      AllShiftedOut(x);
    }
    ConstantIsGenerator();
  }

  lemma LowestPart(w: bv32)
    ensures w == Xor(w & 1, Up(Down(w))) && TopClear(Down(w))
  {
  }

  lemma LowestIs(w: bv32)
    ensures w & 1 == if Odd(w) then 1 else 0
  {
  }

  lemma XorZero(x: bv32)
    ensures Xor(x, 0) == x
  {
  }

  lemma SplitWord(c: bv32, w: bv32)
    ensures Xor(c, w) == Xor(if Odd(w) then Xor(c, 1) else c, Up(Down(w)))
  {
    LowestPart(w);
    LowestIs(w);
    XorAssociates(c, w & 1, Up(Down(w)));
    XorZero(c);
  }

  lemma OneRound(c: bv32, w: bv32)
    ensures BitStep(Xor(c, w)) == Xor(BitStep(if Odd(w) then Xor(c, 1) else c), Down(w))
  {
    LowestPart(w);
    SplitWord(c, w);
    BitStepSplits(if Odd(w) then Xor(c, 1) else c, Down(w));
  }

  lemma WordsSplit()
    ensures Splits(CRC)
  {
    forall x, y ensures BitStep(Xor(x, y)) == Xor(BitStep(WithBit(CRC, x, Odd(y))), Down(y)) {
      OneRound(x, y);
    }
  }

  lemma WordsAreRegister()
    ensures IsRegister(CRC)
  {
    WordsAddDown();
    WordsAddOdd();
    WordsTakeRounds();
    WordsFlipLowest();
    WordsHaveWidth();
    WordsSplit();
  }

  // ----- eight rounds are one byte -----

  lemma ByteRest(b: u8)
    ensures Down(Down(Down(Down(Down(Down(Down(Down(Widen(b))))))))) == 0
  {
  }

  lemma ByteBit(b: u8)
    ensures Odd(Widen(b)) <==> b & 1 != 0
    ensures Odd(Down(Widen(b))) <==> b & 2 != 0
    ensures Odd(Down(Down(Widen(b)))) <==> b & 4 != 0
    ensures Odd(Down(Down(Down(Widen(b))))) <==> b & 8 != 0
    ensures Odd(Down(Down(Down(Down(Widen(b)))))) <==> b & 0x10 != 0
    ensures Odd(Down(Down(Down(Down(Down(Widen(b))))))) <==> b & 0x20 != 0
    ensures Odd(Down(Down(Down(Down(Down(Down(Widen(b)))))))) <==> b & 0x40 != 0
    ensures Odd(Down(Down(Down(Down(Down(Down(Down(Widen(b))))))))) <==> b & 0x80 != 0
  {
  }

  lemma ByteBits(b: u8)
    ensures Seen(Down, Odd, Widen(b), BYTE_BITS) == BitsOf(b) && Iterate(Down, Widen(b), BYTE_BITS) == 0
  {
    var w := Widen(b);
    var w1 := Down(w);
    var w2 := Down(w1);
    var w3 := Down(w2);
    var w4 := Down(w3);
    var w5 := Down(w4);
    var w6 := Down(w5);
    var w7 := Down(w6);
    EightSeen(Down, Odd, w, w1, w2, w3, w4, w5, w6, w7, Down(w7));
    ByteBit(b);
    ByteRest(b);
  }

  lemma ByteShifts(c: bv32, b: u8)
    ensures Row(CRC, ByteStep(c, b)) == ShiftAll(Row(CRC, c), BitsOf(b))
  {
    WordsAreRegister();
    RegisterShifts(CRC);
    var z := RoundsShift(CRC, x => Row(CRC, x), c, Widen(b), BYTE_BITS);
    ByteBits(b);
    XorZero(z);
  }

  lemma BytesShift()
    ensures ShiftsIn(CRC, ByteStep, BitsOf)
  {
    forall c, b ensures Row(CRC, ByteStep(c, b)) == ShiftAll(Row(CRC, c), BitsOf(b)) {
      ByteShifts(c, b);
    }
  }

  // ----- whole messages -----

  lemma BytesOfOnes()
    ensures Seen(Down, Odd, 0xFFFFFFFF, 8) == Repeat(true, 8) && Iterate(Down, 0xFFFFFFFF, 8) == 0xFFFFFF
    ensures Seen(Down, Odd, 0xFFFFFF, 8) == Repeat(true, 8) && Iterate(Down, 0xFFFFFF, 8) == 0xFFFF
    ensures Seen(Down, Odd, 0xFFFF, 8) == Repeat(true, 8) && Iterate(Down, 0xFFFF, 8) == 0xFF
    ensures Seen(Down, Odd, 0xFF, 8) == Repeat(true, 8) && Iterate(Down, 0xFF, 8) == 0x0
  {
    EightSeen(Down, Odd, 0xFFFFFFFF, 0x7FFFFFFF, 0x3FFFFFFF, 0x1FFFFFFF, 0xFFFFFFF,
              0x7FFFFFF, 0x3FFFFFF, 0x1FFFFFF, 0xFFFFFF);
    EightSeen(Down, Odd, 0xFFFFFF, 0x7FFFFF, 0x3FFFFF, 0x1FFFFF, 0xFFFFF,
              0x7FFFF, 0x3FFFF, 0x1FFFF, 0xFFFF);
    EightSeen(Down, Odd, 0xFFFF, 0x7FFF, 0x3FFF, 0x1FFF, 0xFFF,
              0x7FF, 0x3FF, 0x1FF, 0xFF);
    EightSeen(Down, Odd, 0xFF, 0x7F, 0x3F, 0x1F, 0xF,
              0x7, 0x3, 0x1, 0x0);
  }

  lemma AllOnes()
    ensures Row(CRC, 0xFFFF_FFFF) == Repeat(true, DEGREE)
  {
    BytesOfOnes();
    SeenInBytes(Down, Odd, 0xFFFF_FFFF, 0xFF_FFFF, 0xFFFF, 0xFF);
  }

  lemma InvertedCoefficients(c: bv32)
    ensures Row(CRC, !c) == Plus(Row(CRC, c), Repeat(true, DEGREE))
  {
    Complement(c);
    AllOnes();
    WordsAreRegister();
    RowOfSum(CRC, c, 0xFFFF_FFFF);
  }

  lemma RegisterOf(data: seq<u8>)
    ensures Row(CRC, Fold(ByteStep, 0xFFFF_FFFF, data)) == ShiftAll(Repeat(true, DEGREE), AllBits(BitsOf, data))
  {
    BytesShift();
    FoldShifts(CRC, ByteStep, BitsOf, 0xFFFF_FFFF, data);
    AllOnes();
  }

  /** The checksum of any data is the check of its bits: the remainder of dividing by the generator. */
  lemma ChecksumIsDivision(data: seq<u8>)
    ensures Coefficients(Checksum(data)) == Check(AllBits(BitsOf, data))
  {
    RegisterOf(data);
    InvertedCoefficients(Fold(ByteStep, 0xFFFF_FFFF, data));
    CheckIsRegister(AllBits(BitsOf, data));
  }

  lemma SameBits(x: bv32, y: bv32)
    ensures Odd(x) == Odd(y) && Down(x) == Down(y) ==> x == y
  {
  }

  lemma BitsTellApart()
    ensures TellsApart(Down, Odd)
  {
    forall u, v | Odd(u) == Odd(v) && Down(u) == Down(v) ensures u == v {
      SameBits(u, v);
    }
  }

  /** Checksums with the same coefficients are the same. */
  lemma CoefficientsDetermine(x: bv32, y: bv32)
    requires Coefficients(x) == Coefficients(y)
    ensures x == y
  {
    BitsTellApart();
    AllShiftedOut(x);
    AllShiftedOut(y);
    RowDetermines(CRC, x, y);
  }

  // ----- the table -----

  lemma NoBits()
    ensures Row(CRC, 0) == Repeat(false, DEGREE)
  {
    EightSeen(Down, Odd, 0, 0, 0, 0, 0, 0, 0, 0, 0);
    SeenInBytes(Down, Odd, 0, 0, 0, 0);
  }

  lemma ZeroXor(x: bv32)
    ensures Xor(0, x) == x
  {
  }

  /** Entry `n` of the table of RFC 1952 is what dividing the byte `n`, times x to the 32nd, leaves. */
  lemma TableEntryIsRemainder(n: u8)
    ensures Coefficients(TableEntry(n)) == Remainder(BitsOf(n) + Repeat(false, DEGREE))
  {
    EntryIsStep(n);
    ByteShifts(0, n);
    NoBits();
    RegisterDividesAlone(BitsOf(n));
  }

  lemma EntryIsStep(n: u8)
    ensures TableEntry(n) == ByteStep(0, n)
  {
    ZeroXor(Widen(n));
  }

  // ----- the check value -----

  /** The register over the bytes `123456789`, after each of them. */
  lemma CheckRounds()
    ensures ByteStep(0xFFFFFFFF, 0x31) == 0x7C231048
    ensures ByteStep(0x7C231048, 0x32) == 0xB0ACBB32
    ensures ByteStep(0xB0ACBB32, 0x33) == 0x77B79C2D
    ensures ByteStep(0x77B79C2D, 0x34) == 0x641C1F5C
    ensures ByteStep(0x641C1F5C, 0x35) == 0x340AC5E3
    ensures ByteStep(0x340AC5E3, 0x36) == 0xF68D2C9E
    ensures ByteStep(0xF68D2C9E, 0x37) == 0xAFFC9660
    ensures ByteStep(0xAFFC9660, 0x38) == 0x651F2550
    ensures ByteStep(0x651F2550, 0x39) == 0x340BC6D9
  {
    EightSeen(BitStep, Odd, 0xFFFFFFCE, 0x7FFFFFE7, 0xD2477CD3, 0x849B3D49, 0xAFF51D84,
              0x57FA8EC2, 0x2BFD4761, 0xF8462090, 0x7C231048);
    EightSeen(BitStep, Odd, 0x7C23107A, 0x3E11883D, 0xF2B0473E, 0x7958239F, 0xD11492EF,
              0x8532CA57, 0xAF21E60B, 0xBA287025, 0xB0ACBB32);
    EightSeen(BitStep, Odd, 0xB0ACBB01, 0xB5EEDEA0, 0x5AF76F50, 0x2D7BB7A8, 0x16BDDBD4,
              0x0B5EEDEA, 0x05AF76F5, 0xEF6F385A, 0x77B79C2D);
    EightSeen(BitStep, Odd, 0x77B79C19, 0xD6634D2C, 0x6B31A696, 0x3598D34B, 0xF774EA85,
              0x9602F662, 0x4B017B31, 0xC8383EB8, 0x641C1F5C);
    EightSeen(BitStep, Odd, 0x641C1F69, 0xDFB68C94, 0x6FDB464A, 0x37EDA325, 0xF64E52B2,
              0x7B272959, 0xD02B178C, 0x68158BC6, 0x340AC5E3);
    EightSeen(BitStep, Odd, 0x340AC5D5, 0xF7BDE1CA, 0x7BDEF0E5, 0xD057FB52, 0x682BFDA9,
              0xD9AD7DF4, 0x6CD6BEFA, 0x366B5F7D, 0xF68D2C9E);
    EightSeen(BitStep, Odd, 0xF68D2CA9, 0x96FE1574, 0x4B7F0ABA, 0x25BF855D, 0xFF67418E,
              0x7FB3A0C7, 0xD2615343, 0x84882A81, 0xAFFC9660);
    EightSeen(BitStep, Odd, 0xAFFC9658, 0x57FE4B2C, 0x2BFF2596, 0x15FF92CB, 0xE7474A45,
              0x9E1B2602, 0x4F0D9301, 0xCA3E4AA0, 0x651F2550);
    EightSeen(BitStep, Odd, 0x651F2569, 0xDF371194, 0x6F9B88CA, 0x37CDC465, 0xF65E6112,
              0x7B2F3089, 0xD02F1B64, 0x68178DB2, 0x340BC6D9);
  }

  /** The check value that the catalogues of such codes give for the nine digits. */
  lemma CheckValue()
    ensures Checksum([0x31, 0x32, 0x33, 0x34, 0x35, 0x36, 0x37, 0x38, 0x39]) == 0xCBF4_3926
  {
    var data: seq<u8> := [0x31, 0x32, 0x33, 0x34, 0x35, 0x36, 0x37, 0x38, 0x39];
    var states: seq<bv32> := [0xFFFFFFFF, 0x7C231048, 0xB0ACBB32, 0x77B79C2D, 0x641C1F5C, 0x340AC5E3,
                              0xF68D2C9E, 0xAFFC9660, 0x651F2550, 0x340BC6D9];
    CheckRounds();
    FoldOfStates(ByteStep, data, states);
  }
}
