/** The checksum of the data log: src/log_manager.rs, crc32. */
module Crc32 {
  import opened Common
  import opened Folds

  const BYTE_BITS: nat := 8

  /** One round of the bit loop. */
  function BitStep(crc: bv32): bv32 {
    if crc & 1 != 0 then (crc >> 1) ^ 0xEDB8_8320 else crc >> 1
  }

  /** All eight rounds of one byte. */
  function Shifted(crc: bv32): bv32 {
    Iterate(BitStep, crc, BYTE_BITS)
  }

  function Xor(x: bv32, y: bv32): bv32 {
    x ^ y
  }

  function Widen(b: u8): bv32 {
    b as bv32
  }

  /** The register after one byte. */
  function ByteStep(crc: bv32, b: u8): bv32 {
    Shifted(Xor(crc, Widen(b)))
  }

  function Checksum(data: seq<u8>): bv32 {
    !Fold(ByteStep, 0xFFFF_FFFF, data)
  }

  /** The inner loop over the eight bits of one byte. */
  method BitLoop(start: bv32) returns (crc: bv32)
    ensures crc == Shifted(start)
  {
    crc := start;
    for j := 0 to BYTE_BITS
      invariant crc == Iterate(BitStep, start, j)
    {
      if crc & 1 != 0 {
        crc := (crc >> 1) ^ 0xEDB8_8320;
      } else {
        crc := crc >> 1;
      }
    }
  }

  method Compute(data: seq<u8>) returns (r: bv32)
    ensures r == Checksum(data)
  {
    var crc: bv32 := 0xFFFF_FFFF;
    for i := 0 to |data|
      invariant crc == Fold(ByteStep, 0xFFFF_FFFF, data[..i])
    {
      FoldPush(ByteStep, 0xFFFF_FFFF, data, i);
      crc := BitLoop(Xor(crc, Widen(data[i])));
    }
    assert data[..|data|] == data;
    return !crc;
  }

  // ----- the table-driven form of section 8 of RFC 1952 -----

  function LowByte(x: bv32): u8 {
    (x & 0xFF) as u8
  }

  /** Entry `n` of the table that `make_crc_table` builds. */
  function TableEntry(n: u8): bv32 {
    Shifted(Widen(n))
  }

  /** One round of the loop of `update_crc`. */
  function TableStep(c: bv32, b: u8): bv32 {
    Xor(TableEntry(LowByte(Xor(c, Widen(b)))), Shr8(c))
  }

  /** `crc` of RFC 1952, with its pre- and post-conditioning. */
  function Rfc1952Crc(data: seq<u8>): bv32 {
    Xor(Fold(TableStep, Xor(0, 0xFFFF_FFFF), data), 0xFFFF_FFFF)
  }

  function Shl8(x: bv32): bv32 {
    x << 8
  }

  function Shr8(x: bv32): bv32 {
    x >> 8
  }

  // ----- facts about the bits -----

  lemma BitStepInjective()
    ensures Injective(BitStep)
  {
    forall x, y | BitStep(x) == BitStep(y) ensures x == y {
      SameAfterBitStep(x, y);
    }
  }

  lemma SameAfterBitStep(x: bv32, y: bv32)
    ensures BitStep(x) == BitStep(y) ==> x == y
  {
  }

  /** The top byte is clear. */
  predicate Fits24(y: bv32) {
    y & 0xFF00_0000 == 0
  }

  function Up(y: bv32): bv32 {
    y << 1
  }

  predicate TopClear(y: bv32) {
    y & 0x8000_0000 == 0
  }

  lemma BitStepSplits(x: bv32, z: bv32)
    requires TopClear(z)
    ensures BitStep(Xor(x, Up(z))) == Xor(BitStep(x), z)
  {
    var w, s := Up(z), Xor(x, Up(z));
    assert w == z << 1;
    assert s == x ^ w;
    SplitsAt(x, z, w, s);
  }

  lemma SplitsAt(x: bv32, z: bv32, w: bv32, s: bv32)
    requires z & 0x8000_0000 == 0 && w == z << 1 && s == x ^ w
    ensures BitStep(s) == Xor(BitStep(x), z)
  {
    if x & 1 != 0 {
      OddSplits(x, z, w, s);
    } else {
      EvenSplits(x, z, w, s);
    }
  }

  lemma OddSplits(x: bv32, z: bv32, w: bv32, s: bv32)
    requires z & 0x8000_0000 == 0 && w == z << 1 && s == x ^ w && x & 1 != 0
    ensures BitStep(s) == Xor(BitStep(x), z)
  {
  }

  lemma EvenSplits(x: bv32, z: bv32, w: bv32, s: bv32)
    requires z & 0x8000_0000 == 0 && w == z << 1 && s == x ^ w && x & 1 == 0
    ensures BitStep(s) == Xor(BitStep(x), z)
  {
  }

  lemma StepPassesDown(z: bv32)
    requires TopClear(z)
    ensures PassesDown(BitStep, Xor, Up(z), z)
  {
    forall x ensures BitStep(Xor(x, Up(z))) == Xor(BitStep(x), z) {
      BitStepSplits(x, z);
    }
  }

  lemma UpEightTimes(y: bv32)
    requires Fits24(y)
    ensures TopClear(y) && TopClear(Up(y)) && TopClear(Up(Up(y))) && TopClear(Up(Up(Up(y))))
    ensures TopClear(Up(Up(Up(Up(y)))))
    ensures TopClear(Up(Up(Up(Up(Up(y)))))) && TopClear(Up(Up(Up(Up(Up(Up(y)))))))
    ensures TopClear(Up(Up(Up(Up(Up(Up(Up(y))))))))
    ensures Up(Up(Up(Up(Up(Up(Up(Up(y)))))))) == Shl8(y)
  {
  }

  /** Eight rounds act on the low byte and shift the other three down. */
  lemma ShiftedPassesDown(y: bv32)
    requires Fits24(y)
    ensures PassesDown(Shifted, Xor, Shl8(y), y)
  {
    UpEightTimes(y);
    var y1 := Up(y);
    var y2 := Up(y1);
    var y3 := Up(y2);
    var y4 := Up(y3);
    var y5 := Up(y4);
    var y6 := Up(y5);
    var y7 := Up(y6);
    StepPassesDown(y7);
    StepPassesDown(y6);
    StepPassesDown(y5);
    StepPassesDown(y4);
    StepPassesDown(y3);
    StepPassesDown(y2);
    StepPassesDown(y1);
    StepPassesDown(y);
    forall x ensures Shifted(Xor(x, Shl8(y))) == Xor(Shifted(x), y) {
      IterateSplitsByEight(BitStep, Xor, x, Up(y7), y7, y6, y5, y4, y3, y2, y1, y);
    }
  }

  lemma LowByteAndRest(x: bv32)
    ensures x == Xor(Widen(LowByte(x)), Shl8(Shr8(x)))
    ensures Fits24(Shr8(x))
  {
  }

  lemma RestOfXor(c: bv32, b: u8)
    ensures Shr8(Xor(c, Widen(b))) == Shr8(c)
  {
  }

  lemma TableStepAgrees(c: bv32, b: u8)
    ensures TableStep(c, b) == ByteStep(c, b)
  {
    var x := Xor(c, Widen(b));
    LowByteAndRest(x);
    RestOfXor(c, b);
    ShiftedPassesDown(Shr8(x));
    Glue(Shifted, Xor, x, Widen(LowByte(x)), Shl8(Shr8(x)), Shr8(x), Shr8(c));
  }

  lemma Glue<T(!new)>(f: T -> T, add: (T, T) -> T, x: T, low: T, high: T, rest: T, rest': T)
    requires x == add(low, high) && rest == rest' && PassesDown(f, add, high, rest)
    ensures add(f(low), rest') == f(x)
  {
  }

  /** crc32 is the CRC that section 8 of RFC 1952 computes with a table. */
  lemma ChecksumIsRfc1952(data: seq<u8>)
    ensures Checksum(data) == Rfc1952Crc(data)
  {
    forall c, b ensures TableStep(c, b) == ByteStep(c, b) {
      TableStepAgrees(c, b);
    }
    FoldSame(TableStep, ByteStep, 0xFFFF_FFFF, data);
    Complement(Fold(ByteStep, 0xFFFF_FFFF, data));
  }

  lemma Complement(x: bv32)
    ensures !x == Xor(x, 0xFFFF_FFFF) && Xor(0, 0xFFFF_FFFF) == 0xFFFF_FFFF
  {
  }

  // ----- error detection -----

  lemma ShiftedInjective()
    ensures Injective(Shifted)
  {
    BitStepInjective();
    forall x, y | Shifted(x) == Shifted(y) ensures x == y {
      IterateInjective(BitStep, x, y, BYTE_BITS);
    }
  }

  lemma XorCancels(x: bv32, y: bv32, b: u8)
    ensures Xor(x, Widen(b)) == Xor(y, Widen(b)) ==> x == y
  {
  }

  lemma ByteStepInjective()
    ensures StepInjective(ByteStep)
  {
    ShiftedInjective();
    forall x, y, b | ByteStep(x, b) == ByteStep(y, b) ensures x == y {
      assert Shifted(Xor(x, Widen(b))) == Shifted(Xor(y, Widen(b)));
      XorCancels(x, y, b);
    }
  }

  /** Four bytes as one little-endian word, added to the register. */
  function WithWord(c: bv32, b0: u8, b1: u8, b2: u8, b3: u8): bv32 {
    Xor(Xor(Xor(Xor(c, Widen(b0)), Shl8(Widen(b1))), Shl8(Shl8(Widen(b2)))), Shl8(Shl8(Shl8(Widen(b3)))))
  }

  function Word(b0: u8, b1: u8, b2: u8, b3: u8): bv32 {
    Xor(Widen(b0), Xor(Shl8(Widen(b1)), Xor(Shl8(Shl8(Widen(b2))), Shl8(Shl8(Shl8(Widen(b3)))))))
  }

  lemma WordBytes(b0: u8, b1: u8, b2: u8, b3: u8)
    ensures var w := Word(b0, b1, b2, b3);
      LowByte(w) == b0 && LowByte(Shr8(w)) == b1 && LowByte(Shr8(Shr8(w))) == b2 && LowByte(Shr8(Shr8(Shr8(w)))) == b3
  {
  }

  lemma XorAssociates(x: bv32, y: bv32, z: bv32)
    ensures Xor(Xor(x, y), z) == Xor(x, Xor(y, z))
  {
  }

  lemma WithWordSplits(c: bv32, b0: u8, b1: u8, b2: u8, b3: u8)
    ensures WithWord(c, b0, b1, b2, b3) == Xor(c, Word(b0, b1, b2, b3))
  {
    XorAssociative();
    Reassociate(Xor, c, Widen(b0), Shl8(Widen(b1)), Shl8(Shl8(Widen(b2))), Shl8(Shl8(Shl8(Widen(b3)))));
  }

  ghost predicate Associative<T(!new)>(add: (T, T) -> T) {
    forall x, y, z :: add(add(x, y), z) == add(x, add(y, z))
  }

  lemma XorAssociative()
    ensures Associative(Xor)
  {
    forall x, y, z ensures Xor(Xor(x, y), z) == Xor(x, Xor(y, z)) {
      XorAssociates(x, y, z);
    }
  }

  lemma Reassociate<T(!new)>(add: (T, T) -> T, c: T, e0: T, e1: T, e2: T, e3: T)
    requires Associative(add)
    ensures add(add(add(add(c, e0), e1), e2), e3) == add(c, add(e0, add(e1, add(e2, e3))))
  {
  }

  lemma XorLeftCancels(c: bv32, x: bv32, y: bv32)
    ensures Xor(c, x) == Xor(c, y) ==> x == y
  {
  }

  lemma WithWordInjective(c: bv32, b0: u8, b1: u8, b2: u8, b3: u8, d0: u8, d1: u8, d2: u8, d3: u8)
    requires WithWord(c, b0, b1, b2, b3) == WithWord(c, d0, d1, d2, d3)
    ensures b0 == d0 && b1 == d1 && b2 == d2 && b3 == d3
  {
    WithWordSplits(c, b0, b1, b2, b3);
    WithWordSplits(c, d0, d1, d2, d3);
    XorLeftCancels(c, Word(b0, b1, b2, b3), Word(d0, d1, d2, d3));
    WordBytes(b0, b1, b2, b3);
    WordBytes(d0, d1, d2, d3);
  }

  lemma ByteFits(b: u8)
    ensures Fits24(Widen(b)) && Fits24(Shl8(Widen(b))) && Fits24(Shl8(Shl8(Widen(b))))
  {
  }

  lemma BytePassesDown(b: u8)
    ensures var e := Widen(b);
      && PassesDown(Shifted, Xor, Shl8(e), e)
      && PassesDown(Shifted, Xor, Shl8(Shl8(e)), Shl8(e))
      && PassesDown(Shifted, Xor, Shl8(Shl8(Shl8(e))), Shl8(Shl8(e)))
  {
    ByteFits(b);
    ShiftedPassesDown(Widen(b));
    ShiftedPassesDown(Shl8(Widen(b)));
    ShiftedPassesDown(Shl8(Shl8(Widen(b))));
  }

  lemma FourBytesAreAWord(c: bv32, b0: u8, b1: u8, b2: u8, b3: u8)
    ensures ByteStep(ByteStep(ByteStep(ByteStep(c, b0), b1), b2), b3)
         == Shifted(Shifted(Shifted(Shifted(WithWord(c, b0, b1, b2, b3)))))
  {
    BytePassesDown(b1);
    BytePassesDown(b2);
    BytePassesDown(b3);
    FourStepsAreOneWord(Shifted, Xor, Shl8, c, Widen(b0), Widen(b1), Widen(b2), Widen(b3));
  }

  lemma FoldOfFour<T, U>(f: (T, U) -> T, c: T, b0: U, b1: U, b2: U, b3: U)
    ensures Fold(f, c, [b0, b1, b2, b3]) == f(f(f(f(c, b0), b1), b2), b3)
  {
    var s := [b0, b1, b2, b3];
    FoldPush(f, c, s, 0);
    FoldPush(f, c, s, 1);
    FoldPush(f, c, s, 2);
    FoldPush(f, c, s, 3);
    assert s[..4] == s && s[..0] == [];
  }

  lemma FourTimesInjective<T(!new)>(f: T -> T, x: T, y: T)
    requires Injective(f) && f(f(f(f(x)))) == f(f(f(f(y))))
    ensures x == y
  {
  }

  /** Four bytes that differ leave the register different. */
  lemma FourByteWindow(c: bv32, w: seq<u8>, v: seq<u8>)
    requires |w| == 4 && |v| == 4 && Fold(ByteStep, c, w) == Fold(ByteStep, c, v)
    ensures w == v
  {
    assert w == [w[0], w[1], w[2], w[3]] && v == [v[0], v[1], v[2], v[3]];
    FoldOfFour(ByteStep, c, w[0], w[1], w[2], w[3]);
    FoldOfFour(ByteStep, c, v[0], v[1], v[2], v[3]);
    SameWord(c, w[0], w[1], w[2], w[3], v[0], v[1], v[2], v[3]);
  }

  lemma SameWord(c: bv32, b0: u8, b1: u8, b2: u8, b3: u8, d0: u8, d1: u8, d2: u8, d3: u8)
    requires ByteStep(ByteStep(ByteStep(ByteStep(c, b0), b1), b2), b3)
             == ByteStep(ByteStep(ByteStep(ByteStep(c, d0), d1), d2), d3)
    ensures b0 == d0 && b1 == d1 && b2 == d2 && b3 == d3
  {
    FourBytesAreAWord(c, b0, b1, b2, b3);
    FourBytesAreAWord(c, d0, d1, d2, d3);
    ShiftedInjective();
    FourTimesInjective(Shifted, WithWord(c, b0, b1, b2, b3), WithWord(c, d0, d1, d2, d3));
    WithWordInjective(c, b0, b1, b2, b3, d0, d1, d2, d3);
  }

  lemma ShortWindow(c: bv32, w: seq<u8>, v: seq<u8>)
    requires |w| == |v| <= 4 && Fold(ByteStep, c, w) == Fold(ByteStep, c, v)
    ensures w == v
  {
    var pad := seq(4 - |w|, _ => 0 as u8);
    FoldAppend(ByteStep, c, w, pad);
    FoldAppend(ByteStep, c, v, pad);
    FourByteWindow(c, w + pad, v + pad);
    assert w == (w + pad)[..|w|] && v == (v + pad)[..|w|];
  }

  lemma ComplementInjective(x: bv32, y: bv32)
    ensures !x == !y ==> x == y
  {
  }

  /** Damage confined to four consecutive bytes never goes unnoticed. */
  lemma DetectsDamage(a: seq<u8>, b: seq<u8>, i: nat)
    requires |a| == |b| && a != b
    requires forall j :: 0 <= j < |a| && a[j] != b[j] ==> i <= j < i + 4
    ensures Checksum(a) != Checksum(b)
  {
    if Checksum(a) == Checksum(b) {
      ComplementInjective(Fold(ByteStep, 0xFFFF_FFFF, a), Fold(ByteStep, 0xFFFF_FFFF, b));
      ByteStepInjective();
      WindowsInjective();
      SameFoldSameWindow(ByteStep, 4, 0xFFFF_FFFF, a, b, Min(i, |a|), Min(i + 4, |a|));
    }
  }

  lemma WindowsInjective()
    ensures WindowInjective(ByteStep, 4)
  {
    forall c, w, v | |w| == |v| <= 4 && Fold(ByteStep, c, w) == Fold(ByteStep, c, v) ensures w == v {
      ShortWindow(c, w, v);
    }
  }
}
