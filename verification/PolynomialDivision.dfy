/** Division of polynomials over the field of two elements, written out on their coefficients, and the 32-bit cyclic
    redundancy check of ISO 3309 in its terms. A polynomial is the row of its coefficients, the highest power first. */
module PolynomialDivision {
  import opened Folds

  /** The powers of the generator polynomial. */
  const GENERATOR: set<nat> := {32, 26, 23, 22, 16, 12, 11, 10, 8, 7, 5, 4, 2, 1, 0}

  const DEGREE: nat := 32

  /** Addition of two rows of coefficients from their first one on; `q` is not the longer one. */
  function Plus(p: seq<bool>, q: seq<bool>): (r: seq<bool>)
    requires |q| <= |p|
    ensures |r| == |p|
  {
    seq(|p|, i requires 0 <= i < |p| => if i < |q| then p[i] != q[i] else p[i])
  }

  /** The coefficients of a polynomial of a lower degree than the generator. */
  type Coeffs = s: seq<bool> | |s| == DEGREE witness Repeat(false, DEGREE)

  function Divisor(): (d: seq<bool>)
    ensures |d| == DEGREE + 1
  {
    seq(DEGREE + 1, i requires 0 <= i <= DEGREE => DEGREE - i in GENERATOR)
  }

  /** Long division: what is left of `p` when multiples of the generator have cleared all but the lowest powers. */
  function Remainder(p: seq<bool>): (r: seq<bool>)
    requires DEGREE <= |p|
    ensures |r| == DEGREE
    decreases |p|
  {
    if |p| == DEGREE then p
    else if p[0] then Remainder(Plus(p, Divisor())[1..])
    else Remainder(p[1..])
  }

  function Repeat(b: bool, n: nat): (s: seq<bool>)
    ensures |s| == n && forall i :: 0 <= i < n ==> s[i] == b
  {
    seq(n, _ => b)
  }

  /** The check of a message: its polynomial times x to the 32nd, with the first 32 coefficients inverted, is divided
      by the generator, and the remainder is inverted. */
  function Check(message: seq<bool>): (r: seq<bool>)
    ensures |r| == DEGREE
  {
    var dividend := Plus(message + Repeat(false, DEGREE), Repeat(true, DEGREE));
    Plus(Remainder(dividend), Repeat(true, DEGREE))
  }

  // ----- division as a shift register -----

  /** The register takes one more coefficient of the message. */
  function Shift(r: seq<bool>, b: bool): (r': seq<bool>)
    requires |r| == DEGREE
    ensures |r'| == DEGREE
  {
    seq(DEGREE, i requires 0 <= i < DEGREE =>
      (i + 1 < DEGREE && r[i + 1]) != (r[0] != b && DEGREE - 1 - i in GENERATOR))
  }

  function ShiftAll(r: seq<bool>, m: seq<bool>): (r': seq<bool>)
    requires |r| == DEGREE
    ensures |r'| == DEGREE
    decreases |m|
  {
    if m == [] then r else ShiftAll(Shift(r, m[0]), m[1..])
  }

  lemma {:induction false} ShiftJoin(r: seq<bool>, m: seq<bool>, n: seq<bool>)
    requires |r| == DEGREE
    ensures ShiftAll(r, m + n) == ShiftAll(ShiftAll(r, m), n)
    decreases |m|
  {
    if m == [] {
      assert m + n == n;
    } else {
      assert (m + n)[0] == m[0] && (m + n)[1..] == m[1..] + n;
      ShiftJoin(Shift(r, m[0]), m[1..], n);
    }
  }

  /** One step of the division is one step of the register. */
  lemma DivideOnce(r: seq<bool>, m: seq<bool>)
    requires |r| == DEGREE && m != []
    ensures var p := Plus(m + Repeat(false, DEGREE), r);
      (if p[0] then Plus(p, Divisor())[1..] else p[1..])
      == Plus(m[1..] + Repeat(false, DEGREE), Shift(r, m[0]))
  {
    var p := Plus(m + Repeat(false, DEGREE), r);
    var left := if p[0] then Plus(p, Divisor())[1..] else p[1..];
    var right := Plus(m[1..] + Repeat(false, DEGREE), Shift(r, m[0]));
    var m' := m + Repeat(false, DEGREE);
    assert m'[1..] == m[1..] + Repeat(false, DEGREE);
    forall i | 0 <= i < |left| ensures left[i] == right[i] {
      assert right[i] == if i < DEGREE then m'[i + 1] != Shift(r, m[0])[i] else m'[i + 1];
    }
  }

  /** The register ends as the remainder. */
  lemma {:induction false} RegisterDivides(r: seq<bool>, m: seq<bool>)
    requires |r| == DEGREE
    ensures Remainder(Plus(m + Repeat(false, DEGREE), r)) == ShiftAll(r, m)
    decreases |m|
  {
    var p := Plus(m + Repeat(false, DEGREE), r);
    if m == [] {
      assert p == r;
    } else {
      DivideOnce(r, m);
      RegisterDivides(Shift(r, m[0]), m[1..]);
    }
  }

  /** From an empty register it is the message, times x to the 32nd, that is divided. */
  lemma RegisterDividesAlone(m: seq<bool>)
    ensures Remainder(m + Repeat(false, DEGREE)) == ShiftAll(Repeat(false, DEGREE), m)
  {
    var p := m + Repeat(false, DEGREE);
    RegisterDivides(Repeat(false, DEGREE), m);
    assert Plus(p, Repeat(false, DEGREE)) == p;
  }

  lemma CheckIsRegister(message: seq<bool>)
    ensures Check(message) == Plus(ShiftAll(Repeat(true, DEGREE), message), Repeat(true, DEGREE))
  {
    RegisterDivides(Repeat(true, DEGREE), message);
  }

  // ----- registers that are words -----

  /** A register of words of some kind: `down` drops the lowest bit, `odd` is that bit, `add` adds without carry,
      `step` is one round, `generator` is the constant that a round may add and `one` is the lowest bit. */
  datatype Register<!T> = Register(down: T -> T, odd: T -> bool, add: (T, T) -> T, step: T -> T, generator: T, one: T)

  /** A word as coefficients: its lowest bit is the highest power. */
  function Row<T>(w: Register<T>, x: T): (p: seq<bool>)
    ensures |p| == DEGREE
  {
    Seen(w.down, w.odd, x, DEGREE)
  }

  function WithBit<T>(w: Register<T>, x: T, b: bool): T {
    if b then w.add(x, w.one) else x
  }

  /** The generator's coefficients without its highest power. */
  function GeneratorRow(): (r: seq<bool>)
    ensures |r| == DEGREE && forall i :: 0 <= i < DEGREE ==> (r[i] <==> DEGREE - 1 - i in GENERATOR)
  {
    [false, false, false, false, false, true, false, false]
    + [true, true, false, false, false, false, false, true]
    + [false, false, false, true, true, true, false, true]
    + [true, false, true, true, false, true, true, true]
  }

  ghost predicate AddsDown<T(!new)>(down: T -> T, add: (T, T) -> T) {
    forall x, y :: down(add(x, y)) == add(down(x), down(y))
  }

  ghost predicate AddsOdd<T(!new)>(odd: T -> bool, add: (T, T) -> T) {
    forall x, y :: odd(add(x, y)) <==> odd(x) != odd(y)
  }

  /** A round drops the lowest bit, and adds the generator if that bit was set. */
  ghost predicate Rounds<T(!new)>(w: Register<T>) {
    forall x :: w.step(x) == if w.odd(x) then w.add(w.down(x), w.generator) else w.down(x)
  }

  ghost predicate FlipsLowest<T(!new)>(w: Register<T>) {
    forall x :: w.down(w.add(x, w.one)) == w.down(x) && (w.odd(w.add(x, w.one)) <==> !w.odd(x))
  }

  /** Words have no more bits than the check, and the constant is the generator without its highest power. */
  ghost predicate HasWidth<T(!new)>(w: Register<T>) {
    && (forall x :: !w.odd(Iterate(w.down, x, DEGREE)))
    && Row(w, w.generator) == GeneratorRow()
  }

  /** What is added to the register above its lowest bit only moves down. */
  ghost predicate Splits<T(!new)>(w: Register<T>) {
    forall x, y :: w.step(w.add(x, y)) == w.add(w.step(WithBit(w, x, w.odd(y))), w.down(y))
  }

  ghost predicate IsRegister<T(!new)>(w: Register<T>) {
    && AddsDown(w.down, w.add) && AddsOdd(w.odd, w.add)
    && Rounds(w) && FlipsLowest(w) && HasWidth(w) && Splits(w)
  }

  lemma {:induction false} SeenAdd<T(!new)>(w: Register<T>, x: T, y: T, n: nat)
    requires AddsDown(w.down, w.add) && AddsOdd(w.odd, w.add)
    ensures forall i :: 0 <= i < n ==>
      Seen(w.down, w.odd, w.add(x, y), n)[i] == (Seen(w.down, w.odd, x, n)[i] != Seen(w.down, w.odd, y, n)[i])
    decreases n
  {
    if 0 < n {
      SeenAdd(w, w.down(x), w.down(y), n - 1);
    }
  }

  lemma RowOfDown<T(!new)>(w: Register<T>, x: T)
    requires HasWidth(w)
    ensures Row(w, w.down(x)) == Row(w, x)[1..] + [false]
  {
    SeenNext(w.down, w.odd, x, DEGREE);
  }

  lemma RowOfSum<T(!new)>(w: Register<T>, x: T, y: T)
    requires AddsDown(w.down, w.add) && AddsOdd(w.odd, w.add)
    ensures Row(w, w.add(x, y)) == Plus(Row(w, x), Row(w, y))
  {
    SeenAdd(w, x, y, DEGREE);
  }

  lemma RowDetermines<T(!new)>(w: Register<T>, x: T, y: T)
    requires TellsApart(w.down, w.odd) && Row(w, x) == Row(w, y)
    requires Iterate(w.down, x, DEGREE) == Iterate(w.down, y, DEGREE)
    ensures x == y
  {
    SeenDetermines(w.down, w.odd, x, y, DEGREE);
  }

  lemma RoundOf<T(!new)>(w: Register<T>, x: T, b: bool)
    requires Rounds(w) && FlipsLowest(w)
    ensures w.step(WithBit(w, x, b)) == if w.odd(x) != b then w.add(w.down(x), w.generator) else w.down(x)
  {
  }

  lemma RoundShifts<T(!new)>(w: Register<T>, x: T, b: bool)
    requires AddsDown(w.down, w.add) && AddsOdd(w.odd, w.add) && Rounds(w) && FlipsLowest(w) && HasWidth(w)
    ensures Row(w, w.step(WithBit(w, x, b))) == Shift(Row(w, x), b)
  {
    RoundOf(w, x, b);
    RowOfDown(w, x);
    SeenAdd(w, w.down(x), w.generator, DEGREE);
    assert Row(w, x)[0] == w.odd(x);
    RowsShift(Row(w, x), Row(w, w.down(x)), Row(w, w.step(WithBit(w, x, b))), Row(w, w.generator), b);
  }

  lemma RowsShift(p: seq<bool>, down: seq<bool>, next: seq<bool>, generator: seq<bool>, b: bool)
    requires |p| == |down| == |next| == |generator| == DEGREE && down == p[1..] + [false]
    requires forall i :: 0 <= i < DEGREE ==> (generator[i] <==> DEGREE - 1 - i in GENERATOR)
    requires forall i :: 0 <= i < DEGREE ==> next[i] == if p[0] != b then down[i] != generator[i] else down[i]
    ensures next == Shift(p, b)
  {
  }

  lemma ShiftOne(r: seq<bool>, b: bool, s: seq<bool>)
    requires |r| == DEGREE
    ensures ShiftAll(r, [b] + s) == ShiftAll(Shift(r, b), s)
  {
    assert ([b] + s)[1..] == s;
  }

  /** Whatever its coefficients are, a round shifts them once. */
  ghost predicate ShiftsOnce<T(!new)>(w: Register<T>, row: T -> Coeffs) {
    forall x, b :: row(w.step(WithBit(w, x, b))) == Shift(row(x), b)
  }

  lemma RegisterShifts<T(!new)>(w: Register<T>)
    requires IsRegister(w)
    ensures ShiftsOnce(w, x => Row(w, x))
  {
    forall x, b ensures Row(w, w.step(WithBit(w, x, b))) == Shift(Row(w, x), b) {
      RoundShifts(w, x, b);
    }
  }

  lemma SplitOnce<T(!new)>(w: Register<T>, row: T -> Coeffs, x: T, y: T) returns (z: T)
    requires ShiftsOnce(w, row) && Splits(w)
    ensures w.step(w.add(x, y)) == w.add(z, w.down(y)) && row(z) == Shift(row(x), w.odd(y))
  {
    z := w.step(WithBit(w, x, w.odd(y)));
  }

  /** A word that is added at once is taken in bit by bit; what is not taken yet is still added. */
  lemma {:induction false} RoundsShift<T(!new)>(w: Register<T>, row: T -> Coeffs, x: T, y: T, n: nat) returns (z: T)
    requires ShiftsOnce(w, row) && Splits(w)
    ensures Iterate(w.step, w.add(x, y), n) == w.add(z, Iterate(w.down, y, n))
    ensures row(z) == ShiftAll(row(x), Seen(w.down, w.odd, y, n))
    decreases n
  {
    if n == 0 {
      z := x;
    } else {
      var x' := SplitOnce(w, row, x, y);
      z := RoundsShift(w, row, x', w.down(y), n - 1);
      IterateFirst(w.step, w.add(x, y), n);
      IterateFirst(w.down, y, n);
      ShiftOne(row(x), w.odd(y), Seen(w.down, w.odd, w.down(y), n - 1));
    }
  }

  function AllBits<U>(bits: U -> seq<bool>, data: seq<U>): seq<bool> {
    if data == [] then [] else AllBits(bits, data[..|data| - 1]) + bits(data[|data| - 1])
  }

  ghost predicate ShiftsIn<T(!new), U(!new)>(w: Register<T>, f: (T, U) -> T, bits: U -> seq<bool>) {
    forall y, b :: Row(w, f(y, b)) == ShiftAll(Row(w, y), bits(b))
  }

  /** A step per byte that shifts its bits in does so for whole messages. */
  lemma {:induction false} FoldShifts<T(!new), U(!new)>(w: Register<T>, f: (T, U) -> T, bits: U -> seq<bool>, x: T,
                                                  data: seq<U>)
    requires ShiftsIn(w, f, bits)
    ensures Row(w, Fold(f, x, data)) == ShiftAll(Row(w, x), AllBits(bits, data))
  {
    if data != [] {
      var init, b := data[..|data| - 1], data[|data| - 1];
      FoldShifts(w, f, bits, x, init);
      ShiftJoin(Row(w, x), AllBits(bits, init), bits(b));
    }
  }
}
