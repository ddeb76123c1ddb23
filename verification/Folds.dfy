/** Iteration and folding over an abstract state, with the facts about them that do not depend on
    what the state is. */
module Folds {

  function Iterate<T>(f: T -> T, x: T, n: nat): T {
    if n == 0 then x else f(Iterate(f, x, n - 1))
  }

  lemma {:induction false} IterateFirst<T>(f: T -> T, x: T, n: nat)
    requires 0 < n
    ensures Iterate(f, x, n) == Iterate(f, f(x), n - 1)
  {
    if 1 < n {
      IterateFirst(f, x, n - 1);
    }
  }

  /** What is seen of `x` and of the states after it. */
  function Seen<T, U>(f: T -> T, see: T -> U, x: T, n: nat): (s: seq<U>)
    ensures |s| == n
  {
    if n == 0 then [] else [see(x)] + Seen(f, see, f(x), n - 1)
  }

  lemma {:induction false} SeenJoin<T, U>(f: T -> T, see: T -> U, x: T, n: nat, m: nat)
    ensures Seen(f, see, x, n + m) == Seen(f, see, x, n) + Seen(f, see, Iterate(f, x, n), m)
  {
    if n == 0 {
      assert [] + Seen(f, see, x, m) == Seen(f, see, x, m);
    } else {
      IterateFirst(f, x, n);
      SeenJoin(f, see, f(x), n - 1, m);
    }
  }

  /** From the next state on the same is seen, and one thing more at the end. */
  lemma SeenNext<T, U>(f: T -> T, see: T -> U, x: T, n: nat)
    requires 0 < n
    ensures Seen(f, see, f(x), n) == Seen(f, see, x, n)[1..] + [see(Iterate(f, x, n))]
  {
    var y := Iterate(f, x, n);
    SeenJoin(f, see, x, n, 1);
    assert Seen(f, see, y, 1) == [see(y)];
    assert Seen(f, see, x, n + 1)[1..] == Seen(f, see, f(x), n);
    assert (Seen(f, see, x, n) + [see(y)])[1..] == Seen(f, see, x, n)[1..] + [see(y)];
  }

  ghost predicate TellsApart<T(!new), U>(f: T -> T, see: T -> U) {
    forall u, v :: see(u) == see(v) && f(u) == f(v) ==> u == v
  }

  /** What is seen, and what is left after it, tells states apart if one step does. */
  lemma {:induction false} SeenDetermines<T(!new), U>(f: T -> T, see: T -> U, x: T, y: T, n: nat)
    requires TellsApart(f, see)
    requires Seen(f, see, x, n) == Seen(f, see, y, n) && Iterate(f, x, n) == Iterate(f, y, n)
    ensures x == y
  {
    if 0 < n {
      var s, t := Seen(f, see, x, n), Seen(f, see, y, n);
      assert s[0] == see(x) && t[0] == see(y) && s[1..] == Seen(f, see, f(x), n - 1);
      assert t[1..] == Seen(f, see, f(y), n - 1);
      IterateFirst(f, x, n);
      IterateFirst(f, y, n);
      SeenDetermines(f, see, f(x), f(y), n - 1);
    }
  }

  /** Thirty-two states, eight at a time. */
  lemma SeenInBytes<T, U>(f: T -> T, see: T -> U, x: T, x8: T, x16: T, x24: T)
    requires Iterate(f, x, 8) == x8 && Iterate(f, x8, 8) == x16 && Iterate(f, x16, 8) == x24
    ensures Seen(f, see, x, 32)
         == Seen(f, see, x, 8) + Seen(f, see, x8, 8) + Seen(f, see, x16, 8) + Seen(f, see, x24, 8)
  {
    SeenJoin(f, see, x, 8, 24);
    SeenJoin(f, see, x8, 8, 16);
    SeenJoin(f, see, x16, 8, 8);
  }

  lemma {:induction false} IterateJoin<T>(f: T -> T, x: T, n: nat, m: nat)
    ensures Iterate(f, x, n + m) == Iterate(f, Iterate(f, x, n), m)
  {
    if 0 < m {
      IterateJoin(f, x, n, m - 1);
    }
  }

  lemma IterateByEights<T(!new)>(f: T -> T, g: T -> T, x: T)
    requires forall y :: f(f(f(f(f(f(f(f(y)))))))) == g(y)
    ensures Iterate(f, x, 32) == g(g(g(g(x))))
  {
    forall y ensures Iterate(f, y, 8) == g(y) {
      assert Iterate(f, y, 3) == f(f(f(y)));
      assert Iterate(f, y, 6) == f(f(f(Iterate(f, y, 3))));
    }
    IterateJoin(f, x, 8, 8);
    IterateJoin(f, x, 16, 8);
    IterateJoin(f, x, 24, 8);
  }

  lemma EightSeen<T, U>(f: T -> T, see: T -> U, x: T, x1: T, x2: T, x3: T, x4: T, x5: T, x6: T, x7: T, x8: T)
    requires x1 == f(x) && x2 == f(x1) && x3 == f(x2) && x4 == f(x3)
    requires x5 == f(x4) && x6 == f(x5) && x7 == f(x6) && x8 == f(x7)
    ensures Seen(f, see, x, 8) == [see(x), see(x1), see(x2), see(x3), see(x4), see(x5), see(x6), see(x7)]
    ensures Iterate(f, x, 8) == x8
  {
    assert Seen(f, see, x6, 2) == [see(x6), see(x7)] by {
      assert Seen(f, see, x7, 1) == [see(x7)];
    }
    assert Seen(f, see, x4, 4) == [see(x4), see(x5), see(x6), see(x7)] by {
      assert Seen(f, see, x5, 3) == [see(x5)] + Seen(f, see, x6, 2);
    }
    assert Seen(f, see, x2, 6) == [see(x2), see(x3)] + Seen(f, see, x4, 4) by {
      assert Seen(f, see, x3, 5) == [see(x3)] + Seen(f, see, x4, 4);
    }
    assert Seen(f, see, x1, 7) == [see(x1)] + Seen(f, see, x2, 6);
    assert Iterate(f, x, 2) == x2 && Iterate(f, x, 4) == x4 && Iterate(f, x, 6) == x6;
  }

  function Fold<T, U>(f: (T, U) -> T, x: T, s: seq<U>): T {
    if s == [] then x else f(Fold(f, x, s[..|s| - 1]), s[|s| - 1])
  }

  lemma FoldPush<T, U>(f: (T, U) -> T, x: T, s: seq<U>, i: nat)
    requires i < |s|
    ensures Fold(f, x, s[..i + 1]) == f(Fold(f, x, s[..i]), s[i])
  {
    assert s[..i + 1][..i] == s[..i];
  }

  /** A fold whose states are known one by one. */
  lemma {:induction false} FoldOfStates<T, U>(f: (T, U) -> T, s: seq<U>, states: seq<T>)
    requires |states| == |s| + 1 && forall i :: 0 <= i < |s| ==> f(states[i], s[i]) == states[i + 1]
    ensures Fold(f, states[0], s) == states[|s|]
  {
    if s != [] {
      FoldOfStates(f, s[..|s| - 1], states[..|s|]);
    }
  }

  lemma {:induction false} FoldAppend<T, U>(f: (T, U) -> T, x: T, a: seq<U>, b: seq<U>)
    ensures Fold(f, x, a + b) == Fold(f, Fold(f, x, a), b)
  {
    if b == [] {
      assert a + b == a;
    } else {
      var i := |b| - 1;
      assert (a + b)[..|a + b| - 1] == a + b[..i] && (a + b)[|a + b| - 1] == b[i];
      FoldAppend(f, x, a, b[..i]);
    }
  }

  lemma {:induction false} FoldSame<T(!new), U(!new)>(f: (T, U) -> T, g: (T, U) -> T, x: T, s: seq<U>)
    requires forall y, b :: f(y, b) == g(y, b)
    ensures Fold(f, x, s) == Fold(g, x, s)
  {
    if s != [] {
      FoldSame(f, g, x, s[..|s| - 1]);
    }
  }

  ghost predicate Injective<T(!new)>(f: T -> T) {
    forall x, y :: f(x) == f(y) ==> x == y
  }

  ghost predicate StepInjective<T(!new), U(!new)>(f: (T, U) -> T) {
    forall x, y, b :: f(x, b) == f(y, b) ==> x == y
  }

  lemma {:induction false} IterateInjective<T(!new)>(f: T -> T, x: T, y: T, n: nat)
    requires Injective(f) && Iterate(f, x, n) == Iterate(f, y, n)
    ensures x == y
  {
    if n > 0 {
      IterateInjective(f, x, y, n - 1);
    }
  }

  lemma {:induction false} FoldInjective<T(!new), U(!new)>(f: (T, U) -> T, x: T, y: T, s: seq<U>)
    requires StepInjective(f) && Fold(f, x, s) == Fold(f, y, s)
    ensures x == y
  {
    if s != [] {
      FoldInjective(f, x, y, s[..|s| - 1]);
    }
  }

  /** A step turns the added part `w` into the added part `z` and does not mix it with the rest. */
  ghost predicate PassesDown<T(!new)>(f: T -> T, add: (T, T) -> T, w: T, z: T) {
    forall x :: f(add(x, w)) == add(f(x), z)
  }

  /** A part that every step merely passes from one place of `ys` to the next goes through untouched. */
  lemma {:induction false} IterateSplits<T(!new)>(f: T -> T, add: (T, T) -> T, x: T, ys: seq<T>, n: nat)
    requires n < |ys|
    requires forall k :: 0 <= k < n ==> PassesDown(f, add, ys[k], ys[k + 1])
    ensures Iterate(f, add(x, ys[0]), n) == add(Iterate(f, x, n), ys[n])
  {
    if n > 0 {
      IterateSplits(f, add, x, ys, n - 1);
      assert PassesDown(f, add, ys[n - 1], ys[n]);
    }
  }

  lemma IterateSplitsByEight<T(!new)>(f: T -> T, add: (T, T) -> T, x: T,
                                      y8: T, y7: T, y6: T, y5: T, y4: T, y3: T, y2: T, y1: T, y0: T)
    requires PassesDown(f, add, y8, y7) && PassesDown(f, add, y7, y6) && PassesDown(f, add, y6, y5)
    requires PassesDown(f, add, y5, y4) && PassesDown(f, add, y4, y3) && PassesDown(f, add, y3, y2)
    requires PassesDown(f, add, y2, y1) && PassesDown(f, add, y1, y0)
    ensures Iterate(f, add(x, y8), 8) == add(Iterate(f, x, 8), y0)
  {
    IterateSplits(f, add, x, [y8, y7, y6, y5, y4, y3, y2, y1, y0], 8);
  }

  /** Feeding four inputs one by one is feeding one combined input, when a step lets what is shifted up
      by one place through. */
  lemma FourStepsAreOneWord<T(!new)>(f: T -> T, add: (T, T) -> T, up: T -> T, c: T, e0: T, e1: T, e2: T, e3: T)
    requires PassesDown(f, add, up(e1), e1)
    requires PassesDown(f, add, up(up(e2)), up(e2)) && PassesDown(f, add, up(e2), e2)
    requires PassesDown(f, add, up(up(up(e3))), up(up(e3))) && PassesDown(f, add, up(up(e3)), up(e3))
    requires PassesDown(f, add, up(e3), e3)
    ensures f(add(f(add(f(add(f(add(c, e0)), e1)), e2)), e3))
         == f(f(f(f(add(add(add(add(c, e0), up(e1)), up(up(e2))), up(up(up(e3))))))))
  {
    var u0 := add(c, e0);
    var u1 := add(u0, up(e1));
    var u2 := add(u1, up(up(e2)));
    assert add(f(u0), e1) == f(u1);
    assert add(f(f(u1)), e2) == f(add(f(u1), up(e2))) == f(f(u2));
    assert add(f(f(f(u2))), e3) == f(add(f(f(u2)), up(e3))) == f(f(add(f(u2), up(up(e3)))))
           == f(f(f(add(u2, up(up(up(e3)))))));
  }

  /** Windows of at most `n` inputs that differ leave the state different. */
  ghost predicate WindowInjective<T(!new), U(!new)>(f: (T, U) -> T, n: nat) {
    forall x, w, v :: |w| == |v| <= n && Fold(f, x, w) == Fold(f, x, v) ==> w == v
  }

  lemma SameFoldSameMiddle<T(!new), U(!new)>(f: (T, U) -> T, n: nat, x: T, p: seq<U>, w: seq<U>, v: seq<U>, q: seq<U>)
    requires StepInjective(f) && WindowInjective(f, n) && |w| == |v| <= n
    requires Fold(f, x, p + (w + q)) == Fold(f, x, p + (v + q))
    ensures w == v
  {
    var y := Fold(f, x, p);
    FoldAppend(f, x, p, w + q);
    FoldAppend(f, x, p, v + q);
    FoldAppend(f, y, w, q);
    FoldAppend(f, y, v, q);
    FoldInjective(f, Fold(f, y, w), Fold(f, y, v), q);
  }

  lemma SameFoldSameWindow<T(!new), U(!new)>(f: (T, U) -> T, n: nat, x: T, a: seq<U>, b: seq<U>, lo: nat, hi: nat)
    requires StepInjective(f) && WindowInjective(f, n)
    requires |a| == |b| && lo <= hi <= |a| && hi - lo <= n
    requires forall j :: 0 <= j < |a| && a[j] != b[j] ==> lo <= j < hi
    requires Fold(f, x, a) == Fold(f, x, b)
    ensures a == b
  {
    OutsideIsShared(a, b, lo, hi);
    SameFoldSameMiddle(f, n, x, a[..lo], a[lo..hi], b[lo..hi], a[hi..]);
  }

  lemma OutsideIsShared<U>(a: seq<U>, b: seq<U>, lo: nat, hi: nat)
    requires |a| == |b| && lo <= hi <= |a|
    requires forall j :: 0 <= j < |a| && a[j] != b[j] ==> lo <= j < hi
    ensures a == a[..lo] + (a[lo..hi] + a[hi..])
    ensures b == a[..lo] + (b[lo..hi] + a[hi..])
  {
    assert b[..lo] == a[..lo] && b[hi..] == a[hi..];
    assert b == b[..lo] + (b[lo..hi] + b[hi..]);
  }
}
