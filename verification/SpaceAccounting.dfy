/** The free-space counter of the super block over runs of truncate and fallocate. */
module SpaceAccounting {
  import opened Common
  import opened Division
  import opened SliceStore
  import opened SliceResize

  datatype Space = Space(sizes: map<nat, nat>, free: nat) {
    /** Free space plus the sizes of all files. */
    ghost function Total(): nat {
      free + Sum(sizes)
    }
  }

  datatype SpaceOp =
    | TruncateTo(ino: nat, size: nat)
    | FallocateTo(ino: nat, end: nat, keepSize: bool)

  ghost function Sum(m: map<nat, nat>): nat {
    if m == map[] then 0 else
      var k :| k in m;
      m[k] + Sum(m - {k})
  }

  lemma {:induction false} SumWithout(m: map<nat, nat>, k: nat)
    requires k in m
    ensures Sum(m) == m[k] + Sum(m - {k})
    decreases |m|
  {
    var j :| j in m && Sum(m) == m[j] + Sum(m - {j});
    if j != k {
      SumWithout(m - {j}, k);
      SumWithout(m - {k}, j);
      assert m - {j} - {k} == m - {k} - {j};
    }
  }

  lemma SumUpdate(m: map<nat, nat>, k: nat, v: nat)
    requires k in m
    ensures Sum(m[k := v]) == Sum(m) - m[k] + v
  {
    SumWithout(m, k);
    SumWithout(m[k := v], k);
    assert m[k := v] - {k} == m - {k};
  }

  /** One successful operation, for an inode that exists and a requester who may write it. */
  function SpaceStep(s: Space, op: SpaceOp): (r: Result<Space>)
    requires op.ino in s.sizes
  {
    match op
    case TruncateTo(ino, size) =>
      (match SpaceAfterResize(s.free, s.sizes[ino], size)
       case Err(e) => Err(e)
       case Ok(free) => Ok(Space(s.sizes[ino := size], free)))
    case FallocateTo(ino, end, keepSize) =>
      (match SpaceAfterFallocate(s.free, s.sizes[ino], end)
       case Err(e) => Err(e)
       case Ok(free) => Ok(Space(if keepSize then s.sizes else s.sizes[ino := Max(s.sizes[ino], end)], free)))
  }

  function SpaceOf(files: map<nat, File>, free: nat): Space {
    Space(map i | i in files :: files[i].size, free)
  }

  /** The steps are what Truncate and Fallocate commit. */
  lemma ResizeIsSpaceStep(files: map<nat, File>, free: nat, ino: nat, g: File, size: nat, left: nat)
    requires ino in files && IsResize(files[ino], g, size)
    requires SpaceAfterResize(free, files[ino].size, size) == Ok(left)
    ensures SpaceStep(SpaceOf(files, free), TruncateTo(ino, size)) == Ok(SpaceOf(files[ino := g], left))
  {
    assert SpaceOf(files[ino := g], left).sizes == SpaceOf(files, free).sizes[ino := size];
  }

  lemma FallocateIsSpaceStep(files: map<nat, File>, free: nat, ino: nat, end: nat, mode: nat, left: nat)
    requires ino in files && SpaceAfterFallocate(free, files[ino].size, end) == Ok(left)
    ensures var f := files[ino];
      SpaceStep(SpaceOf(files, free), FallocateTo(ino, end, KeepsSize(mode)))
      == Ok(SpaceOf(files[ino := if KeepsSize(mode) then f else f.(size := Max(f.size, end))], left))
  {
    var f := files[ino];
    var g := if KeepsSize(mode) then f else f.(size := Max(f.size, end));
    var sizes := SpaceOf(files, free).sizes;
    assert SpaceOf(files[ino := g], left).sizes == if KeepsSize(mode) then sizes else sizes[ino := g.size];
  }

  predicate GrowsIntoHigherSlice(s: Space, op: SpaceOp)
    requires op.ino in s.sizes
  {
    s.sizes[op.ino] / SLICE_SIZE < (if op.TruncateTo? then op.size else op.end) / SLICE_SIZE
  }

  /** What an operation takes out of the counter that no file size accounts for: a fallocate that keeps the size
      and reaches a higher slice takes the whole gap. */
  function Lost(s: Space, op: SpaceOp): nat
    requires op.ino in s.sizes
  {
    if op.FallocateTo? && op.keepSize && GrowsIntoHigherSlice(s, op) then SaturatingSub(op.end, s.sizes[op.ino]) else 0
  }

  /** An operation may leave the sum inexact if it does not grow into a higher slice, unless it keeps the size. */
  predicate IsInexact(s: Space, op: SpaceOp)
    requires op.ino in s.sizes
  {
    !GrowsIntoHigherSlice(s, op) && !(op.FallocateTo? && op.keepSize)
  }

  /** A run of successful operations. */
  ghost predicate SpaceRun(states: seq<Space>, ops: seq<SpaceOp>) {
    && |states| == |ops| + 1
    && forall i :: 0 <= i < |ops| ==> ops[i].ino in states[i].sizes && SpaceStep(states[i], ops[i]) == Ok(states[i + 1])
  }

  /** How many of the first `k` operations may leave the sum inexact. */
  ghost function Inexact(states: seq<Space>, ops: seq<SpaceOp>, k: nat): nat
    requires SpaceRun(states, ops) && k <= |ops|
  {
    if k == 0 then 0 else Inexact(states, ops, k - 1) + if IsInexact(states[k - 1], ops[k - 1]) then 1 else 0
  }

  /** What the first `k` operations take out of the counter for good. */
  ghost function AllLost(states: seq<Space>, ops: seq<SpaceOp>, k: nat): nat
    requires SpaceRun(states, ops) && k <= |ops|
  {
    if k == 0 then 0 else AllLost(states, ops, k - 1) + Lost(states[k - 1], ops[k - 1])
  }

  /** How far the sum of the counter and one file's size moves when the block count decides the change. */
  lemma BlockDrift(a: nat, b: nat)
    ensures var moved := a / SLICE_SIZE * SLICE_SIZE - b / SLICE_SIZE * SLICE_SIZE + b - a;
      -(SLICE_SIZE - 1) <= moved <= SLICE_SIZE - 1
  {
    QuotientRemainder(a, SLICE_SIZE);
    QuotientRemainder(b, SLICE_SIZE);
  }

  lemma ResizeDrift(free: nat, a: nat, b: nat, left: nat)
    requires SpaceAfterResize(free, a, b) == Ok(left)
    ensures a / SLICE_SIZE < b / SLICE_SIZE ==> left + b == free + a
    ensures -(SLICE_SIZE - 1) <= left + b - free - a <= SLICE_SIZE - 1
  {
    var x, y := NumberOf(a), NumberOf(b);
    if x < y {
      GrowsWhenBlockGrows(a, b);
    } else {
      BlockDrift(a, b);
      Distribute(x, y);
    }
  }

  lemma FallocateDrift(free: nat, a: nat, end: nat, left: nat)
    requires SpaceAfterFallocate(free, a, end) == Ok(left)
    ensures a / SLICE_SIZE < end / SLICE_SIZE ==> left + Max(a, end) == free + a
    ensures -(SLICE_SIZE - 1) <= left + Max(a, end) - free - a <= SLICE_SIZE - 1
  {
    if a / SLICE_SIZE < end / SLICE_SIZE {
      GrowsWhenBlockGrows(a, end);
    } else if a < end {
      DivMonotone(a, end, SLICE_SIZE);
      BlockDrift(a, end);
    }
  }

  lemma StepDrift(s: Space, op: SpaceOp, t: Space)
    requires op.ino in s.sizes && SpaceStep(s, op) == Ok(t)
    ensures !IsInexact(s, op) ==> t.Total() + Lost(s, op) == s.Total()
    ensures -(SLICE_SIZE - 1) <= t.Total() + Lost(s, op) - s.Total() <= SLICE_SIZE - 1
  {
    if op.FallocateTo? && op.keepSize {
      if GrowsIntoHigherSlice(s, op) {
        KeepSizeLosesSpace(s, op.ino, op.end, t);
      }
    } else {
      var a, b := s.sizes[op.ino], t.sizes[op.ino];
      assert t.sizes == s.sizes[op.ino := b];
      SumUpdate(s.sizes, op.ino, b);
      match op
      case TruncateTo(_, size) => ResizeDrift(s.free, a, size, t.free);
      case FallocateTo(_, end, _) => FallocateDrift(s.free, a, end, t.free);
    }
  }

  lemma Distribute(x: nat, y: nat)
    ensures (x - y) * SLICE_SIZE == x * SLICE_SIZE - y * SLICE_SIZE
  {
  }

  /** The drift that `m` inexact operations may cause. */
  function Slack(m: nat): (b: nat)
    ensures b == (SLICE_SIZE - 1) * m
  {
    (SLICE_SIZE - 1) * m
  }

  lemma SlackStep(m: nat)
    ensures Slack(m + 1) == Slack(m) + SLICE_SIZE - 1
  {
    assert (SLICE_SIZE - 1) * (m + 1) == (SLICE_SIZE - 1) * m + (SLICE_SIZE - 1);
  }

  /** Free space, file sizes and what keep-size fallocates have taken drift by less than one slice for each
      operation that neither grows into a higher slice nor keeps the size, and not at all for the others. */
  lemma {:induction false} SpaceDriftBound(states: seq<Space>, ops: seq<SpaceOp>, k: nat)
    requires SpaceRun(states, ops) && k <= |ops|
    ensures states[k].Total() + AllLost(states, ops, k) - states[0].Total() <= Slack(Inexact(states, ops, k))
    ensures states[0].Total() - states[k].Total() - AllLost(states, ops, k) <= Slack(Inexact(states, ops, k))
  {
    if k > 0 {
      SpaceDriftBound(states, ops, k - 1);
      StepDrift(states[k - 1], ops[k - 1], states[k]);
      SlackStep(Inexact(states, ops, k - 1));
    }
  }

  function StretchedSize(i: nat, k: nat): nat {
    if i < k then SLICE_SIZE - 1 else 0
  }

  /** After `k` of the `n` empty files are truncated up to the last byte of their first slice. */
  function Stretched(n: nat, k: nat, free: nat): Space {
    Space(map i | 0 <= i < n :: StretchedSize(i, k), free)
  }

  function StretchedStates(n: nat, free: nat): (states: seq<Space>)
    ensures |states| == n + 1 && forall i :: 0 <= i <= n ==> states[i] == Stretched(n, i, free)
  {
    seq(n + 1, i requires 0 <= i => Stretched(n, i, free))
  }

  function Stretches(n: nat): (ops: seq<SpaceOp>)
    ensures |ops| == n && forall i :: 0 <= i < n ==> ops[i] == TruncateTo(i, SLICE_SIZE - 1)
  {
    seq(n, i requires 0 <= i => TruncateTo(i, SLICE_SIZE - 1))
  }

  /** The bound is attained: truncating `n` empty files to one byte less than a slice drifts by
      exactly (SLICE_SIZE - 1) for each of them, and leaves the counter as it was. */
  lemma {:induction false} SpaceDriftAttained(n: nat, free: nat, k: nat)
    requires k <= n
    ensures var states, ops := StretchedStates(n, free), Stretches(n);
      && SpaceRun(states, ops)
      && Inexact(states, ops, k) == k && AllLost(states, ops, k) == 0
      && states[k].Total() - states[0].Total() == Slack(k)
  {
    var states, ops := StretchedStates(n, free), Stretches(n);
    StretchesRun(n, free);
    if k > 0 {
      SpaceDriftAttained(n, free, k - 1);
      StretchStep(n, k - 1, free);
      StretchDrift(n, k - 1, free);
      SlackStep(k - 1);
    }
  }

  lemma StretchesRun(n: nat, free: nat)
    ensures SpaceRun(StretchedStates(n, free), Stretches(n))
  {
    var states, ops := StretchedStates(n, free), Stretches(n);
    forall i | 0 <= i < n ensures SpaceStep(states[i], ops[i]) == Ok(states[i + 1]) {
      StretchStep(n, i, free);
    }
  }

  lemma StretchDrift(n: nat, i: nat, free: nat)
    requires i < n
    ensures Stretched(n, i + 1, free).Total() == Stretched(n, i, free).Total() + SLICE_SIZE - 1
  {
    var s, s' := Stretched(n, i, free), Stretched(n, i + 1, free);
    SumUpdate(s.sizes, i, SLICE_SIZE - 1);
    assert s'.sizes == s.sizes[i := SLICE_SIZE - 1];
  }

  lemma StretchStep(n: nat, i: nat, free: nat)
    requires i < n
    ensures SpaceStep(Stretched(n, i, free), TruncateTo(i, SLICE_SIZE - 1)) == Ok(Stretched(n, i + 1, free))
    ensures !GrowsIntoHigherSlice(Stretched(n, i, free), TruncateTo(i, SLICE_SIZE - 1))
  {
    QuotientUnique(0, SLICE_SIZE, 0, 0);
    QuotientUnique(SLICE_SIZE - 1, SLICE_SIZE, 0, SLICE_SIZE - 1);
    assert Stretched(n, i + 1, free).sizes == Stretched(n, i, free).sizes[i := SLICE_SIZE - 1];
  }

  /** A fallocate that keeps the size and reaches a higher slice takes the whole gap out of the
      counter for good: no file size accounts for it. */
  lemma KeepSizeLosesSpace(s: Space, ino: nat, end: nat, t: Space)
    requires ino in s.sizes && GrowsIntoHigherSlice(s, FallocateTo(ino, end, true))
    requires SpaceStep(s, FallocateTo(ino, end, true)) == Ok(t)
    ensures Lost(s, FallocateTo(ino, end, true)) == end - s.sizes[ino] > 0
    ensures t.Total() == s.Total() - (end - s.sizes[ino])
  {
    GrowsWhenBlockGrows(s.sizes[ino], end);
  }
}
