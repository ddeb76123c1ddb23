/** Extent lists as a map from file positions to log positions: src/models.rs, src/tx_engine.rs. */
module Extents {
  import opened Common

  datatype Extent = Extent(logicalOff: nat, physicalPtr: nat, len: nat, crc: bv32) {
    function End(): nat {
      logicalOff + len
    }

    predicate Covers(pos: nat) {
      logicalOff <= pos < End()
    }

    /** Where the log holds the byte of file position `pos`. */
    function Physical(pos: nat): nat
      requires Covers(pos)
    {
      physicalPtr + (pos - logicalOff)
    }

    /** The test that read_file makes before it copies. */
    predicate Meets(offset: nat, end: nat) {
      logicalOff < end && offset < End()
    }
  }

  /** The last of the first `k` extents that covers `pos`. */
  function LastCover(es: seq<Extent>, k: nat, pos: nat): (r: Option<nat>)
    requires k <= |es|
    ensures r.Some? ==> r.value < k && es[r.value].Covers(pos) && forall i :: r.value < i < k ==> !es[i].Covers(pos)
    ensures r.None? ==> forall i :: 0 <= i < k ==> !es[i].Covers(pos)
  {
    if k == 0 then None
    else if es[k - 1].Covers(pos) then Some(k - 1)
    else LastCover(es, k - 1, pos)
  }

  /** How far into the request the first `k` extents reach. */
  function Reach(es: seq<Extent>, k: nat, offset: nat, want: nat): (r: nat)
    requires k <= |es|
    ensures r <= want
  {
    if k == 0 then 0
    else
      var before := Reach(es, k - 1, offset, want);
      if es[k - 1].Meets(offset, offset + want)
      then Max(before, Min(es[k - 1].End(), offset + want) - offset)
      else before
  }

  /** How many extents read_file looks at: it stops as soon as the end of the request is reached. */
  function Scanned(es: seq<Extent>, k: nat, offset: nat, want: nat): (n: nat)
    requires k <= |es|
    ensures k <= n <= |es|
    decreases |es| - k
  {
    if k == |es| || Reach(es, k, offset, want) >= want then k else Scanned(es, k + 1, offset, want)
  }

  /** The byte that the first `k` extents give for `pos`, or `otherwise` when none of them covers it. */
  function ByteFrom(device: nat -> u8, es: seq<Extent>, k: nat, pos: nat, otherwise: u8): u8
    requires k <= |es|
  {
    match LastCover(es, k, pos)
    case Some(i) => device(es[i].Physical(pos))
    case None => otherwise
  }

  // ----- what the readers return -----

  /** The extent covers the last wanted position. */
  predicate CoversLast(e: Extent, offset: nat, want: nat) {
    e.logicalOff < offset + want <= e.End()
  }

  /** No extent that comes after one that covers the last wanted position covers a wanted position itself: what
      a caller can check on the list. */
  ghost predicate NothingMissed(es: seq<Extent>, offset: nat, want: nat) {
    forall i, j, pos :: 0 <= i < j < |es| && CoversLast(es[i], offset, want) && offset <= pos < offset + want ==>
      !es[j].Covers(pos)
  }

  /** No extent from `n` on covers a wanted position. */
  ghost predicate NoneFrom(es: seq<Extent>, n: nat, offset: nat, want: nat) {
    forall j, pos :: n <= j < |es| && offset <= pos < offset + want ==> !es[j].Covers(pos)
  }

  /** The scan stops right after the first extent that covers the last wanted position. */
  lemma NothingMissedIsNoneFrom(es: seq<Extent>, offset: nat, want: nat)
    requires 0 < want
    ensures NothingMissed(es, offset, want) <==> NoneFrom(es, Scanned(es, 0, offset, want), offset, want)
  {
    var n := Scanned(es, 0, offset, want);
    if n < |es| {
      ScannedStops(es, 0, offset, want);
      ReachCovers(es, n, offset, want);
      var i :| 0 <= i < n && es[i].Covers(offset + want - 1);
      assert CoversLast(es[i], offset, want);
    }
    forall i: nat | i < |es| && CoversLast(es[i], offset, want) ensures n <= i + 1 {
      CoverReaches(es, i, offset, want);
      ScannedEarly(es, 0, i + 1, offset, want);
    }
  }

  /** read_file takes every wanted byte from the last extent that covers it if and only if no extent after one
      that covers the last wanted position covers a wanted position. */
  lemma ReadsLatestIffNothingMissed(es: seq<Extent>, offset: nat, want: nat)
    ensures (forall pos :: offset <= pos < offset + want ==>
               LastCover(es, Scanned(es, 0, offset, want), pos) == LastCover(es, |es|, pos))
       <==> NothingMissed(es, offset, want)
  {
    var n := Scanned(es, 0, offset, want);
    if 0 < want {
      NothingMissedIsNoneFrom(es, offset, want);
      if NoneFrom(es, n, offset, want) {
        forall pos | offset <= pos < offset + want ensures LastCover(es, n, pos) == LastCover(es, |es|, pos) {
          SameLastCover(es, n, |es|, pos);
        }
      } else {
        var j, pos: nat :| n <= j < |es| && offset <= pos < offset + want && es[j].Covers(pos);
        assert LastCover(es, |es|, pos) != LastCover(es, n, pos);
      }
    }
  }

  lemma {:induction false} SameLastCover(es: seq<Extent>, k: nat, l: nat, pos: nat)
    requires k <= l <= |es| && forall i :: k <= i < l ==> !es[i].Covers(pos)
    ensures LastCover(es, k, pos) == LastCover(es, l, pos)
    decreases l
  {
    if k < l {
      SameLastCover(es, k, l - 1, pos);
    }
  }

  /** Each extent starts where the one before it ends, or later. */
  ghost predicate Ascending(es: seq<Extent>) {
    forall i, j :: 0 <= i < j < |es| ==> es[i].End() <= es[j].logicalOff
  }

  ghost predicate Disjoint(es: seq<Extent>) {
    forall i, j, pos :: 0 <= i < j < |es| && es[i].Covers(pos) ==> !es[j].Covers(pos)
  }

  lemma {:induction false} ReachIsReached(es: seq<Extent>, k: nat, offset: nat, want: nat)
    requires k <= |es| && 0 < want && Reach(es, k, offset, want) == want
    ensures exists i :: 0 <= i < k && offset + want <= es[i].End()
  {
    if 0 < k && Reach(es, k - 1, offset, want) == want {
      ReachIsReached(es, k - 1, offset, want);
    }
  }

  lemma {:induction false} ScannedStops(es: seq<Extent>, k: nat, offset: nat, want: nat)
    requires k <= |es|
    ensures var n := Scanned(es, k, offset, want); n == |es| || Reach(es, n, offset, want) == want
    decreases |es| - k
  {
    if k < |es| && Reach(es, k, offset, want) < want {
      ScannedStops(es, k + 1, offset, want);
    }
  }

  /** For ascending extents nothing is missed, so read_file returns the flat content on covered bytes. */
  lemma AscendingReadsAll(es: seq<Extent>, offset: nat, want: nat)
    requires Ascending(es)
    ensures NothingMissed(es, offset, want)
    ensures forall pos :: offset <= pos < offset + want ==>
      LastCover(es, Scanned(es, 0, offset, want), pos) == LastCover(es, |es|, pos)
  {
    ReadsLatestIffNothingMissed(es, offset, want);
  }

  /** A range written last is read back from the extent just pushed if and only if its last byte was not
      mapped before: an older extent that reaches the end of the request stops the scan too early. */
  lemma ReadYourWrite(es: seq<Extent>, e: Extent)
    requires 0 < e.len
    ensures var fs := es + [e];
      (forall pos :: e.Covers(pos) ==> LastCover(fs, Scanned(fs, 0, e.logicalOff, e.len), pos) == Some(|es|))
      <==> LastCover(es, |es|, e.End() - 1) == None
  {
    var fs, offset, want := es + [e], e.logicalOff, e.len;
    var n := Scanned(fs, 0, offset, want);
    ScannedStops(fs, 0, offset, want);
    if n <= |es| {
      ReachIsReached(fs, n, offset, want);
      var i :| 0 <= i < n && offset + want <= fs[i].End();
      ReachCovers(fs, n, offset, want);
      assert e.Covers(offset);
    } else if LastCover(es, |es|, e.End() - 1).Some? {
      var i := LastCover(es, |es|, e.End() - 1).value;
      assert fs[i] == es[i];
      CoverReaches(fs, i, offset, want);
      ScannedEarly(fs, 0, i + 1, offset, want);
    }
  }

  lemma {:induction false} ReachCovers(es: seq<Extent>, k: nat, offset: nat, want: nat)
    requires k <= |es| && 0 < want && Reach(es, k, offset, want) == want
    ensures exists i :: 0 <= i < k && es[i].Covers(offset + want - 1)
  {
    if Reach(es, k - 1, offset, want) == want {
      ReachCovers(es, k - 1, offset, want);
    } else {
      assert es[k - 1].Covers(offset + want - 1);
    }
  }

  lemma CoverReaches(es: seq<Extent>, i: nat, offset: nat, want: nat)
    requires i < |es| && 0 < want && es[i].Covers(offset + want - 1)
    ensures Reach(es, i + 1, offset, want) == want
  {
  }

  lemma {:induction false} ScannedEarly(es: seq<Extent>, k: nat, n: nat, offset: nat, want: nat)
    requires k <= n <= |es| && Reach(es, n, offset, want) == want
    ensures Scanned(es, k, offset, want) <= n
    decreases |es| - k
  {
    if k < n && Reach(es, k, offset, want) < want {
      ScannedEarly(es, k + 1, n, offset, want);
    }
  }

  /** Overwriting a range and reading it back returns the old bytes. */
  lemma OverwriteIsNotRead(old_: Extent, new_: Extent)
    requires 0 < old_.len && new_.logicalOff == old_.logicalOff && new_.len == old_.len
    ensures var fs := [old_, new_];
      forall pos :: new_.Covers(pos) ==> LastCover(fs, Scanned(fs, 0, new_.logicalOff, new_.len), pos) == Some(0)
  {
    var fs := [old_, new_];
    CoverReaches(fs, 0, new_.logicalOff, new_.len);
    ScannedEarly(fs, 0, 1, new_.logicalOff, new_.len);
    assert Reach(fs, 0, new_.logicalOff, new_.len) == 0;
    assert Scanned(fs, 0, new_.logicalOff, new_.len) == 1;
  }

  // ----- truncation -----

  /** What truncate_file keeps of an extent list. */
  function Trimmed(es: seq<Extent>, size: nat): (ts: seq<Extent>) {
    if es == [] then []
    else if es[0].logicalOff < size then
      [if size < es[0].End() then es[0].(len := size - es[0].logicalOff) else es[0]] + Trimmed(es[1..], size)
    else Trimmed(es[1..], size)
  }

  /** The log positions that hold a byte for `pos`, in extent order. */
  function Sources(es: seq<Extent>, pos: nat): seq<nat> {
    if es == [] then [] else Source(es[0], pos) + Sources(es[1..], pos)
  }

  function Source(e: Extent, pos: nat): seq<nat> {
    if e.Covers(pos) then [e.Physical(pos)] else []
  }

  lemma SourcesCons(e: Extent, es: seq<Extent>, pos: nat)
    ensures Sources([e] + es, pos) == Source(e, pos) + Sources(es, pos)
  {
    assert ([e] + es)[0] == e && ([e] + es)[1..] == es;
  }

  /** Truncation keeps the mapping of every position below the new size and maps nothing above it. */
  lemma {:induction false} TrimKeepsBelow(es: seq<Extent>, size: nat, pos: nat)
    ensures Sources(Trimmed(es, size), pos) == if pos < size then Sources(es, pos) else []
  {
    if es != [] {
      var e, rest := es[0], Trimmed(es[1..], size);
      TrimKeepsBelow(es[1..], size, pos);
      if e.logicalOff < size {
        SourcesCons(if size < e.End() then e.(len := size - e.logicalOff) else e, rest, pos);
      }
    }
  }

  lemma {:induction false} SourcesPush(es: seq<Extent>, e: Extent, pos: nat)
    ensures Sources(es + [e], pos) == Sources(es, pos) + Source(e, pos)
  {
    if es == [] {
      assert [] + [e] == [e] && [e][1..] == [];
    } else {
      var fs := es + [e];
      assert fs != [] && fs[0] == es[0] && fs[1..] == es[1..] + [e];
      SourcesPush(es[1..], e, pos);
      Associate(Source(es[0], pos), Sources(es[1..], pos), Source(e, pos));
    }
  }

  ghost predicate EndWithin(es: seq<Extent>, size: nat) {
    forall i :: 0 <= i < |es| ==> es[i].End() <= size
  }

  /** Every extent that is kept is one of the old ones, with the same start, place and checksum and no longer. */
  lemma {:induction false} TrimmedComesFrom(es: seq<Extent>, size: nat, t: Extent)
    requires t in Trimmed(es, size)
    ensures exists e :: e in es && t == e.(len := t.len) && t.len <= e.len && t.End() <= size
  {
    if t in Trimmed(es[1..], size) {
      TrimmedComesFrom(es[1..], size, t);
    } else {
      assert es[0] in es && t == es[0].(len := t.len);
    }
  }

  // ----- the second reader -----

  /** The first extent from `k` on that covers `pos`. */
  function FirstCover(es: seq<Extent>, k: nat, pos: nat): (r: Option<nat>)
    requires k <= |es|
    ensures r.Some? ==>
      k <= r.value < |es| && es[r.value].Covers(pos) && forall i :: k <= i < r.value ==> !es[i].Covers(pos)
    ensures r.None? ==> forall i :: k <= i < |es| ==> !es[i].Covers(pos)
    decreases |es| - k
  {
    if k == |es| then None
    else if es[k].Covers(pos) then Some(k)
    else FirstCover(es, k + 1, pos)
  }

  function Span(from: nat, n: nat): (ps: seq<nat>)
    ensures |ps| == n && forall i :: 0 <= i < n ==> ps[i] == from + i
  {
    seq(n, i requires 0 <= i < n => from + i)
  }

  /** The log positions that read_from_log takes `room` bytes from: it finds an extent for the current position,
      follows it to its end, and looks again. */
  function Followed(es: seq<Extent>, size: nat, pos: nat, room: nat): seq<nat>
    decreases room
  {
    if room == 0 || size <= pos then []
    else
      match FirstCover(es, 0, pos)
      case None => []
      case Some(i) =>
        var n: nat := Min(es[i].End() - pos, room);
        Span(es[i].Physical(pos), n) + Followed(es, size, pos + n, room - n)
  }

  /** Some extent maps file position `pos` to log position `p`. */
  ghost predicate Maps(es: seq<Extent>, pos: nat, p: nat) {
    exists i :: 0 <= i < |es| && es[i].Covers(pos) && es[i].Physical(pos) == p
  }

  /** read_from_log takes each byte from an extent that covers its position, and stops early only at the end of
      the file or at a hole. */
  lemma {:induction false} FollowedIsMapped(es: seq<Extent>, size: nat, pos: nat, room: nat)
    ensures var ps := Followed(es, size, pos, room);
      && |ps| <= room
      && (forall k :: 0 <= k < |ps| ==> Maps(es, pos + k, ps[k]))
      && (|ps| < room ==> size <= pos + |ps| || LastCover(es, |es|, pos + |ps|).None?)
    decreases room
  {
    if 0 < room && pos < size && FirstCover(es, 0, pos).Some? {
      var i := FirstCover(es, 0, pos).value;
      var n: nat := Min(es[i].End() - pos, room);
      var rest := Followed(es, size, pos + n, room - n);
      assert Followed(es, size, pos, room) == Span(es[i].Physical(pos), n) + rest;
      FollowedIsMapped(es, size, pos + n, room - n);
      SpanIsMapped(es, i, pos, n, rest);
    }
  }

  lemma SpanIsMapped(es: seq<Extent>, i: nat, pos: nat, n: nat, rest: seq<nat>)
    requires forall k :: 0 <= k < |rest| ==> Maps(es, (pos + n) + k, rest[k])
    requires i < |es| && es[i].Covers(pos) && pos + n <= es[i].End()
    ensures var ps := Span(es[i].Physical(pos), n) + rest;
      |ps| == n + |rest| && forall k :: 0 <= k < |ps| ==> Maps(es, pos + k, ps[k])
  {
    var ps := Span(es[i].Physical(pos), n) + rest;
    forall k | 0 <= k < |ps| ensures Maps(es, pos + k, ps[k]) {
      if k < n {
        assert es[i].Covers(pos + k);
      } else {
        assert Maps(es, pos + n + (k - n), rest[k - n]);
      }
    }
  }

  /** Log position `p` holds the byte that the whole list gives for `pos`. */
  predicate IsFlatSource(es: seq<Extent>, pos: nat, p: nat) {
    var last := LastCover(es, |es|, pos);
    last.Some? && p == es[last.value].Physical(pos)
  }

  /** For disjoint extents, in any order, it reads the flat content up to the first hole. */
  lemma FollowedIsFlat(es: seq<Extent>, size: nat, pos: nat, room: nat)
    requires Disjoint(es) && EndWithin(es, size)
    ensures var ps := Followed(es, size, pos, room);
      && |ps| <= room
      && (forall k :: 0 <= k < |ps| ==> IsFlatSource(es, pos + k, ps[k]))
      && (|ps| < room ==> LastCover(es, |es|, pos + |ps|).None?)
  {
    var ps := Followed(es, size, pos, room);
    FollowedIsMapped(es, size, pos, room);
    forall k | 0 <= k < |ps| ensures IsFlatSource(es, pos + k, ps[k]) {
      var i :| 0 <= i < |es| && es[i].Covers(pos + k) && es[i].Physical(pos + k) == ps[k];
      var j := LastCover(es, |es|, pos + k).value;
      assert j == i;
    }
  }
}
