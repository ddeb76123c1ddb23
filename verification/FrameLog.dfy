/** A log of length-prefixed frames, seen without looking inside the frames: how entries are framed and
    how a frame is read back are parameters here, and src/wal.rs instantiates them. */
module FrameLog {
  import opened Common

  /** Bytes of the length prefix. */
  const SIZE_BYTES: nat := 4

  /** What the bytes from a frame boundary on begin with: no frame, a torn one, or a whole one of
      `len` bytes, whose payload may fail to decode. */
  datatype FrameRead<E> = NoFrame | TornFrame | WholeFrame(entry: Option<E>, len: nat)

  type Reader<!E> = seq<byte> -> FrameRead<E>
  type Framer<!E> = E -> seq<byte>

  /** The log that appending `es` to an empty one leaves. */
  function Log<E>(frame: Framer<E>, es: seq<E>): seq<byte> {
    if es == [] then [] else frame(es[0]) + Log(frame, es[1..])
  }

  function Optional<E>(e: Option<E>): seq<E> {
    if e.Some? then [e.value] else []
  }

  /** What recovery finds in the bytes from a frame boundary on: the entries, and how far it gets. A torn
      frame's length prefix is counted, its payload is not. */
  function Parse<E>(read: Reader<E>, s: seq<byte>): (r: (seq<E>, nat))
    decreases |s|
  {
    match read(s)
    case NoFrame => ([], 0)
    case TornFrame => ([], SIZE_BYTES)
    case WholeFrame(entry, len) =>
      if 0 < len <= |s| then
        var rest := Parse(read, s[len..]);
        (Optional(entry) + rest.0, len + rest.1)
      else ([], 0)
  }

  /** Storage after a write that may reach past its end; a gap is filled with zeros. */
  function WriteAt(s: seq<byte>, offset: nat, data: seq<byte>): (t: seq<byte>)
    ensures |t| == Max(|s|, offset + |data|)
  {
    var grown := if |s| < offset + |data| then s + seq(offset + |data| - |s|, _ => 0 as byte) else s;
    grown[..offset] + data + grown[offset + |data|..]
  }

  /** Storage after a row of appends from `offset` on; no append writes nothing. */
  function Appended(s: seq<byte>, offset: nat, data: seq<byte>): (t: seq<byte>) {
    if data == [] then s else WriteAt(s, offset, data)
  }

  /** A frame of `e` is read back whole, whatever follows it, and a cut one is recognised. */
  ghost predicate ReadsBack<E(!new)>(read: Reader<E>, frame: Framer<E>, e: E) {
    && SIZE_BYTES < |frame(e)|
    && (forall rest :: read(frame(e) + rest) == WholeFrame(Some(e), |frame(e)|))
    && (forall k :: 0 <= k < |frame(e)| ==> read(frame(e)[..k]) == if k < SIZE_BYTES then NoFrame else TornFrame)
  }

  /** A frame of `e` is not accepted. */
  ghost predicate Refuses<E(!new)>(read: Reader<E>, frame: Framer<E>, e: E) {
    forall rest :: read(frame(e) + rest) == NoFrame
  }

  ghost predicate AllReadBack<E(!new)>(read: Reader<E>, frame: Framer<E>, es: seq<E>) {
    read([]) == NoFrame && forall e :: e in es ==> ReadsBack(read, frame, e)
  }

  lemma {:induction false} LogAppend<E>(frame: Framer<E>, es: seq<E>, fs: seq<E>)
    ensures Log(frame, es + fs) == Log(frame, es) + Log(frame, fs)
  {
    if es == [] {
      assert es + fs == fs;
    } else {
      assert (es + fs)[1..] == es[1..] + fs;
      LogAppend(frame, es[1..], fs);
      Associate(frame(es[0]), Log(frame, es[1..]), Log(frame, fs));
    }
  }

  lemma LogOne<E>(frame: Framer<E>, e: E)
    ensures Log(frame, [e]) == frame(e)
  {
    assert [e][1..] == [];
  }

  lemma WriteTwice(s: seq<byte>, offset: nat, a: seq<byte>, b: seq<byte>)
    ensures WriteAt(WriteAt(s, offset, a), offset + |a|, b) == WriteAt(s, offset, a + b)
  {
  }

  /** One append after a row of them. */
  lemma AppendOneMore<E>(frame: Framer<E>, s: seq<byte>, offset: nat, es: seq<E>, e: E)
    requires frame(e) != []
    ensures |Log(frame, es + [e])| == |Log(frame, es)| + |frame(e)|
    ensures WriteAt(Appended(s, offset, Log(frame, es)), offset + |Log(frame, es)|, frame(e))
         == Appended(s, offset, Log(frame, es + [e]))
  {
    LogAppend(frame, es, [e]);
    LogOne(frame, e);
    if Log(frame, es) == [] {
      assert Log(frame, es) + frame(e) == frame(e);
    } else {
      WriteTwice(s, offset, Log(frame, es), frame(e));
    }
  }

  /** Appending at the end of a log adds one frame to it. */
  lemma AppendFrame<E>(frame: Framer<E>, es: seq<E>, e: E)
    ensures WriteAt(Log(frame, es), |Log(frame, es)|, frame(e)) == Log(frame, es + [e])
  {
    LogAppend(frame, es, [e]);
    LogOne(frame, e);
    WriteAtEnd(Log(frame, es), frame(e));
  }

  lemma WriteAtEnd(s: seq<byte>, data: seq<byte>)
    ensures WriteAt(s, |s|, data) == s + data
  {
  }

  /** The recovery loop. */
  method Scan<E>(read: Reader<E>, s: seq<byte>) returns (recovered: seq<E>, offset: nat)
    ensures (recovered, offset) == Parse(read, s)
  {
    recovered, offset := [], 0;
    ghost var all := Parse(read, s);
    ghost var todo := all;
    assert s[0..] == s;
    while true
      invariant offset <= |s|
      invariant todo == Parse(read, s[offset..])
      invariant all.0 == recovered + todo.0 && all.1 == offset + todo.1
      decreases |s| - offset
    {
      var f := read(s[offset..]);
      if f.NoFrame? {
        break;
      } else if f.TornFrame? {
        offset := offset + SIZE_BYTES;
        break;
      } else if f.len == 0 || offset + f.len > |s| {
        break;
      }
      assert s[offset..][f.len..] == s[offset + f.len..];
      todo := Parse(read, s[offset + f.len..]);
      Associate(recovered, Optional(f.entry), todo.0);
      recovered := recovered + Optional(f.entry);
      offset := offset + f.len;
    }
    assert recovered + [] == recovered;
  }

  /** A frame that is read back is parsed first. */
  lemma ParseFirst<E(!new)>(read: Reader<E>, frame: Framer<E>, e: E, t: seq<byte>)
    requires ReadsBack(read, frame, e)
    ensures Parse(read, frame(e) + t) == ([e] + Parse(read, t).0, |frame(e)| + Parse(read, t).1)
  {
    assert (frame(e) + t)[|frame(e)|..] == t;
  }

  /** Whole frames are parsed first, and then whatever follows them. */
  lemma {:induction false} ParseAfterWhole<E(!new)>(read: Reader<E>, frame: Framer<E>, es: seq<E>, tail: seq<byte>)
    requires AllReadBack(read, frame, es)
    ensures Parse(read, Log(frame, es) + tail) == (es + Parse(read, tail).0, |Log(frame, es)| + Parse(read, tail).1)
  {
    if es == [] {
      assert Log(frame, es) + tail == tail;
      assert es + Parse(read, tail).0 == Parse(read, tail).0;
    } else {
      var e, rest := es[0], es[1..];
      var t, found := Log(frame, rest) + tail, Parse(read, tail);
      calc {
        Parse(read, Log(frame, es) + tail);
        { Associate(frame(e), Log(frame, rest), tail); }
        Parse(read, frame(e) + t);
        { ParseFirst(read, frame, e, t); }
        ([e] + Parse(read, t).0, |frame(e)| + Parse(read, t).1);
        { ParseAfterWhole(read, frame, rest, tail); }
        ([e] + (rest + found.0), |frame(e)| + (|Log(frame, rest)| + found.1));
        { Associate([e], rest, found.0); assert es == [e] + rest; }
        (es + found.0, |Log(frame, es)| + found.1);
      }
    }
  }

  /** How many of the frames of `es` lie wholly in the first `k` bytes of their log. */
  function WholeFrames<E>(frame: Framer<E>, es: seq<E>, k: nat): (w: nat)
    ensures w <= |es|
  {
    if es == [] || k < |frame(es[0])| then 0 else 1 + WholeFrames(frame, es[1..], k - |frame(es[0])|)
  }

  /** WholeFrames is the count it claims to be: that many frames end by byte `k`, and the next does not. */
  lemma {:induction false} WholeFramesIsMaximal<E>(frame: Framer<E>, es: seq<E>, k: nat)
    ensures var w := WholeFrames(frame, es, k);
      |Log(frame, es[..w])| <= k && (w < |es| ==> k < |Log(frame, es[..w + 1])|)
  {
    if es != [] && |frame(es[0])| <= k {
      WholeFramesIsMaximal(frame, es[1..], k - |frame(es[0])|);
      var w := WholeFrames(frame, es[1..], k - |frame(es[0])|);
      assert es[..w + 1][1..] == es[1..][..w];
      if w < |es[1..]| {
        assert es[..w + 2][1..] == es[1..][..w + 1];
      }
    } else if es != [] {
      assert es[..1][1..] == [];
    }
  }

  /** A cut log is some whole frames and a proper part of the next one. */
  lemma {:induction false} CutLog<E>(frame: Framer<E>, es: seq<E>, k: nat)
    requires k <= |Log(frame, es)|
    ensures var w := WholeFrames(frame, es, k);
      var end := |Log(frame, es[..w])|;
      && end <= k
      && (w < |es| ==> k - end < |frame(es[w])|)
      && Log(frame, es)[..k] == Log(frame, es[..w]) + if w < |es| then frame(es[w])[..k - end] else []
  {
    if es != [] {
      var rest, n := es[1..], |frame(es[0])|;
      if n <= k {
        CutLog(frame, rest, k - n);
        var w := WholeFrames(frame, rest, k - n);
        assert es[..w + 1][1..] == rest[..w];
        assert Log(frame, es)[..k] == frame(es[0]) + Log(frame, rest)[..k - n];
        var part := if w < |rest| then frame(rest[w])[..k - n - |Log(frame, rest[..w])|] else [];
        Associate(frame(es[0]), Log(frame, rest[..w]), part);
      } else {
        assert Log(frame, es)[..k] == frame(es[0])[..k];
      }
    }
  }

  /** From a log cut at any byte, recovery returns exactly the entries whose frames lie wholly before the
      cut, in order, and stops at the end of the last of them, or four bytes further when at least the
      length prefix of a torn frame is left. */
  lemma ParseCutLog<E(!new)>(read: Reader<E>, frame: Framer<E>, es: seq<E>, k: nat)
    requires AllReadBack(read, frame, es) && k <= |Log(frame, es)|
    ensures var w := WholeFrames(frame, es, k);
      var end := |Log(frame, es[..w])|;
      end <= k && Parse(read, Log(frame, es)[..k]) == (es[..w], end + if k - end < SIZE_BYTES then 0 else SIZE_BYTES)
  {
    CutLog(frame, es, k);
    var w := WholeFrames(frame, es, k);
    var end := |Log(frame, es[..w])|;
    var tail := if w < |es| then frame(es[w])[..k - end] else [];
    if w < |es| {
      assert ReadsBack(read, frame, es[w]);
    }
    ParseAfterWhole(read, frame, es[..w], tail);
    assert es[..w] + [] == es[..w];
  }

  /** Everything that was appended is recovered exactly when no frame is refused. */
  lemma {:induction false} ParseWholeLog<E(!new)>(read: Reader<E>, frame: Framer<E>, es: seq<E>)
    requires read([]) == NoFrame
    requires forall e :: e in es ==> ReadsBack(read, frame, e) || Refuses(read, frame, e)
    ensures Parse(read, Log(frame, es)).0 == es <==> forall e :: e in es ==> ReadsBack(read, frame, e)
  {
    if es != [] {
      var e, rest := es[0], es[1..];
      var s := Log(frame, es);
      assert s == frame(e) + Log(frame, rest);
      ParseWholeLog(read, frame, rest);
      if ReadsBack(read, frame, e) {
        assert s[|frame(e)|..] == Log(frame, rest);
        var found := Parse(read, Log(frame, rest)).0;
        assert ([e] + found)[1..] == found && es == [e] + rest;
      } else {
        assert e in es && read(frame(e) + Log(frame, rest)) == NoFrame;
      }
    }
  }

  /** A write at the end of `kept` over a tail no longer than the data leaves only the data after it. */
  lemma OverwriteTail(kept: seq<byte>, tail: seq<byte>, data: seq<byte>)
    requires |tail| <= |data|
    ensures WriteAt(kept + tail, |kept|, data) == kept + data
  {
  }

  /** A cut that leaves less than a length prefix of a frame costs nothing: the next append overwrites it. */
  lemma AppendAfterShortTear<E(!new)>(read: Reader<E>, frame: Framer<E>, es: seq<E>, k: nat, e: E)
    requires AllReadBack(read, frame, es) && ReadsBack(read, frame, e) && k <= |Log(frame, es)|
    requires k - |Log(frame, es[..WholeFrames(frame, es, k)])| < SIZE_BYTES
    ensures var w, cut := WholeFrames(frame, es, k), Log(frame, es)[..k];
      Parse(read, WriteAt(cut, Parse(read, cut).1, frame(e))).0 == es[..w] + [e]
  {
    var w, cut := WholeFrames(frame, es, k), Log(frame, es)[..k];
    var kept := Log(frame, es[..w]);
    CutLog(frame, es, k);
    ParseCutLog(read, frame, es, k);
    OverwriteTail(kept, if w < |es| then frame(es[w])[..k - |kept|] else [], frame(e));
    LogAppend(frame, es[..w], [e]);
    LogOne(frame, e);
    var all := es[..w] + [e];
    assert AllReadBack(read, frame, all);
    ParseAfterWhole(read, frame, all, []);
    assert Log(frame, all) + [] == Log(frame, all) && all + [] == all;
  }

  /** A shorter write over a tail leaves the end of the tail. */
  lemma OverwritePart(kept: seq<byte>, tail: seq<byte>, data: seq<byte>)
    ensures WriteAt(kept + tail, |kept|, data) == kept + data + if |data| < |tail| then tail[|data|..] else []
  {
  }

  /** What an append leaves after a torn frame: the torn length prefix, the new frame, and what the new frame
      does not cover of the torn one. */
  function AfterTear(torn: seq<byte>, data: seq<byte>): seq<byte>
    requires SIZE_BYTES <= |torn|
  {
    torn[..SIZE_BYTES] + (data + if SIZE_BYTES + |data| < |torn| then torn[SIZE_BYTES + |data|..] else [])
  }

  // ----- logs of any bytes -----

  /** The bytes begin with a whole frame. */
  predicate Begins<E>(read: Reader<E>, s: seq<byte>) {
    read(s).WholeFrame? && 0 < read(s).len <= |s|
  }

  /** The reader looks no further than a whole frame's end, and sees no frame in fewer bytes than a prefix. */
  ghost predicate Local<E(!new)>(read: Reader<E>) {
    && (forall s :: |s| < SIZE_BYTES ==> read(s) == NoFrame)
    && (forall s, t :: Begins(read, s) ==> read(s[..read(s).len] + t) == read(s))
  }

  /** Where the row of whole frames at the start of the bytes ends. */
  function Front<E>(read: Reader<E>, s: seq<byte>): (n: nat)
    ensures n <= |s|
    decreases |s|
  {
    if Begins(read, s) then read(s).len + Front(read, s[read(s).len..]) else 0
  }

  /** What follows the whole frames is a torn one. */
  predicate EndsTorn<E>(read: Reader<E>, s: seq<byte>) {
    read(s[Front(read, s)..]).TornFrame?
  }

  lemma FirstFrameStays<E(!new)>(read: Reader<E>, s: seq<byte>, t: seq<byte>)
    requires Local(read) && Begins(read, s)
    ensures read(s + t) == read(s) && (s + t)[read(s).len..] == s[read(s).len..] + t
  {
    var len := read(s).len;
    assert s + t == s[..len] + (s[len..] + t);
  }

  /** Whole frames are parsed first, and then whatever follows them. */
  lemma {:induction false} ParseAfterFront<E(!new)>(read: Reader<E>, s: seq<byte>, t: seq<byte>)
    requires Local(read) && Front(read, s) == |s|
    ensures Front(read, s + t) == |s| + Front(read, t)
    ensures Parse(read, s + t) == (Parse(read, s).0 + Parse(read, t).0, |s| + Parse(read, t).1)
    decreases |s|
  {
    if s == [] {
      assert s + t == t;
      assert [] + Parse(read, t).0 == Parse(read, t).0;
    } else {
      var rest := s[read(s).len..];
      FirstFrameStays(read, s, t);
      ParseAfterFront(read, rest, t);
      Associate(Optional(read(s).entry), Parse(read, rest).0, Parse(read, t).0);
    }
  }

  lemma FirstFrameOfFront<E(!new)>(read: Reader<E>, s: seq<byte>)
    requires Local(read) && Begins(read, s)
    ensures var n, len, rest := Front(read, s), read(s).len, s[read(s).len..];
      && n == len + Front(read, rest)
      && read(s[..n]) == read(s) && s[..n][len..] == rest[..n - len] && rest[n - len..] == s[n..]
  {
    var n, len := Front(read, s), read(s).len;
    CutAt(s, len, n);
    assert read(s[..len] + s[len..][..n - len]) == read(s);
  }

  lemma CutAt<T>(s: seq<T>, k: nat, n: nat)
    requires k <= n <= |s|
    ensures s[..n] == s[..k] + s[k..][..n - k] && s[..n][k..] == s[k..][..n - k] && s[k..][n - k..] == s[n..]
  {
  }

  /** The row of whole frames is one by itself. */
  lemma {:induction false} FrontIsWhole<E(!new)>(read: Reader<E>, s: seq<byte>)
    requires Local(read)
    ensures Front(read, s[..Front(read, s)]) == Front(read, s)
    decreases |s|
  {
    if Begins(read, s) {
      FirstFrameOfFront(read, s);
      FrontIsWhole(read, s[read(s).len..]);
    }
  }

  /** What follows it is not a whole frame, and ends the recovery. */
  lemma {:induction false} NothingAfterFront<E>(read: Reader<E>, s: seq<byte>)
    ensures Front(read, s[Front(read, s)..]) == 0
    ensures !Begins(read, s[Front(read, s)..])
    decreases |s|
  {
    if Begins(read, s) {
      NothingAfterFront(read, s[read(s).len..]);
      CutAt(s, read(s).len, Front(read, s));
    } else {
      assert s[0..] == s;
    }
  }

  lemma ParseOfNone<E>(read: Reader<E>, t: seq<byte>)
    requires !Begins(read, t)
    ensures Parse(read, t) == ([], if read(t).TornFrame? then SIZE_BYTES else 0)
  {
  }

  /** Recovery returns what the whole frames hold, and stops at their end, or behind the prefix of a torn one. */
  lemma ParseIsFront<E(!new)>(read: Reader<E>, s: seq<byte>)
    requires Local(read)
    ensures var n := Front(read, s);
      && Front(read, s[..n]) == n
      && Parse(read, s) == (Parse(read, s[..n]).0, n + if EndsTorn(read, s) then SIZE_BYTES else 0)
  {
    var n := Front(read, s);
    FrontIsWhole(read, s);
    NothingAfterFront(read, s);
    ParseOfNone(read, s[n..]);
    ParseAfterFront(read, s[..n], s[n..]);
    assert s == s[..n] + s[n..];
    assert Parse(read, s[..n]).0 + [] == Parse(read, s[..n]).0;
  }

  /** The log of entries that are read back is a row of whole frames. */
  lemma LogIsFront<E(!new)>(read: Reader<E>, frame: Framer<E>, es: seq<E>)
    requires Local(read) && AllReadBack(read, frame, es)
    ensures Front(read, Log(frame, es)) == |Log(frame, es)| && Parse(read, Log(frame, es)).0 == es
  {
    ParseAfterWhole(read, frame, es, []);
    assert Log(frame, es) + [] == Log(frame, es) && es + [] == es;
    AllWhole(read, frame, es);
  }

  lemma {:induction false} AllWhole<E(!new)>(read: Reader<E>, frame: Framer<E>, es: seq<E>)
    requires AllReadBack(read, frame, es)
    ensures Front(read, Log(frame, es)) == |Log(frame, es)|
  {
    if es != [] {
      var e, rest := es[0], Log(frame, es[1..]);
      assert ReadsBack(read, frame, e);
      assert Log(frame, es)[|frame(e)|..] == rest;
      AllWhole(read, frame, es[1..]);
    }
  }

  /** Two rows of whole frames, and then no frame or a torn one. */
  lemma ParseTwoFronts<E(!new)>(read: Reader<E>, front: seq<byte>, more: seq<byte>, part: seq<byte>)
    requires Local(read) && Front(read, front) == |front| && Front(read, more) == |more|
    requires |part| < SIZE_BYTES || read(part) == TornFrame
    ensures Parse(read, front + more + part).0 == Parse(read, front).0 + Parse(read, more).0
    ensures Front(read, front + more + part) == |front + more|
    ensures EndsTorn(read, front + more + part) <==> SIZE_BYTES <= |part|
  {
    ParseAfterFront(read, front, more);
    ParseAfterFront(read, front + more, part);
    assert (front + more + part)[|front + more|..] == part;
    assert Front(read, part) == 0;
    var found := Parse(read, front).0 + Parse(read, more).0;
    assert found + [] == found;
  }

  /** What a cut append leaves behind whole frames that fewer bytes than a prefix follow: more whole frames, and a
      part of the next one, or what it did not cover of the old bytes. */
  lemma CutAppend<E(!new)>(read: Reader<E>, frame: Framer<E>, front: seq<byte>, tail: seq<byte>, es: seq<E>, k: nat)
    returns (part: seq<byte>)
    requires AllReadBack(read, frame, es) && |tail| < SIZE_BYTES && k <= |Log(frame, es)|
    ensures var w := WholeFrames(frame, es, k);
      var end := |Log(frame, es[..w])|;
      && end <= k
      && Appended(front + tail, |front|, Log(frame, es)[..k]) == front + Log(frame, es[..w]) + part
      && (k - end < SIZE_BYTES ==> |part| < SIZE_BYTES)
      && (SIZE_BYTES <= k - end ==>
           w < |es| && k - end < |frame(es[w])| && part == frame(es[w])[..k - end] && read(part) == TornFrame)
      && (k == |Log(frame, es)| && es != [] ==> part == [] && w == |es|)
  {
    var w, data := WholeFrames(frame, es, k), Log(frame, es)[..k];
    var kept := Log(frame, es[..w]);
    CutLog(frame, es, k);
    part := if w < |es| then frame(es[w])[..k - |kept|] else [];
    if w < |es| {
      assert ReadsBack(read, frame, es[w]);
    }
    WholeLogIsKept(read, frame, es, k);
    if k < |tail| {
      assert kept == [];
      part := data + tail[k..];
      OverwritePart(front, tail, data);
      Associate(front, data, tail[k..]);
      assert front + [] == front;
    } else {
      OverwriteTail(front, tail, data);
      Associate(front, kept, part);
      assert kept + part == data;
      assert k == 0 ==> front + tail == front;
    }
  }

  lemma WholeLogIsKept<E(!new)>(read: Reader<E>, frame: Framer<E>, es: seq<E>, k: nat)
    requires AllReadBack(read, frame, es) && k <= |Log(frame, es)|
    ensures k == |Log(frame, es)| ==> WholeFrames(frame, es, k) == |es|
    ensures k < SIZE_BYTES ==> WholeFrames(frame, es, k) == 0
  {
    CutLog(frame, es, k);
    var w := WholeFrames(frame, es, k);
    if w < |es| {
      assert es == es[..w] + es[w..] && es[w..][0] == es[w];
      LogAppend(frame, es[..w], es[w..]);
    }
    if 0 < w {
      assert ReadsBack(read, frame, es[0]);
      assert es[..w][0] == es[0];
    }
  }

  /** When at least the length prefix of a torn frame is left, the next append goes right behind that prefix,
      and the next recovery reads on from it. */
  lemma AppendAfterLongTear<E(!new)>(read: Reader<E>, front: seq<byte>, torn: seq<byte>, data: seq<byte>)
    requires Local(read) && Front(read, front) == |front| && SIZE_BYTES <= |torn| && read(torn) == TornFrame
    ensures var cut := front + torn;
      && Front(read, cut) == |front| && EndsTorn(read, cut)
      && Parse(read, cut) == (Parse(read, front).0, |front| + SIZE_BYTES)
      && WriteAt(cut, |front| + SIZE_BYTES, data) == front + AfterTear(torn, data)
      && Parse(read, front + AfterTear(torn, data)).0 == Parse(read, front).0 + Parse(read, AfterTear(torn, data)).0
      && Front(read, front + AfterTear(torn, data)) == |front| + Front(read, AfterTear(torn, data))
  {
    ParseAfterFront(read, front, torn);
    assert (front + torn)[|front|..] == torn;
    assert Front(read, torn) == 0 && torn[0..] == torn;
    assert Parse(read, front).0 + [] == Parse(read, front).0;
    WriteBehindPrefix(front, torn, data);
    ParseAfterFront(read, front, AfterTear(torn, data));
  }

  /** What an append behind the prefix of a torn frame makes of the log. */
  lemma ParseOverTear<E(!new)>(read: Reader<E>, s: seq<byte>, data: seq<byte>)
    requires Local(read) && EndsTorn(read, s) && Front(read, s) + SIZE_BYTES <= |s|
    ensures var n := Front(read, s);
      var torn := s[n..];
      var t := Appended(s, n + SIZE_BYTES, data);
      && t == s[..n] + AfterTear(torn, data)
      && Parse(read, t).0 == Parse(read, s).0 + Parse(read, AfterTear(torn, data)).0
      && Front(read, t) == n + Front(read, AfterTear(torn, data))
  {
    var n := Front(read, s);
    ParseIsFront(read, s);
    assert s == s[..n] + s[n..];
    ParseOverTearAt(read, s[..n], s[n..], data);
  }

  lemma ParseOverTearAt<E(!new)>(read: Reader<E>, front: seq<byte>, torn: seq<byte>, data: seq<byte>)
    requires Local(read) && Front(read, front) == |front| && SIZE_BYTES <= |torn| && read(torn) == TornFrame
    ensures var t := Appended(front + torn, |front| + SIZE_BYTES, data);
      && t == front + AfterTear(torn, data)
      && Parse(read, t).0 == Parse(read, front).0 + Parse(read, AfterTear(torn, data)).0
      && Front(read, t) == |front| + Front(read, AfterTear(torn, data))
  {
    AppendAfterLongTear(read, front, torn, data);
    NothingOverTear(torn);
  }

  lemma NothingOverTear(torn: seq<byte>)
    requires SIZE_BYTES <= |torn|
    ensures AfterTear(torn, []) == torn
  {
  }

  /** An append behind a row of whole frames keeps them. */
  lemma AppendKeepsFront<E(!new)>(read: Reader<E>, s: seq<byte>, offset: nat, data: seq<byte>, m: nat)
    requires Local(read) && m <= offset && m <= |s| && Front(read, s[..m]) == m
    ensures var t := Appended(s, offset, data);
      m <= Front(read, t) && t[..m] == s[..m] && Parse(read, s[..m]).0 <= Parse(read, t).0
  {
    var t := Appended(s, offset, data);
    assert t[..m] == s[..m] && t == t[..m] + t[m..];
    ParseAfterFront(read, s[..m], t[m..]);
  }

  lemma WriteBehindPrefix(front: seq<byte>, torn: seq<byte>, data: seq<byte>)
    requires SIZE_BYTES <= |torn|
    ensures WriteAt(front + torn, |front| + SIZE_BYTES, data) == front + AfterTear(torn, data)
  {
    var prefix, tail := torn[..SIZE_BYTES], torn[SIZE_BYTES..];
    var left := if |data| < |tail| then tail[|data|..] else [];
    assert torn == prefix + tail;
    Associate(front, prefix, tail);
    OverwritePart(front + prefix, tail, data);
    assert AfterTear(torn, data) == prefix + (data + left);
    Associate(front, prefix, data + left);
    Associate(front + prefix, data, left);
  }
}
