/** What recovery returns from a log that was cut anywhere, and what appends after it are worth. */
module WalRecovery {
  import opened Common
  import opened FrameLog
  import opened Wal

  ghost predicate AllFaithful(c: Codec, es: seq<WalEntry>) {
    forall e :: e in es ==> Faithful(c, e)
  }

  ghost predicate AllFit(c: Codec, es: seq<WalEntry>) {
    forall e :: e in es ==> FrameFits(c, e)
  }

  /** What is read behind a length prefix. */
  lemma BehindPrefix(c: Codec, prefix: seq<byte>, rest: seq<byte>)
    requires |prefix| == SIZE_BYTES
    ensures var n := FromLe32(prefix);
      FrameAt(c, prefix + rest) ==
        if n == 0 || MAX_FRAME < n then NoFrame
        else if |rest| < n then TornFrame
        else WholeFrame(c.decode(rest[..n]), SIZE_BYTES + n)
  {
    var s, n := prefix + rest, FromLe32(prefix);
    assert s[..SIZE_BYTES] == prefix;
    if n <= |rest| {
      assert s[SIZE_BYTES..SIZE_BYTES + n] == rest[..n];
    }
  }

  /** Recovery of src/wal.rs looks no further than the frame that it reads. */
  lemma ReaderIsLocal(c: Codec)
    ensures Local(ReaderOf(c))
  {
    forall s, t | Begins(ReaderOf(c), s) ensures FrameAt(c, s[..FrameAt(c, s).len] + t) == FrameAt(c, s) {
      var prefix, n := s[..SIZE_BYTES], FromLe32(s[..SIZE_BYTES]);
      var payload := s[SIZE_BYTES..SIZE_BYTES + n];
      assert s[..SIZE_BYTES + n] == prefix + payload;
      Associate(prefix, payload, t);
      BehindPrefix(c, prefix, payload + t);
      assert (payload + t)[..n] == payload;
    }
  }

  lemma PrefixOf(c: Codec, e: WalEntry)
    requires Faithful(c, e)
    ensures Frame(c, e) == Le32(|c.encode(e)|) + c.encode(e) && Frame(c, e)[..SIZE_BYTES] == Le32(|c.encode(e)|)
  {
  }

  lemma FrameAtStart(c: Codec, e: WalEntry, rest: seq<byte>)
    requires Faithful(c, e)
    ensures FrameAt(c, Frame(c, e) + rest) == if FrameFits(c, e) then WholeFrame(Some(e), |Frame(c, e)|) else NoFrame
  {
    var n := |c.encode(e)|;
    PrefixOf(c, e);
    Le32RoundTrip(n);
    Associate(Le32(n), c.encode(e), rest);
    BehindPrefix(c, Le32(n), c.encode(e) + rest);
    assert (c.encode(e) + rest)[..n] == c.encode(e);
  }

  /** A length prefix followed by fewer bytes than it announces. */
  lemma ShortFrame(c: Codec, e: WalEntry, rest: seq<byte>)
    requires Faithful(c, e) && FrameFits(c, e) && |rest| < |c.encode(e)|
    ensures FrameAt(c, Frame(c, e)[..SIZE_BYTES] + rest) == TornFrame
  {
    PrefixOf(c, e);
    Le32RoundTrip(|c.encode(e)|);
    BehindPrefix(c, Le32(|c.encode(e)|), rest);
  }

  lemma CutFrame(c: Codec, e: WalEntry, k: nat)
    requires Faithful(c, e) && FrameFits(c, e) && k < |Frame(c, e)|
    ensures FrameAt(c, Frame(c, e)[..k]) == if k < SIZE_BYTES then NoFrame else TornFrame
  {
    if SIZE_BYTES <= k {
      assert Frame(c, e)[..k] == Frame(c, e)[..SIZE_BYTES] + Frame(c, e)[SIZE_BYTES..k];
      ShortFrame(c, e, Frame(c, e)[SIZE_BYTES..k]);
    }
  }

  /** The frames of src/wal.rs are read back when they are within the limit and refused when they are not. */
  lemma FramesWork(c: Codec, e: WalEntry)
    requires Faithful(c, e)
    ensures FrameFits(c, e) ==> ReadsBack(ReaderOf(c), FramerOf(c), e)
    ensures !FrameFits(c, e) ==> Refuses(ReaderOf(c), FramerOf(c), e) && !ReadsBack(ReaderOf(c), FramerOf(c), e)
  {
    var read, frame := ReaderOf(c), FramerOf(c);
    forall rest
      ensures read(frame(e) + rest) == if FrameFits(c, e) then WholeFrame(Some(e), |frame(e)|) else NoFrame
    {
      FrameAtStart(c, e, rest);
    }
    if FrameFits(c, e) {
      forall k | 0 <= k < |frame(e)| ensures read(frame(e)[..k]) == if k < SIZE_BYTES then NoFrame else TornFrame {
        CutFrame(c, e, k);
      }
    } else {
      assert read(frame(e) + []) == NoFrame;
    }
  }

  /** The limit is 1 MiB (1048576 bytes). */
  lemma ReadsBackIffWithinLimit(c: Codec, e: WalEntry)
    requires Faithful(c, e)
    ensures ReadsBack(ReaderOf(c), FramerOf(c), e) <==> |c.encode(e)| <= 1048576
  {
    FramesWork(c, e);
  }

  lemma AllFramesWork(c: Codec, es: seq<WalEntry>)
    requires AllFaithful(c, es)
    ensures AllReadBack(ReaderOf(c), FramerOf(c), es) <==> AllFit(c, es)
    ensures forall e :: e in es ==> ReadsBack(ReaderOf(c), FramerOf(c), e) || Refuses(ReaderOf(c), FramerOf(c), e)
    ensures ReaderOf(c)([]) == NoFrame
  {
    forall e | e in es
      ensures ReadsBack(ReaderOf(c), FramerOf(c), e) <==> FrameFits(c, e)
      ensures ReadsBack(ReaderOf(c), FramerOf(c), e) || Refuses(ReaderOf(c), FramerOf(c), e)
    {
      FramesWork(c, e);
    }
  }

  /** From a log cut at any byte, `recover` returns exactly the entries whose frames lie wholly before the
      cut, in order, and leaves the next offset at their end, or four bytes further when at least the
      length prefix of a torn frame is left. */
  lemma RecoverFromCut(c: Codec, es: seq<WalEntry>, k: nat)
    requires AllFaithful(c, es) && AllFit(c, es) && k <= |Log(FramerOf(c), es)|
    ensures var w := WholeFrames(FramerOf(c), es, k);
      var end := |Log(FramerOf(c), es[..w])|;
      && end <= k
      && Parse(ReaderOf(c), Log(FramerOf(c), es)[..k])
        == (es[..w], end + if k - end < SIZE_BYTES then 0 else SIZE_BYTES)
  {
    AllFramesWork(c, es);
    ParseCutLog(ReaderOf(c), FramerOf(c), es, k);
  }

  /** From an uncut log `recover` returns everything that was appended if and only if every entry's frame is
      within the limit. */
  lemma RecoverAllIffFit(c: Codec, es: seq<WalEntry>)
    requires AllFaithful(c, es)
    ensures Parse(ReaderOf(c), Log(FramerOf(c), es)).0 == es <==> AllFit(c, es)
  {
    AllFramesWork(c, es);
    ParseWholeLog(ReaderOf(c), FramerOf(c), es);
  }

  /** Appends after the recovery of an uncut log extend it: the next recovery returns old plus new. */
  lemma AppendExtendsUncutLog(c: Codec, es: seq<WalEntry>, e: WalEntry)
    requires AllFaithful(c, es) && AllFit(c, es) && Faithful(c, e) && FrameFits(c, e)
    ensures var found := Parse(ReaderOf(c), Log(FramerOf(c), es));
      && found.0 == es
      && Parse(ReaderOf(c), WriteAt(Log(FramerOf(c), es), found.1, FramerOf(c)(e))).0 == es + [e]
  {
    AllFramesWork(c, es);
    AllFramesWork(c, es + [e]);
    ParseAfterWhole(ReaderOf(c), FramerOf(c), es, []);
    ParseWholeLog(ReaderOf(c), FramerOf(c), es);
    ParseWholeLog(ReaderOf(c), FramerOf(c), es + [e]);
    AppendFrame(FramerOf(c), es, e);
    assert Log(FramerOf(c), es) + [] == Log(FramerOf(c), es);
  }

  /** A tear of fewer than four bytes costs nothing: the next append overwrites it. */
  lemma ShortTearCostsNothing(c: Codec, es: seq<WalEntry>, k: nat, e: WalEntry)
    requires AllFaithful(c, es) && AllFit(c, es) && Faithful(c, e) && FrameFits(c, e)
    requires k <= |Log(FramerOf(c), es)|
    requires k - |Log(FramerOf(c), es[..WholeFrames(FramerOf(c), es, k)])| < SIZE_BYTES
    ensures var w, cut := WholeFrames(FramerOf(c), es, k), Log(FramerOf(c), es)[..k];
      Parse(ReaderOf(c), WriteAt(cut, Parse(ReaderOf(c), cut).1, FramerOf(c)(e))).0 == es[..w] + [e]
  {
    AllFramesWork(c, es);
    FramesWork(c, e);
    AppendAfterShortTear(ReaderOf(c), FramerOf(c), es, k, e);
  }

  /** What recovery finds behind the prefix of a torn frame that announces `n` bytes once `data` is appended there:
      nothing, if that is less; or else the announced bytes as one entry, and what follows them. */
  function FoundBehind(c: Codec, n: nat, data: seq<byte>): seq<WalEntry> {
    if |data| < n then [] else Optional(c.decode(data[..n])) + Parse(ReaderOf(c), data[n..]).0
  }

  /** What a torn frame announces. */
  function Announced(torn: seq<byte>): nat
    requires SIZE_BYTES <= |torn|
  {
    FromLe32(torn[..SIZE_BYTES])
  }

  lemma ReadThroughPrefix(c: Codec, torn: seq<byte>, data: seq<byte>)
    requires FrameAt(c, torn) == TornFrame
    ensures Parse(ReaderOf(c), AfterTear(torn, data)).0 == FoundBehind(c, Announced(torn), data)
  {
    var prefix, tail, n := torn[..SIZE_BYTES], torn[SIZE_BYTES..], Announced(torn);
    var rest := data + if SIZE_BYTES + |data| < |torn| then torn[SIZE_BYTES + |data|..] else [];
    assert torn == prefix + tail && |tail| < n;
    BehindPrefix(c, prefix, tail);
    BehindPrefix(c, prefix, rest);
    if n <= |data| {
      assert rest == data;
      assert AfterTear(torn, data)[SIZE_BYTES + n..] == data[n..];
    }
  }

  /** A tear of four bytes or more leaves the next offset behind the torn length prefix, and the next recovery
      reads the append through that prefix. */
  lemma AppendBehindLongTear(c: Codec, es: seq<WalEntry>, torn: WalEntry, k: nat, e: WalEntry)
    requires AllFaithful(c, es) && AllFit(c, es) && Faithful(c, torn) && FrameFits(c, torn)
    requires SIZE_BYTES <= k < |FramerOf(c)(torn)|
    ensures var cut := Log(FramerOf(c), es) + FramerOf(c)(torn)[..k];
      && Parse(ReaderOf(c), cut).0 == es
      && Parse(ReaderOf(c), WriteAt(cut, Parse(ReaderOf(c), cut).1, FramerOf(c)(e))).0
         == es + FoundBehind(c, |c.encode(torn)|, FramerOf(c)(e))
  {
    var tail, data := FramerOf(c)(torn)[..k], FramerOf(c)(e);
    AllFramesWork(c, es);
    ReaderIsLocal(c);
    LogIsFront(ReaderOf(c), FramerOf(c), es);
    CutFrame(c, torn, k);
    AnnouncedByCut(c, torn, k);
    AppendAfterLongTear(ReaderOf(c), Log(FramerOf(c), es), tail, data);
    ReadThroughPrefix(c, tail, data);
  }

  lemma AnnouncedByCut(c: Codec, torn: WalEntry, k: nat)
    requires Faithful(c, torn) && SIZE_BYTES <= k <= |Frame(c, torn)|
    ensures Announced(Frame(c, torn)[..k]) == |c.encode(torn)|
  {
    PrefixOf(c, torn);
    Le32RoundTrip(|c.encode(torn)|);
    assert Frame(c, torn)[..k][..SIZE_BYTES] == Frame(c, torn)[..SIZE_BYTES];
  }

  /** An append that is shorter than what a torn prefix announces is lost to the next recovery. */
  lemma LongTearHidesAppend(c: Codec, es: seq<WalEntry>, torn: WalEntry, k: nat, e: WalEntry)
    requires AllFaithful(c, es) && AllFit(c, es) && Faithful(c, torn) && FrameFits(c, torn)
    requires SIZE_BYTES <= k < |FramerOf(c)(torn)| && |FramerOf(c)(e)| < |c.encode(torn)|
    ensures var cut := Log(FramerOf(c), es) + FramerOf(c)(torn)[..k];
      Parse(ReaderOf(c), WriteAt(cut, Parse(ReaderOf(c), cut).1, FramerOf(c)(e))).0 == es
  {
    AppendBehindLongTear(c, es, torn, k, e);
  }

  /** What the cut leaves of the frame that it tears. */
  function TornBytes(c: Codec, es: seq<WalEntry>, k: nat): int {
    k - |Log(FramerOf(c), es[..WholeFrames(FramerOf(c), es, k)])|
  }

  /** After a log is cut at any byte, recovered and appended to, the next recovery returns the whole frames and
      the append exactly when the tear leaves no length prefix, or when the bytes that the prefix announces are
      all appended, and read through it they give the append and nothing else. */
  lemma AppendSurvivesCutIff(c: Codec, es: seq<WalEntry>, k: nat, e: WalEntry)
    requires AllFaithful(c, es) && AllFit(c, es) && Faithful(c, e) && FrameFits(c, e)
    requires k <= |Log(FramerOf(c), es)|
    ensures var w, cut := WholeFrames(FramerOf(c), es, k), Log(FramerOf(c), es)[..k];
      Parse(ReaderOf(c), WriteAt(cut, Parse(ReaderOf(c), cut).1, FramerOf(c)(e))).0 == es[..w] + [e]
      <==> TornBytes(c, es, k) < SIZE_BYTES || (w < |es| && FoundBehind(c, |c.encode(es[w])|, FramerOf(c)(e)) == [e])
  {
    var w := WholeFrames(FramerOf(c), es, k);
    CutLog(FramerOf(c), es, k);
    if TornBytes(c, es, k) < SIZE_BYTES {
      ShortTearCostsNothing(c, es, k, e);
    } else {
      LongTearInLog(c, es, k, e);
      SameHead(es[..w], FoundBehind(c, |c.encode(es[w])|, FramerOf(c)(e)), [e]);
    }
  }

  lemma LongTearInLog(c: Codec, es: seq<WalEntry>, k: nat, e: WalEntry)
    requires AllFaithful(c, es) && AllFit(c, es) && k <= |Log(FramerOf(c), es)| && SIZE_BYTES <= TornBytes(c, es, k)
    ensures var w, cut := WholeFrames(FramerOf(c), es, k), Log(FramerOf(c), es)[..k];
      && w < |es|
      && Parse(ReaderOf(c), WriteAt(cut, Parse(ReaderOf(c), cut).1, FramerOf(c)(e))).0
         == es[..w] + FoundBehind(c, |c.encode(es[w])|, FramerOf(c)(e))
  {
    var w := WholeFrames(FramerOf(c), es, k);
    CutLog(FramerOf(c), es, k);
    assert AllFaithful(c, es[..w]) && AllFit(c, es[..w]);
    assert es[w] in es;
    AppendBehindLongTear(c, es[..w], es[w], TornBytes(c, es, k), e);
  }

  // ----- what codecs make of that -----

  /** The codec decodes only what it encodes. */
  ghost predicate Exact(c: Codec) {
    forall b, e :: c.decode(b) == Some(e) ==> b == c.encode(e)
  }

  /** Under such a codec an entry is found only where its whole frame has room. */
  lemma {:induction false} FoundNeedsRoom(c: Codec, s: seq<byte>, e: WalEntry)
    requires Exact(c) && e in Parse(ReaderOf(c), s).0
    ensures SIZE_BYTES + |c.encode(e)| <= |s|
    decreases |s|
  {
    var f := FrameAt(c, s);
    var rest := s[f.len..];
    if e in Parse(ReaderOf(c), rest).0 {
      FoundNeedsRoom(c, rest, e);
    } else {
      assert f.entry == Some(e);
    }
  }

  lemma ExactFoundBehindIff(c: Codec, n: nat, e: WalEntry)
    requires Exact(c) && Faithful(c, e) && 0 < n
    ensures FoundBehind(c, n, Frame(c, e)) == [e] <==> n == |c.encode(e)| && c.encode(e) <= Frame(c, e)
  {
    var data := Frame(c, e);
    if n <= |data| {
      var rest := data[n..];
      if e in Parse(ReaderOf(c), rest).0 {
        FoundNeedsRoom(c, rest, e);
      }
      if n == |c.encode(e)| && c.encode(e) <= data {
        assert data[..n] == c.encode(e);
        assert Parse(ReaderOf(c), rest).0 == [];
      } else {
        assert c.decode(data[..n]) != Some(e);
        assert e in [e];
      }
    }
  }

  /** So, for a codec that decodes only what it encodes, an append after a tear of four bytes or more survives if
      and only if it is as long as the torn entry and its frame begins with its own encoding. */
  lemma ExactAppendSurvivesCutIff(c: Codec, es: seq<WalEntry>, k: nat, e: WalEntry)
    requires Exact(c) && AllFaithful(c, es) && AllFit(c, es) && Faithful(c, e) && FrameFits(c, e)
    requires k <= |Log(FramerOf(c), es)|
    ensures var w, cut := WholeFrames(FramerOf(c), es, k), Log(FramerOf(c), es)[..k];
      Parse(ReaderOf(c), WriteAt(cut, Parse(ReaderOf(c), cut).1, FramerOf(c)(e))).0 == es[..w] + [e]
      <==> TornBytes(c, es, k) < SIZE_BYTES
           || (w < |es| && |c.encode(es[w])| == |c.encode(e)| && c.encode(e) <= FramerOf(c)(e))
  {
    AppendSurvivesCutIff(c, es, k, e);
    var w := WholeFrames(FramerOf(c), es, k);
    if w < |es| {
      assert es[w] in es;
      ExactFoundBehindIff(c, |c.encode(es[w])|, e);
    }
  }

  /** The codec writes text: no encoding holds a zero byte, and nothing is decoded that holds one or is shorter
      than a length prefix. */
  ghost predicate Textual(c: Codec) {
    && (forall e :: 0 !in c.encode(e))
    && (forall b :: |b| < SIZE_BYTES || 0 in b ==> c.decode(b) == None)
  }

  /** Then nothing of a frame is found behind a torn prefix: its own prefix ends with a zero byte, and what ends
      with a byte of text announces more than the limit. */
  lemma TextIsNotFoundBehind(c: Codec, n: nat, e: WalEntry)
    requires Textual(c) && Faithful(c, e) && FrameFits(c, e) && 0 < n
    ensures FoundBehind(c, n, Frame(c, e)) == []
  {
    var data := Frame(c, e);
    if n <= |data| {
      PrefixEndsWithZero(|c.encode(e)|);
      if SIZE_BYTES <= n {
        assert data[..n][SIZE_BYTES - 1] == 0;
      }
      var rest := data[n..];
      if SIZE_BYTES <= |rest| {
        assert rest[SIZE_BYTES - 1] == c.encode(e)[n - 1];
        TextIsNoFrame(c, rest);
      }
    }
  }

  lemma PrefixEndsWithZero(n: nat)
    requires n <= MAX_FRAME
    ensures Le32(n)[SIZE_BYTES - 1] == 0
  {
  }

  lemma TextIsNoFrame(c: Codec, s: seq<byte>)
    requires SIZE_BYTES <= |s| && s[SIZE_BYTES - 1] != 0
    ensures FrameAt(c, s) == NoFrame
  {
    assert s[..SIZE_BYTES][SIZE_BYTES - 1] == s[SIZE_BYTES - 1];
  }

  lemma TextIsNotItself(c: Codec, n: nat, e: WalEntry)
    requires Textual(c) && Faithful(c, e) && FrameFits(c, e) && 0 < n
    ensures FoundBehind(c, n, FramerOf(c)(e)) != [e]
  {
    TextIsNotFoundBehind(c, n, e);
  }

  /** So, for a text codec, an append after a cut survives if and only if the tear is under four bytes. */
  lemma TextAppendSurvivesCutIff(c: Codec, es: seq<WalEntry>, k: nat, e: WalEntry)
    requires Textual(c) && AllFaithful(c, es) && AllFit(c, es) && Faithful(c, e) && FrameFits(c, e)
    requires k <= |Log(FramerOf(c), es)|
    ensures var w, cut := WholeFrames(FramerOf(c), es, k), Log(FramerOf(c), es)[..k];
      Parse(ReaderOf(c), WriteAt(cut, Parse(ReaderOf(c), cut).1, FramerOf(c)(e))).0 == es[..w] + [e]
      <==> TornBytes(c, es, k) < SIZE_BYTES
  {
    AppendSurvivesCutIff(c, es, k, e);
    var w := WholeFrames(FramerOf(c), es, k);
    if w < |es| {
      assert Faithful(c, es[w]);
      TextIsNotItself(c, |c.encode(es[w])|, e);
    }
  }

  lemma SameHead<T>(a: seq<T>, b: seq<T>, d: seq<T>)
    ensures a + b == a + d <==> b == d
  {
    if a + b == a + d {
      assert b == (a + b)[|a|..] == (a + d)[|a|..] == d;
    }
  }
}
