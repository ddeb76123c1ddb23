/** The database keys of slices and the order the database keeps them in: src/common.rs. */
module SliceKeys {
  import opened Common

  /** The four big-endian bytes of a `u32`. */
  function Be32(n: nat): (b: seq<byte>)
    requires n < U32_LIMIT
    ensures |b| == 4
  {
    [ByteOf(n / 0x100_0000), ByteOf(n / 0x1_0000), ByteOf(n / 0x100), ByteOf(n)]
  }

  function FromBe32(b: seq<byte>): nat
    requires |b| == 4
  {
    b[0] as nat * 0x100_0000 + b[1] as nat * 0x1_0000 + b[2] as nat * 0x100 + b[3] as nat
  }

  const COLON: byte := 0x3A

  /** The bytes of "zdata:". */
  const SLICE_PREFIX: seq<byte> := [0x7A, 0x64, 0x61, 0x74, 0x61, COLON]

  function SliceKey(n: nat): (k: seq<byte>)
    requires n < U32_LIMIT
    ensures |k| == 10
  {
    SLICE_PREFIX + Be32(n)
  }

  /** What follows the first colon, even when it holds colons itself. */
  function AfterColon(k: seq<byte>): Option<seq<byte>> {
    if k == [] then None else if k[0] == COLON then Some(k[1..]) else AfterColon(k[1..])
  }

  /** The slice number that the reader takes out of a key; None where the source would panic. */
  function KeyIndex(k: seq<byte>): Option<nat> {
    match AfterColon(k)
    case Some(rest) => if |rest| == 4 then Some(FromBe32(rest)) else None
    case None => None
  }

  /** The order of keys in a bucket: byte by byte. */
  predicate Before(a: seq<byte>, b: seq<byte>) {
    b != [] && (a == [] || (a[0] as nat) < (b[0] as nat) || (a[0] == b[0] && Before(a[1..], b[1..])))
  }

  lemma Be32RoundTrip(n: nat)
    requires n < U32_LIMIT
    ensures FromBe32(Be32(n)) == n
  {
    var q1, q2, q3 := n / 0x100, n / 0x1_0000, n / 0x100_0000;
    assert n == q1 * 0x100 + n % 0x100;
    assert q2 == q1 / 0x100 && q1 == q2 * 0x100 + q1 % 0x100;
    assert q3 == q2 / 0x100 && q2 == q3 * 0x100 + q2 % 0x100;
    assert q3 % 0x100 == q3;
  }

  lemma {:induction false} AfterColonSkips(p: seq<byte>, k: seq<byte>)
    requires COLON !in p
    ensures AfterColon(p + k) == AfterColon(k)
  {
    if p == [] {
      assert p + k == k;
    } else {
      assert (p + k)[1..] == p[1..] + k;
      AfterColonSkips(p[1..], k);
    }
  }

  /** A key decodes to the slice number it was made from. */
  lemma KeyRoundTrip(n: nat)
    requires n < U32_LIMIT
    ensures KeyIndex(SliceKey(n)) == Some(n)
  {
    AfterColonSkips(SLICE_PREFIX[..5], [COLON] + Be32(n));
    assert SliceKey(n) == SLICE_PREFIX[..5] + ([COLON] + Be32(n));
    assert ([COLON] + Be32(n))[1..] == Be32(n);
    Be32RoundTrip(n);
  }

  lemma {:induction false} BeforeSamePrefix(p: seq<byte>, a: seq<byte>, b: seq<byte>)
    ensures Before(p + a, p + b) <==> Before(a, b)
  {
    if p == [] {
      assert p + a == a && p + b == b;
    } else {
      assert (p + a)[1..] == p[1..] + a && (p + b)[1..] == p[1..] + b;
      BeforeSamePrefix(p[1..], a, b);
    }
  }

  lemma SameByte(x: byte, y: byte)
    ensures x == y <==> x as nat == y as nat
  {
  }

  /** One leading digit decides unless it is equal. */
  lemma LeadingDigit(x: nat, y: nat, m: nat, r: nat, s: nat)
    requires r < m && s < m
    ensures x * m + r < y * m + s <==> x < y || (x == y && r < s)
  {
    if x < y {
      assert (x + 1) * m <= y * m;
    } else if y < x {
      assert (y + 1) * m <= x * m;
    }
  }

  lemma FourDigits(a: nat, b: nat, c: nat, d: nat, p: nat, q: nat, r: nat, s: nat)
    requires b < 0x100 && c < 0x100 && d < 0x100 && q < 0x100 && r < 0x100 && s < 0x100
    ensures a * 0x100_0000 + b * 0x1_0000 + c * 0x100 + d < p * 0x100_0000 + q * 0x1_0000 + r * 0x100 + s
       <==> a < p || (a == p && (b < q || (b == q && (c < r || (c == r && d < s)))))
  {
    LeadingDigit(c, r, 0x100, d, s);
    LeadingDigit(b, q, 0x1_0000, c * 0x100 + d, r * 0x100 + s);
    LeadingDigit(a, p, 0x100_0000, b * 0x1_0000 + c * 0x100 + d, q * 0x1_0000 + r * 0x100 + s);
  }

  lemma BeforeIsNumeric(a: seq<byte>, b: seq<byte>)
    requires |a| == 4 && |b| == 4
    ensures Before(a, b) <==> FromBe32(a) < FromBe32(b)
  {
    Unfold(a, b, 3);
    Unfold(a, b, 2);
    Unfold(a, b, 1);
    Unfold(a, b, 0);
    assert a[4..] == [] && b[4..] == [] && a[0..] == a && b[0..] == b;
    FourDigits(a[0] as nat, a[1] as nat, a[2] as nat, a[3] as nat, b[0] as nat, b[1] as nat, b[2] as nat, b[3] as nat);
  }

  lemma Unfold(a: seq<byte>, b: seq<byte>, i: nat)
    requires i < |a| && i < |b|
    ensures Before(a[i..], b[i..])
       <==> (a[i] as nat) < (b[i] as nat) || (a[i] as nat == b[i] as nat && Before(a[i + 1..], b[i + 1..]))
  {
    SameByte(a[i], b[i]);
    assert a[i..][1..] == a[i + 1..] && b[i..][1..] == b[i + 1..];
  }

  /** Keys sort as the slice numbers do. */
  lemma KeyOrder(m: nat, n: nat)
    requires m < U32_LIMIT && n < U32_LIMIT
    ensures Before(SliceKey(m), SliceKey(n)) <==> m < n
  {
    BeforeSamePrefix(SLICE_PREFIX, Be32(m), Be32(n));
    BeforeIsNumeric(Be32(m), Be32(n));
    Be32RoundTrip(m);
    Be32RoundTrip(n);
  }

  /** A key is the characters "zdata:" and then the number, highest byte first. */
  lemma KeyBytes(n: nat)
    requires n < U32_LIMIT
    ensures var k := SliceKey(n);
      && |k| == 10 && k[..6] == [0x7A, 0x64, 0x61, 0x74, 0x61, 0x3A]
      && ((k[6] as nat * 256 + k[7] as nat) * 256 + k[8] as nat) * 256 + k[9] as nat == n
  {
    Be32RoundTrip(n);
  }
}
