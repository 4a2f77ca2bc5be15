/**
 Bytes, big-endian integers and the two's-complement conversions that the storage
 engine and the Raft frame rely on.
 */
module Bytes {

  type byte = b: int | 0 <= b < 256
  type bytes = seq<byte>

  datatype Option<+T> = None | Some(value: T)

  /** A Go (value, error) pair; error texts are not modelled. */
  datatype Result<+T> = Ok(value: T) | Err

  const TWO16: int := 0x1_0000
  const TWO32: int := 0x1_0000_0000
  const TWO63: int := 0x8000_0000_0000_0000
  const TWO64: int := 0x1_0000_0000_0000_0000

  function Pow256(n: nat): (r: nat)
    ensures r > 0
  {
    if n == 0 then 1 else 256 * Pow256(n - 1)
  }

  /** Byte k of n, counting from the least significant. */
  function Digit(n: nat, k: nat): byte {
    if k == 0 then n % 256 else Digit(n / 256, k - 1)
  }

  /** The `width` low bytes of `n`, most significant first: Go's PutUintN after a narrowing conversion. */
  function BigEndian(n: nat, width: nat): (s: bytes)
    ensures |s| == width
  {
    seq(width, i requires 0 <= i < width => Digit(n, width - 1 - i))
  }

  /** The number written in big-endian order. */
  function FromBigEndian(s: bytes): nat {
    if s == [] then 0 else 256 * FromBigEndian(s[..|s| - 1]) + s[|s| - 1]
  }

  lemma {:induction false} FromBigEndianBound(s: bytes)
    ensures FromBigEndian(s) < Pow256(|s|)
  {
    if s != [] {
      FromBigEndianBound(s[..|s| - 1]);
    }
  }

  /** Reading back a number gives the number exactly when it fits its field. */
  lemma {:induction false} BigEndianRoundTrip(n: nat, width: nat)
    ensures FromBigEndian(BigEndian(n, width)) == n <==> n < Pow256(width)
  {
    FromBigEndianBound(BigEndian(n, width));
    if width > 0 {
      BigEndianRoundTrip(n / 256, width - 1);
      BigEndianUnfold(n, width);
    }
  }

  lemma {:induction false} BigEndianUnfold(n: nat, width: nat)
    requires width > 0
    ensures BigEndian(n, width) == BigEndian(n / 256, width - 1) + [n % 256]
    ensures FromBigEndian(BigEndian(n, width)) == 256 * FromBigEndian(BigEndian(n / 256, width - 1)) + n % 256
  {
    var init := BigEndian(n / 256, width - 1);
    forall i | 0 <= i < width - 1
      ensures BigEndian(n, width)[i] == init[i]
    {
      assert Digit(n, width - 1 - i) == Digit(n / 256, width - 2 - i);
    }
    assert BigEndian(n, width)[width - 1] == Digit(n, 0);
    assert BigEndian(n, width) == init + [n % 256];
    assert (init + [n % 256])[..width - 1] == init;
  }

  /** Every byte string is the big-endian form of the number it stands for. */
  lemma {:induction false} BigEndianInverse(s: bytes)
    ensures BigEndian(FromBigEndian(s), |s|) == s
  {
    if s != [] {
      var n := |s| - 1;
      BigEndianInverse(s[..n]);
      BigEndianUnfold(FromBigEndian(s), |s|);
      assert s == s[..n] + [s[n]];
    }
  }

  lemma {:induction false} Powers()
    ensures Pow256(2) == TWO16 && Pow256(4) == TWO32 && Pow256(8) == TWO64
  {
    assert Pow256(2) == 256 * Pow256(1) == 65536;
    assert Pow256(4) == 256 * Pow256(3) == 65536 * Pow256(2);
    assert Pow256(6) == 256 * Pow256(5) == 65536 * Pow256(4);
    assert Pow256(8) == 256 * Pow256(7) == 65536 * Pow256(6);
  }

  function U16(n: nat): (s: bytes) ensures |s| == 2 { BigEndian(n, 2) }
  function U32(n: nat): (s: bytes) ensures |s| == 4 { BigEndian(n, 4) }
  function U64(n: nat): (s: bytes) ensures |s| == 8 { BigEndian(n, 8) }

  /** A field of 2, 4 or 8 bytes gives back a number exactly when the number fits. */
  lemma {:induction false} FieldRoundTrip(n: nat)
    ensures FromBigEndian(U16(n)) == n <==> n < TWO16
    ensures FromBigEndian(U32(n)) == n <==> n < TWO32
    ensures FromBigEndian(U64(n)) == n <==> n < TWO64
  {
    Powers();
    BigEndianRoundTrip(n, 2);
    BigEndianRoundTrip(n, 4);
    BigEndianRoundTrip(n, 8);
  }

  /** A two-byte field keeps a number modulo 2^16. */
  lemma {:induction false} U16Wraps(n: nat)
    ensures FromBigEndian(U16(n)) == n % 0x1_0000
  {
    BigEndianUnfold(n, 2);
    BigEndianUnfold(n / 256, 1);
    assert FromBigEndian(BigEndian(n / 256 / 256, 0)) == 0;
    hide BigEndian, FromBigEndian;
    TwoDigits(n);
  }

  lemma {:induction false} TwoDigits(n: nat)
    ensures 256 * (n / 256 % 256) + n % 256 == n % 0x1_0000
  {
  }

  /** A small number in four bytes has a zero byte before the last. */
  lemma {:induction false} SmallHasZero(s: bytes)
    requires |s| == 4 && FromBigEndian(s) < 256
    ensures s[2] == 0
  {
    assert s[..3][..2] == s[..2];
  }

  lemma {:induction false} FieldBound(s: bytes)
    ensures |s| == 2 ==> FromBigEndian(s) < TWO16
    ensures |s| == 4 ==> FromBigEndian(s) < TWO32
    ensures |s| == 8 ==> FromBigEndian(s) < TWO64
  {
    Powers();
    FromBigEndianBound(s);
  }

  type int64 = x: int | -TWO63 <= x < TWO63

  /** Go's uint64(x) of an int64. */
  function ToUint64(x: int): (n: nat)
    ensures n < TWO64
    ensures -TWO63 <= x < TWO63 ==> ToInt64(n) == x
  {
    x % 0x1_0000_0000_0000_0000
  }

  /** Go's int64(n) of a uint64. */
  function ToInt64(n: nat): int64 {
    if n % 0x1_0000_0000_0000_0000 < TWO63 then n % 0x1_0000_0000_0000_0000 else n % 0x1_0000_0000_0000_0000 - TWO64
  }

  /** The concatenation of parts. */
  function Join(parts: seq<bytes>): bytes {
    if parts == [] then [] else Join(parts[..|parts| - 1]) + parts[|parts| - 1]
  }

  lemma {:induction false} JoinEmpty()
    ensures Join([]) == []
  {
  }

  lemma {:induction false} JoinSnoc(parts: seq<bytes>, p: bytes)
    ensures Join(parts + [p]) == Join(parts) + p
  {
    assert (parts + [p])[..|parts|] == parts;
  }

  /** Part i occupies exactly the bytes between the ends of the parts before it and after it. */
  lemma {:induction false} JoinAt(parts: seq<bytes>, i: nat)
    requires i < |parts|
    ensures |Join(parts[..i])| + |parts[i]| == |Join(parts[..i + 1])| <= |Join(parts)|
    ensures Join(parts)[|Join(parts[..i])|..|Join(parts[..i + 1])|] == parts[i]
    decreases |parts|
  {
    var init := parts[..|parts| - 1];
    assert parts[..i + 1][..i] == parts[..i];
    if i == |init| {
      assert parts[..i + 1] == parts;
    } else {
      JoinAt(init, i);
      assert init[..i] == parts[..i] && init[..i + 1] == parts[..i + 1];
    }
  }

  lemma {:induction false} JoinGrows(parts: seq<bytes>, width: nat, i: nat, j: nat)
    requires i < j <= |parts| && forall k :: 0 <= k < |parts| ==> |parts[k]| >= width
    ensures |Join(parts[..i])| + width <= |Join(parts[..j])|
    decreases j
  {
    JoinAt(parts, j - 1);
    if i < j - 1 {
      JoinGrows(parts, width, i, j - 1);
    }
  }

  lemma {:induction false} JoinLength(parts: seq<bytes>, width: nat)
    requires forall i :: 0 <= i < |parts| ==> |parts[i]| == width
    ensures |Join(parts)| == width * |parts|
  {
    if parts != [] {
      var n := |parts| - 1;
      JoinLength(parts[..n], width);
      assert width * (n + 1) == width * n + width;
    }
  }

  lemma {:induction false} JoinFixedAt(parts: seq<bytes>, width: nat, i: nat)
    requires i < |parts| && forall k :: 0 <= k < |parts| ==> |parts[k]| == width
    ensures |Join(parts)| == |parts| * width >= i * width + width
    ensures Join(parts)[i * width..i * width + width] == parts[i]
  {
    JoinAt(parts, i);
    JoinLength(parts, width);
    JoinLength(parts[..i], width);
  }

  lemma {:induction false} SliceSplit(s: bytes, p: nat, q: nat, k: nat)
    requires p + k <= q <= |s|
    ensures s[p..q][..k] == s[p..p + k] && s[p..q][k..] == s[p + k..q]
  {
  }

  lemma {:induction false} JoinConcat(a: seq<bytes>, b: seq<bytes>)
    ensures Join(a + b) == Join(a) + Join(b)
  {
    if b == [] {
      assert a + b == a;
    } else {
      var k := |b| - 1;
      assert (a + b)[..|a| + k] == a + b[..k];
      JoinConcat(a, b[..k]);
    }
  }

  /** Fills buf[at..at+|data|] with data and keeps what precedes it: Go's copy and PutUintN at a cursor. */
  method CopyInto(buf: array<byte>, at: nat, data: bytes)
    requires at + |data| <= buf.Length
    modifies buf
    ensures buf[..at + |data|] == old(buf[..at]) + data
  {
    for i := 0 to |data|
      invariant buf[..at] == old(buf[..at])
      invariant forall k :: 0 <= k < i ==> buf[at + k] == data[k]
    {
      buf[at + i] := data[i];
    }
  }
}
