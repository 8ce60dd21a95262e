/** Fixed-width words as bounded integers, and their little-endian bytes. */
module Words {

  const TWO8: int := 0x100
  const TWO16: int := 0x1_0000
  const TWO32: int := 0x1_0000_0000
  const TWO63: int := 0x8000_0000_0000_0000
  const TWO64: int := 0x1_0000_0000_0000_0000

  type byte = x: int | 0 <= x < TWO8
  type u16 = x: int | 0 <= x < TWO16
  type u32 = x: int | 0 <= x < TWO32
  type u64 = x: int | 0 <= x < TWO64
  type bytes = seq<byte>

  datatype Option<+T> = None | Some(value: T)

  /** The value kept by a wrapping 64-bit operation. */
  function Wrap64(x: int): u64 {
    x % TWO64
  }

  /** A byte read as a signed 8-bit number. */
  function Signed8(b: byte): int {
    if b < 0x80 then b else b - TWO8
  }

  /** A 32-bit word read as a signed number. */
  function Signed32(w: u32): int {
    if w < 0x8000_0000 then w else w - TWO32
  }

  function Power256(n: nat): (p: nat)
    ensures p > 0
  {
    if n == 0 then 1 else TWO8 * Power256(n - 1)
  }

  /** The n low bytes of v, least significant first. */
  function LeBytes(n: nat, v: nat): (s: bytes)
    ensures |s| == n
  {
    if n == 0 then [] else [v % TWO8] + LeBytes(n - 1, v / TWO8)
  }

  /** The number whose little-endian bytes are s. */
  function LeValue(s: bytes): (v: nat)
    ensures v < Power256(|s|)
  {
    if s == [] then 0 else s[0] + TWO8 * LeValue(s[1..])
  }

  /** Reading back the bytes of v yields v truncated to their width. */
  lemma {:induction false} LeRoundTrip(n: nat, v: nat)
    ensures LeValue(LeBytes(n, v)) == v % Power256(n)
  {
    if n == 0 {
    } else {
      LeRoundTrip(n - 1, v / TWO8);
      var s := LeBytes(n, v);
      assert s[1..] == LeBytes(n - 1, v / TWO8);
      var p := Power256(n - 1);
      ModuloSplit(TWO8, v, p);
    }
  }

  /** The last base-b digit of v % (b * p), and the digits before it. */
  lemma {:induction false} ModuloSplit(b: nat, v: nat, p: nat)
    requires b > 0 && p > 0
    ensures v % (b * p) == v % b + b * ((v / b) % p)
  {
    var q, r := v / b, v % b;
    var h, l := q / p, q % p;
    Regroup(b, p, h, l);
    Monotonic(b, l + 1, p);
    Regroup(b, 1, l, 1);
    RemainderIs(v, b * p, h, r + b * l);
  }

  lemma {:induction false} Regroup(b: nat, p: nat, h: nat, l: nat)
    ensures b * (p * h + l) == (b * p) * h + b * l
  {
    calc {
      b * (p * h + l);
      b * (p * h) + b * l;
      (b * p) * h + b * l;
    }
  }

  lemma {:induction false} Monotonic(b: nat, x: nat, y: nat)
    requires x <= y
    ensures b * x <= b * y
  {
    assert b * y == b * x + b * (y - x);
  }

  lemma {:induction false} RemainderIs(v: nat, m: nat, a: nat, r: nat)
    requires r < m && v == m * a + r
    ensures v % m == r && v / m == a
  {
    var k := v / m - a;
    assert m * k == m * (v / m) - m * a;
    assert m * k == r - v % m;
    assert k >= 1 ==> m * k >= m;
    assert k <= -1 ==> m * k + m <= 0;
  }

  /** Different byte strings of one length are different numbers. */
  lemma {:induction false} LeValueUnique(s: bytes)
    ensures LeBytes(|s|, LeValue(s)) == s
  {
    if s == [] {
    } else {
      LeValueUnique(s[1..]);
      assert LeValue(s) % TWO8 == s[0];
      assert LeValue(s) / TWO8 == LeValue(s[1..]);
    }
  }

  lemma {:induction false} Powers()
    ensures Power256(2) == TWO16 && Power256(4) == TWO32 && Power256(8) == TWO64
  {
    assert Power256(2) == TWO16;
    assert Power256(4) == TWO16 * TWO16;
  }

  /** Byte k of a little-endian number is its digit of weight 256 to the k. */
  lemma {:induction false} LeDigit(n: nat, v: nat, k: nat)
    requires k < n
    ensures LeBytes(n, v)[k] == v / Power256(k) % 256
    decreases n
  {
    if k == 0 {
      assert Power256(0) == 1;
    } else {
      LeDigit(n - 1, v / TWO8, k - 1);
      DivideTwice(v, TWO8, Power256(k - 1));
    }
  }

  lemma {:induction false} DivideTwice(v: nat, a: nat, b: nat)
    requires a > 0 && b > 0
    ensures a * b > 0 && v / a / b == v / (a * b)
  {
    var q := v / a / b;
    var r, t := v % a, v / a % b;
    Regroup(a, b, q, t);
    Monotonic(a, t + 1, b);
    RemainderIs(v, a * b, q, a * t + r);
  }

  lemma {:induction false} LeRoundTrip64(v: u64)
    ensures LeValue(LeBytes(8, v)) == v
  {
    LeRoundTrip(8, v);
    Powers();
  }

  function Reversed<T>(s: seq<T>): (r: seq<T>)
    ensures |r| == |s|
  {
    if s == [] then [] else [s[|s| - 1]] + Reversed(s[..|s| - 1])
  }

  lemma {:induction false} ReversedFromFront<T>(s: seq<T>)
    requires s != []
    ensures Reversed(s) == Reversed(s[1..]) + [s[0]]
  {
    if |s| > 1 {
      ReversedFromFront(s[..|s| - 1]);
      assert s[1..][..|s| - 2] == s[..|s| - 1][1..];
    }
  }

  lemma {:induction false} LeRoundTrip32(v: u32)
    ensures LeValue(LeBytes(4, v)) == v
  {
    LeRoundTrip(4, v);
    Powers();
  }

  /** A slice of a slice. */
  lemma {:induction false} Subslice(s: bytes, lo: nat, hi: nat, i: nat, j: nat)
    requires i <= j && lo + j <= hi <= |s|
    ensures s[lo..hi][i..j] == s[lo + i..lo + j]
  {
    var a, b := s[lo..hi][i..j], s[lo + i..lo + j];
    assert |a| == |b|;
    forall k | 0 <= k < j - i ensures a[k] == b[k] {
      assert a[k] == s[lo..hi][i + k];
    }
  }

  /** s with the bytes from index i on replaced by b. */
  function Splice(s: bytes, i: nat, b: bytes): (r: bytes)
    requires i + |b| <= |s|
    ensures |r| == |s|
  {
    s[..i] + b + s[i + |b|..]
  }

  /** A splice shows its own bytes. */
  lemma {:induction false} SpliceShows(s: bytes, i: nat, b: bytes, off: nat, w: bytes)
    requires i + |b| <= |s| && off + |w| <= |b| && b[off..off + |w|] == w
    ensures Splice(s, i, b)[i + off..i + off + |w|] == w
  {
  }

  /** A splice leaves every disjoint window alone. */
  lemma {:induction false} SpliceKeeps(s: bytes, i: nat, b: bytes, j: nat, w: bytes)
    requires i + |b| <= |s| && j + |w| <= |s| && s[j..j + |w|] == w
    requires j + |w| <= i || i + |b| <= j
    ensures Splice(s, i, b)[j..j + |w|] == w
  {
  }

  lemma {:induction false} SpliceNothing(s: bytes, i: nat)
    requires i <= |s|
    ensures Splice(s, i, []) == s
  {
  }

  lemma {:induction false} SpliceJoin(s: bytes, i: nat, a: bytes, b: bytes)
    requires i + |a| + |b| <= |s|
    ensures Splice(Splice(s, i + |a|, b), i, a) == Splice(s, i, a + b)
    ensures Splice(Splice(s, i, a), i + |a|, b) == Splice(s, i, a + b)
  {
  }

  /** `copy_from_slice` into a[i..]. */
  method CopyInto(a: array<byte>, i: nat, b: bytes)
    requires i + |b| <= a.Length
    modifies a
    ensures a[..] == Splice(old(a[..]), i, b)
  {
    forall k | 0 <= k < |b| {
      a[i + k] := b[k];
    }
  }
}
