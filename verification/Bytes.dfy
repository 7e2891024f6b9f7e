/** Bytes, fixed-width integers and the byte orders used on the wire. */
module Bytes {
  type byte = b: int | 0 <= b < 0x100
  type u16 = n: int | 0 <= n < 0x1_0000
  type u32 = n: int | 0 <= n < 0x1_0000_0000

  const U16_MAX: u16 := 0xFFFF

  function Min(a: nat, b: nat): nat {
    if a <= b then a else b
  }

  /** `usize::saturating_sub`. */
  function SaturatingSub(a: nat, b: nat): nat {
    if a <= b then 0 else a - b
  }

  function U16Be(n: u16): seq<byte> {
    [n / 0x100, n % 0x100]
  }

  function FromU16Be(hi: byte, lo: byte): u16 {
    hi * 0x100 + lo
  }

  function U32Be(n: u32): seq<byte> {
    U16Be(n / 0x1_0000) + U16Be(n % 0x1_0000)
  }

  function U32Le(n: u32): seq<byte> {
    var hi, lo := n / 0x1_0000, n % 0x1_0000;
    [lo % 0x100, lo / 0x100, hi % 0x100, hi / 0x100]
  }

  function FromU32Le(bs: seq<byte>): u32
    requires |bs| == 4
  {
    FromU16Be(bs[3], bs[2]) * 0x1_0000 + FromU16Be(bs[1], bs[0])
  }

  function Flatten<T>(parts: seq<seq<T>>): seq<T> {
    if parts == [] then [] else parts[0] + Flatten(parts[1..])
  }

  /** Number of pieces of at most `w` bytes needed for `n` bytes. */
  function CeilDiv(n: nat, w: nat): nat
    requires w > 0
  {
    (n + w - 1) / w
  }

  lemma U16RoundTrip(n: u16)
    ensures FromU16Be(U16Be(n)[0], U16Be(n)[1]) == n
  {
  }

  lemma FromU16RoundTrip(hi: byte, lo: byte)
    ensures FromU16Be(hi, lo) / 0x100 == hi && FromU16Be(hi, lo) % 0x100 == lo
  {
  }

  lemma U32BeInjective(m: u32, n: u32)
    requires U32Be(m) == U32Be(n)
    ensures m == n
  {
    var a, b := U32Be(m), U32Be(n);
    assert a[0] == b[0] && a[1] == b[1] && a[2] == b[2] && a[3] == b[3];
  }

  lemma U32LeRoundTrip(n: u32)
    ensures FromU32Le(U32Le(n)) == n
  {
  }

  lemma FromU32LeRoundTrip(bs: seq<byte>)
    requires |bs| == 4
    ensures U32Le(FromU32Le(bs)) == bs
  {
    var n := FromU32Le(bs);
    assert n / 0x1_0000 == FromU16Be(bs[3], bs[2]);
    assert n % 0x1_0000 == FromU16Be(bs[1], bs[0]);
  }

  lemma Assoc<T>(x: seq<T>, y: seq<T>, z: seq<T>)
    ensures x + (y + z) == (x + y) + z
  {
  }

  lemma TailOfConcat<T>(a: seq<T>, b: seq<T>)
    requires a != []
    ensures (a + b)[0] == a[0] && (a + b)[1..] == a[1..] + b
  {
  }

  lemma SliceOfRest<T>(s: seq<T>, i: nat, j: nat)
    requires i <= j <= |s|
    ensures s[i..][..j - i] == s[i..j] && s[i..][j - i..] == s[j..]
  {
  }

  lemma SliceOfTail<T>(s: seq<T>, m: nat)
    requires m < |s|
    ensures s[..m + 1][0] == s[0] && s[..m + 1][1..] == s[1..][..m] && s[m + 1..] == s[1..][m..]
  {
  }

  lemma DropPrefix<T>(a: seq<T>, b: seq<T>)
    ensures a <= a + b && (a + b)[|a|..] == b
  {
  }

  lemma {:induction false} FlattenConcat<T>(a: seq<seq<T>>, b: seq<seq<T>>)
    ensures Flatten(a + b) == Flatten(a) + Flatten(b)
  {
    if a == [] {
      assert a + b == b;
    } else {
      FlattenConcat(a[1..], b);
      TailOfConcat(a, b);
      Assoc(a[0], Flatten(a[1..]), Flatten(b));
    }
  }

  lemma {:induction false} FlattenSnoc<T>(a: seq<seq<T>>, x: seq<T>)
    ensures Flatten(a + [x]) == Flatten(a) + x
  {
    FlattenConcat(a, [x]);
    assert Flatten([x]) == x + Flatten<T>([]);
  }

  /** `k` pieces of width `w` suffice exactly when they can hold `n` bytes. */
  lemma CeilDivIsLeast(n: nat, w: nat, k: nat)
    requires w > 0
    ensures CeilDiv(n, w) <= k <==> n <= k * w
  {
    var q := CeilDiv(n, w);
    assert q * w <= n + w - 1 < q * w + w;
    if q <= k {
      MulMonotone(q, k, w);
    } else {
      MulMonotone(k + 1, q, w);
      assert (k + 1) * w == k * w + w;
    }
  }

  /** Wider pieces never need more of them. */
  lemma CeilDivBound(n: nat, w: nat, narrow: nat, k: nat)
    requires 0 < narrow <= w && n <= k * narrow
    ensures CeilDiv(n, w) <= k
  {
    assert k * w == k * narrow + k * (w - narrow);
    CeilDivIsLeast(n, w, k);
  }

  lemma MulMonotone(a: nat, b: nat, w: nat)
    requires a <= b
    ensures a * w <= b * w
  {
    assert b * w == a * w + (b - a) * w;
  }

  /** Cutting one full (or final) piece off leaves one piece fewer to cut. */
  lemma CeilDivStep(n: nat, w: nat)
    requires w > 0 && n > 0
    ensures CeilDiv(n, w) == 1 + CeilDiv(n - Min(w, n), w)
  {
    var r := n - Min(w, n);
    var p, q := CeilDiv(r, w), CeilDiv(n, w);
    CeilDivIsLeast(r, w, p);
    CeilDivIsLeast(n, w, p + 1);
    CeilDivIsLeast(n, w, q);
    assert (p + 1) * w == p * w + w;
    assert q > 0;
    CeilDivIsLeast(r, w, q - 1);
    assert (q - 1) * w == q * w - w;
  }
}
