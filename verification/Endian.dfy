/** Fixed-width integers in byte strings. */
module Endian {
  import opened Prelude

  /** 256 to the power `n`. */
  function Pow256(n: nat): (r: nat)
    ensures r >= 1
  {
    if n == 0 then 1 else 256 * Pow256(n - 1)
  }

  /** The number a little-endian byte string denotes. */
  function LeValue(b: Bytes): (r: nat) {
    if b == [] then 0 else b[0] + 256 * LeValue(b[1..])
  }

  function Reverse(b: Bytes): (r: Bytes)
    ensures |r| == |b|
    ensures forall i :: 0 <= i < |b| ==> r[i] == b[|b| - 1 - i]
  {
    if b == [] then [] else Reverse(b[1..]) + [b[0]]
  }

  /** The number a big-endian byte string denotes. */
  function BeValue(b: Bytes): nat { LeValue(Reverse(b)) }

  lemma ReverseInvolutive(b: Bytes)
    ensures Reverse(Reverse(b)) == b
  {
  }

  /** `n` as exactly `k` little-endian bytes. */
  function LeBytes(n: nat, k: nat): (r: Bytes)
    ensures |r| == k
    decreases k
  {
    if k == 0 then [] else [n % 256] + LeBytes(n / 256, k - 1)
  }

  function BeBytes(n: nat, k: nat): (r: Bytes)
    ensures |r| == k
  {
    Reverse(LeBytes(n, k))
  }

  lemma {:induction false} LeBound(b: Bytes)
    ensures LeValue(b) < Pow256(|b|)
  {
    if b != [] {
      LeBound(b[1..]);
    }
  }

  lemma {:induction false} LeRoundTrip(n: nat, k: nat)
    requires n < Pow256(k)
    ensures LeValue(LeBytes(n, k)) == n
    decreases k
  {
    if k > 0 {
      LeRoundTrip(n / 256, k - 1);
      assert LeBytes(n, k)[1..] == LeBytes(n / 256, k - 1);
    }
  }

  lemma {:induction false} LeBytesOfValue(b: Bytes)
    ensures LeBytes(LeValue(b), |b|) == b
  {
    if b != [] {
      LeBytesOfValue(b[1..]);
      assert LeValue(b) % 256 == b[0] && LeValue(b) / 256 == LeValue(b[1..]);
      assert b == [b[0]] + b[1..];
    }
  }

  lemma BeRoundTrip(n: nat, k: nat)
    requires n < Pow256(k)
    ensures BeValue(BeBytes(n, k)) == n
  {
    ReverseInvolutive(LeBytes(n, k));
    LeRoundTrip(n, k);
  }

  lemma BeBytesOfValue(b: Bytes)
    ensures BeBytes(BeValue(b), |b|) == b
  {
    LeBytesOfValue(Reverse(b));
    ReverseInvolutive(b);
  }

  lemma BeBound(b: Bytes)
    ensures BeValue(b) < Pow256(|b|)
  {
    LeBound(Reverse(b));
  }

  /** Low bytes first: the value splits at any position. */
  lemma {:induction false} LeConcat(a: Bytes, b: Bytes)
    ensures LeValue(a + b) == LeValue(a) + Pow256(|a|) * LeValue(b)
  {
    if a == [] {
      assert a + b == b;
    } else {
      LeConcat(a[1..], b);
      assert (a + b)[1..] == a[1..] + b;
      assert 256 * (Pow256(|a| - 1) * LeValue(b)) == Pow256(|a|) * LeValue(b);
    }
  }

  lemma {:induction false} LeZero(b: Bytes)
    ensures LeValue(b) == 0 <==> forall i :: 0 <= i < |b| ==> b[i] == 0
  {
    if b != [] {
      LeZero(b[1..]);
      assert forall i :: 0 <= i < |b| - 1 ==> b[1..][i] == b[i + 1];
      assert forall i :: 0 < i < |b| ==> b[i] == b[1..][i - 1];
    }
  }

  lemma Pow256Small()
    ensures Pow256(1) == 0x100 && Pow256(2) == 0x1_0000 && Pow256(4) == 0x1_0000_0000
    ensures Pow256(8) == 0x1_0000_0000_0000_0000
  {
    assert Pow256(2) == 256 * Pow256(1);
    assert Pow256(4) == 256 * Pow256(3) && Pow256(3) == 256 * Pow256(2);
    assert Pow256(8) == 256 * Pow256(7) && Pow256(7) == 256 * Pow256(6);
    assert Pow256(6) == 256 * Pow256(5) && Pow256(5) == 256 * Pow256(4);
  }
}
