/** Machine integers, byte strings and the failure-compatible result types shared by every module.

    A Rust `String` is represented by its UTF-8 bytes, so text and binary data have one type. */
module Prelude {
  type byte = b: int | 0 <= b < 256
  type u16 = n: int | 0 <= n < 0x1_0000
  type u32 = n: int | 0 <= n < 0x1_0000_0000
  type u64 = n: int | 0 <= n < 0x1_0000_0000_0000_0000
  type i64 = n: int | -0x8000_0000_0000_0000 <= n < 0x8000_0000_0000_0000

  const U64_MAX: u64 := 0xFFFF_FFFF_FFFF_FFFF
  const I64_MAX: i64 := 0x7FFF_FFFF_FFFF_FFFF
  const I64_MIN: i64 := -0x8000_0000_0000_0000

  type Bytes = seq<byte>

  datatype Option<+T> = None | Some(value: T) {
    predicate IsFailure() { None? }
    function PropagateFailure<U>(): Option<U> requires None? { None }
    function Extract(): T requires Some? { value }
  }

  datatype Result<+T, +E> = Ok(value: T) | Err(error: E) {
    predicate IsFailure() { Err? }
    function PropagateFailure<U>(): Result<U, E> requires Err? { Err(error) }
    function Extract(): T requires Ok? { value }
  }

  /** `n` copies of one byte. */
  function Repeat(b: byte, n: nat): (r: Bytes)
    ensures |r| == n && forall i :: 0 <= i < n ==> r[i] == b
  {
    seq(n, i => b)
  }

  predicate AllZero(b: Bytes) { forall i :: 0 <= i < |b| ==> b[i] == 0 }

  predicate IsDigit(b: byte) { 48 <= b <= 57 }

  predicate AllDigits(s: Bytes) { forall i :: 0 <= i < |s| ==> IsDigit(s[i]) }

  /** The bytes of an ASCII literal. */
  function Ascii(s: string): (r: Bytes)
    ensures |r| == |s|
    ensures forall i :: 0 <= i < |s| ==> r[i] == s[i] as int % 256
  {
    seq(|s|, i requires 0 <= i < |s| => s[i] as int % 256)
  }

  lemma Assoc<T>(a: seq<T>, b: seq<T>, c: seq<T>)
    ensures a + b + c == a + (b + c)
  {
  }

  /** `p` cancels on the left of a concatenation. */
  lemma CancelLeft<T>(p: seq<T>, a: seq<T>, b: seq<T>)
    requires p + a == p + b
    ensures a == b
  {
    assert a == (p + a)[|p|..];
    assert b == (p + b)[|p|..];
  }

  /** Two factorisations of one sequence with equally long heads agree part by part. */
  lemma SplitEqual<T>(p: seq<T>, a: seq<T>, q: seq<T>, b: seq<T>)
    requires p + a == q + b && |p| == |q|
    ensures p == q && a == b
  {
    assert p == (p + a)[..|p|];
    assert q == (q + b)[..|q|];
    CancelLeft(p, a, b);
  }

  /** As `SplitEqual`, for a common tag followed by a body and a remainder. */
  lemma CancelTag<T>(tag: seq<T>, p: seq<T>, a: seq<T>, q: seq<T>, b: seq<T>)
    requires tag + p + a == tag + q + b
    ensures p + a == q + b
  {
    Assoc(tag, p, a);
    Assoc(tag, q, b);
    CancelLeft(tag, p + a, q + b);
  }

  /** Concatenation of a list of byte strings, in order. */
  function Concat(parts: seq<Bytes>): (r: Bytes)
  {
    if parts == [] then [] else parts[0] + Concat(parts[1..])
  }

  function Min(a: int, b: int): int { if a <= b then a else b }

  function Abs(a: int): nat { if a < 0 then -a else a }

  // ---------------------------------------------------------------- ordered requirements

  /** One requirement, and the reason given when it is not met. */
  datatype Requirement<+E> = Requirement(met: bool, reason: E)

  /** `k` is the first requirement that is not met. */
  ghost predicate FirstMissed<E>(reqs: seq<Requirement<E>>, k: nat) {
    k < |reqs| && !reqs[k].met && forall i :: 0 <= i < k ==> reqs[i].met
  }

  /** A missed requirement of the second list comes first only when the whole first list is met. */
  lemma MissedInPart<E>(a: seq<Requirement<E>>, b: seq<Requirement<E>>, k: nat)
    requires FirstMissed(a + b, k)
    ensures k < |a| ==> FirstMissed(a, k)
    ensures k >= |a| ==> FirstMissed(b, k - |a|) && forall i :: 0 <= i < |a| ==> a[i].met
  {
    if k >= |a| {
      forall i | 0 <= i < k - |a| ensures b[i].met {
        assert (a + b)[|a| + i] == b[i];
      }
      forall i | 0 <= i < |a| ensures a[i].met {
        assert (a + b)[i] == a[i];
      }
    } else {
      forall i | 0 <= i < k ensures a[i].met {
        assert (a + b)[i] == a[i];
      }
    }
  }
}
