/** Definitions shared by the two program generators and the container layout. */
module Common {

  datatype Option<T> = None | Some(value: T)

  /** An 8-bit value. */
  type Byte = v: int | 0 <= v < 256

  /** The code of the line feed that both generators append to the message. */
  const NEWLINE_CODE: nat := 10

  /** Every code of the message fits in one byte. */
  predicate IsByteString(s: seq<nat>) {
    forall i :: 0 <= i < |s| ==> s[i] < 256
  }

  /** `k` copies of `x`: Python's `k * ch` for a one-character string and
      `k >= 0`, and a run of one instruction. */
  function Rep<T>(k: nat, x: T): (r: seq<T>)
    ensures |r| == k && forall i :: 0 <= i < k ==> r[i] == x
  {
    seq(k, _ => x)
  }

  lemma RepSnoc<T>(k: nat, x: T)
    ensures Rep(k, x) + [x] == Rep(k + 1, x)
  {
  }

  /** Number of occurrences of `ch` in `s`. */
  function Count(s: string, ch: char): nat {
    if s == [] then 0 else (if s[0] == ch then 1 else 0) + Count(s[1..], ch)
  }

  lemma {:induction false} CountAppend(a: string, b: string, ch: char)
    ensures Count(a + b, ch) == Count(a, ch) + Count(b, ch)
  {
    if a != [] {
      assert (a + b)[1..] == a[1..] + b;
      CountAppend(a[1..], b, ch);
    } else {
      assert a + b == b;
    }
  }

  lemma {:induction false} CountAbsent(s: string, ch: char)
    requires forall i :: 0 <= i < |s| ==> s[i] != ch
    ensures Count(s, ch) == 0
  {
    if s != [] {
      CountAbsent(s[1..], ch);
    }
  }
}
