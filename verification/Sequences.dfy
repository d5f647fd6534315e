/** Repetition, and reversal for bit orders and for digits that come out last one first. */
module Sequences {

  /** n times x, nothing when n is negative. */
  function Repeat<T>(x: T, n: int): (s: seq<T>)
    ensures |s| == (if n < 0 then 0 else n) && forall i :: 0 <= i < |s| ==> s[i] == x
  {
    seq(if n < 0 then 0 else n, i => x)
  }

  function Rev<T>(s: seq<T>): (r: seq<T>)
    ensures |r| == |s| && forall i :: 0 <= i < |s| ==> r[i] == s[|s| - 1 - i]
  {
    seq(|s|, i requires 0 <= i < |s| => s[|s| - 1 - i])
  }

  lemma RevInjective<T>(a: seq<T>, b: seq<T>)
    requires Rev(a) == Rev(b)
    ensures a == b
  {
    assert |a| == |b|;
    forall i | 0 <= i < |a|
      ensures a[i] == b[i]
    {
      assert Rev(a)[|a| - 1 - i] == Rev(b)[|a| - 1 - i];
    }
  }

  lemma RevConcat<T>(s: seq<T>, t: seq<T>)
    ensures Rev(s + t) == Rev(t) + Rev(s)
  {
  }
}
