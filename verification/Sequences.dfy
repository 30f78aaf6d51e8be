/** Rearranging concatenations: the steps the proofs about texts and streams repeat. */
module Sequences {

  lemma Associate<T>(a: seq<T>, b: seq<T>, c: seq<T>)
    ensures (a + b) + c == a + (b + c)
  {}

  lemma Split<T>(a: seq<T>, b: seq<T>)
    ensures (a + b)[..|a|] == a && (a + b)[|a|..] == b
  {}

  lemma SplitEqual<T>(e: seq<T>, f: seq<T>, x: seq<T>, y: seq<T>)
    requires e + x == f + y && |e| == |f|
    ensures e == f && x == y
  {
    Split(e, x);
    Split(f, y);
  }
}
