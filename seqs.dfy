/** Facts about sequences that the proofs state once, outside the contexts
    where the sequence elements carry expensive quantified facts. */
module Seqs {

  lemma ConcatAssoc<T>(x: seq<T>, y: seq<T>, z: seq<T>)
    ensures x + (y + z) == (x + y) + z
  {
  }

  lemma HeadTail<T>(s: seq<T>)
    requires |s| > 0
    ensures s == [s[0]] + s[1..]
  {
  }

  lemma InitLast<T>(s: seq<T>)
    requires |s| > 0
    ensures s == s[..|s| - 1] + [s[|s| - 1]]
  {
  }

  lemma DropPrefix<T>(p: seq<T>, x: seq<T>)
    ensures (p + x)[|p|..] == x
  {
  }

  lemma CutThree<T>(s: seq<T>, i: nat, j: nat)
    requires i <= j <= |s|
    ensures s == s[..i] + s[i..j] + s[j..]
  {
  }

  lemma SliceOfPrefix<T>(s: seq<T>, i: nat, a: nat, b: nat)
    requires a <= b <= i <= |s|
    ensures s[..i][a..b] == s[a..b]
  {
  }
}
