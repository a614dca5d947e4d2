/** Facts about slicing and concatenating sequences, stated once so that the
    proofs about lines of text can use them without unfolding the text. */
module Sequences {
  /** A prefix of the rest of a sequence, put after the part before it, is a
      prefix of the whole sequence. */
  lemma PrefixStep<T>(s: seq<T>, a: nat, p: seq<T>)
    requires a <= |s| && p <= s[a..]
    ensures s[..a] + p <= s
    ensures s[|s[..a] + p|..] == s[a..][|p|..]
  {
  }

  lemma Associative<T>(a: seq<T>, b: seq<T>, c: seq<T>)
    ensures a + (b + c) == (a + b) + c
  {
  }

  /** The middle three of five concatenated sequences, taken as one. */
  lemma Regroup<T>(a: seq<T>, b: seq<T>, c: seq<T>, d: seq<T>, e: seq<T>)
    ensures a + b + c + d + e == a + (b + c + d) + e
  {
  }

  lemma NoneAppended<T>(s: seq<T>)
    ensures s + [] == s
  {
  }

  lemma Whole<T>(s: seq<T>)
    ensures s[..|s|] == s && s[|s|..] == []
  {
  }

  /** The two parts of a sequence cut at `a` make the sequence again. */
  lemma Rejoin<T>(s: seq<T>, a: nat)
    requires a <= |s|
    ensures s[..a] + s[a..] == s
  {
  }
}
