// Generic facts about sequences that the trace and raster proofs share.

module Seqs {
  /** Appending is associative; stated once so that traces need not be compared element by element. */
  lemma AppendAssoc<T>(a: seq<T>, b: seq<T>, c: seq<T>)
    ensures (a + b) + c == a + (b + c)
  {
  }

  /** A prefix one longer is the prefix and the next element. */
  lemma TakeSnoc<T>(s: seq<T>, k: int)
    requires 0 <= k < |s|
    ensures s[..k + 1] == s[..k] + [s[k]]
  {
  }

  /** The prefix as long as the sequence is the sequence. */
  lemma TakeAll<T>(s: seq<T>, n: int)
    requires n == |s|
    ensures s[..n] == s
  {
  }

  /** Writing the next element of `a` over `d` extends the copied prefix by one. */
  lemma CopyNext<T>(a: seq<T>, d: seq<T>, j: int)
    requires 0 <= j < |a| && j < |d|
    ensures (a[..j] + d[j..])[j := a[j]] == a[..j + 1] + d[j + 1..]
  {
  }

  /** Dropping one more element. */
  lemma DropNext<T>(s: seq<T>, j: int)
    requires 0 <= j < |s|
    ensures s[j..][1..] == s[j + 1..] && s[j..][0] == s[j]
  {
  }
}
