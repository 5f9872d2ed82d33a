/** Small facts about slicing and concatenating sequences. */
module SeqFacts {

  /** A non-empty sequence is its front followed by its last element. */
  lemma SplitLast<T>(s: seq<T>)
    requires |s| > 0
    ensures s == s[..|s| - 1] + [s[|s| - 1]]
  {
  }

  /** A slice of a concatenation that lies in one part is a slice of that part. */
  lemma SliceOfConcat<T>(s: seq<T>, t: seq<T>, a: nat, b: nat)
    requires a <= b <= |s| + |t| && (b <= |s| || a == |s|)
    ensures b <= |s| ==> (s + t)[a..b] == s[a..b]
    ensures a == |s| ==> (s + t)[a..b] == t[..b - |s|]
  {
  }

  /** A sequence is its first k elements followed by the rest. */
  lemma SplitAt<T>(s: seq<T>, k: nat)
    requires k <= |s|
    ensures s == s[..k] + s[k..]
  {
  }

  /** Widening a slice by one position appends the element at that position. */
  lemma SliceSnoc<T>(s: seq<T>, a: nat, b: nat)
    requires a <= b < |s|
    ensures s[a..b + 1] == s[a..b] + [s[b]]
  {
  }

  /** A slice of a prefix that lies inside it is the same slice of the whole. */
  lemma SliceOfPrefix<T>(s: seq<T>, k: nat, a: nat, b: nat)
    requires a <= b <= k <= |s|
    ensures s[..k][a..b] == s[a..b]
  {
  }

  /** A non-empty prefix is the shorter prefix followed by its last element. */
  lemma PrefixSnoc<T>(s: seq<T>, k: nat)
    requires 0 < k <= |s|
    ensures s[..k] == s[..k - 1] + [s[k - 1]]
  {
  }
}
