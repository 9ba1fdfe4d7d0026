/** Facts about slicing and concatenating sequences, proved once, away from any other definitions. */
module SeqFacts {

  lemma TakeDrop<T>(s: seq<T>, k: nat)
    requires k <= |s|
    ensures s[..k] + s[k..] == s
  {
  }

  lemma TakeAll<T>(s: seq<T>)
    ensures s[..|s|] == s
  {
  }

  /** The prefix of length `k + 1` is the prefix of length `k` followed by element `k`. */
  lemma TakeSnoc<T>(s: seq<T>, k: nat)
    requires k < |s|
    ensures s[..k + 1][..k] == s[..k] && s[..k + 1][k] == s[k]
    ensures s[..k + 1] == s[..k] + [s[k]]
  {
  }

  /** Removing the last element of `a + b`, for a non-empty `b`, removes it from `b`. */
  lemma AppendFront<T>(a: seq<T>, b: seq<T>)
    requires b != []
    ensures (a + b)[..|a + b| - 1] == a + b[..|b| - 1] && (a + b)[|a + b| - 1] == b[|b| - 1]
  {
  }

  lemma AppendEmpty<T>(a: seq<T>)
    ensures a + [] == a
  {
  }

  /** A sequence is its front followed by its last element. */
  lemma FrontLast<T>(s: seq<T>)
    requires s != []
    ensures s == s[..|s| - 1] + [s[|s| - 1]]
  {
  }

  lemma SnocFront<T>(s: seq<T>, x: T)
    ensures (s + [x])[..|s|] == s && (s + [x])[|s|] == x
  {
  }

  /** Cutting `done + dates + later` after element `j` of `dates`. */
  lemma Regroup<T>(done: seq<T>, dates: seq<T>, j: nat, later: seq<T>)
    requires j < |dates|
    ensures done + dates + later == (done + dates[..j + 1]) + (dates[j + 1..] + later)
  {
    TakeDrop(dates, j + 1);
  }
}
