/** Options, and sequences without repetition. */
module Lists {

  datatype Option<+T> = None | Some(value: T)

  predicate Distinct<T(==)>(s: seq<T>) {
    forall i, j :: 0 <= i < j < |s| ==> s[i] != s[j]
  }

  /** A sequence that holds nothing more than once has no repetition. */
  lemma OnceDistinct<T>(s: seq<T>)
    requires forall b :: multiset(s)[b] <= 1
    ensures Distinct(s)
  {
    forall i, j | 0 <= i < j < |s|
      ensures s[i] != s[j]
    {
      assert s == s[..j] + s[j..];
      assert multiset(s)[s[j]] == multiset(s[..j])[s[j]] + multiset(s[j..])[s[j]];
      assert s[j] in s[j..] && s[j] !in s[..j];
      assert s[..j][i] == s[i];
    }
  }
}
