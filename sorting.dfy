/**
 * The usort of get_articles: articles ordered by their `publish` string,
 * latest first, where PHP compares two non-numeric strings byte by byte.
 */
module Sorting {
  import opened Articles

  /** PHP's `<` on two non-numeric strings: lexicographic (strcmp) order. */
  predicate StrLess(a: string, b: string)
    decreases |a|
  {
    |b| > 0 && (|a| == 0 || a[0] < b[0] || (a[0] == b[0] && StrLess(a[1..], b[1..])))
  }

  lemma {:induction false} StrLessIrreflexive(a: string)
    ensures !StrLess(a, a)
    decreases |a|
  {
    if |a| > 0 {
      StrLessIrreflexive(a[1..]);
    }
  }

  lemma {:induction false} StrLessTransitive(a: string, b: string, c: string)
    requires StrLess(a, b) && StrLess(b, c)
    ensures StrLess(a, c)
    decreases |a|
  {
    if |a| > 0 && a[0] == b[0] && b[0] == c[0] {
      StrLessTransitive(a[1..], b[1..], c[1..]);
    }
  }

  /** Two different strings are ordered one way or the other. */
  lemma {:induction false} StrLessTotal(a: string, b: string)
    requires a != b
    ensures StrLess(a, b) || StrLess(b, a)
    decreases |a|
  {
    if |a| > 0 && |b| > 0 && a[0] == b[0] {
      assert a == [a[0]] + a[1..] && b == [b[0]] + b[1..];
      StrLessTotal(a[1..], b[1..]);
    }
  }

  /** The two strings are never ordered both ways. */
  lemma StrLessAsymmetric(a: string, b: string)
    requires StrLess(a, b)
    ensures !StrLess(b, a)
  {
    if StrLess(b, a) {
      StrLessTransitive(a, b, a);
      StrLessIrreflexive(a);
    }
  }

  /** "Not later than": b's publish string does not come after a's. */
  predicate NotBefore(a: Article, b: Article)
  {
    !StrLess(a.publish, b.publish)
  }

  /** Latest first: no article is followed by one that it sorts before. */
  predicate SortedByPublish(s: seq<Article>)
  {
    forall i, j :: 0 <= i < j < |s| ==> NotBefore(s[i], s[j])
  }

  /** If a is not before b and b is not before c, then a is not before c. */
  lemma NotBeforeTransitive(a: Article, b: Article, c: Article)
    requires NotBefore(a, b) && NotBefore(b, c)
    ensures NotBefore(a, c)
  {
    if StrLess(a.publish, c.publish) {
      if a.publish == b.publish {
      } else if b.publish == c.publish {
      } else {
        StrLessTotal(a.publish, b.publish);
        StrLessTotal(b.publish, c.publish);
        StrLessTransitive(c.publish, b.publish, a.publish);
        StrLessAsymmetric(a.publish, c.publish);
      }
    }
  }

  /** Any two articles can be put in order: one of them is not before the other. */
  lemma NotBeforeTotal(a: Article, b: Article)
    ensures NotBefore(a, b) || NotBefore(b, a)
  {
    if StrLess(a.publish, b.publish) {
      StrLessAsymmetric(a.publish, b.publish);
    }
  }

  /**
   * The state of a pass while the article in motion sits at j: the others
   * are in order, and it is not before any article after it.
   */
  predicate SiftState(s: seq<Article>, j: int)
    requires 0 <= j < |s|
  {
    (forall k, l :: 0 <= k < l < |s| && k != j && l != j ==> NotBefore(s[k], s[l]))
    && (forall l :: j < l < |s| ==> NotBefore(s[j], s[l]))
  }

  /** Moving the article left past one it should precede keeps the pass's state. */
  lemma SiftStep(s: seq<Article>, j: int)
    requires 0 < j < |s| && SiftState(s, j) && StrLess(s[j - 1].publish, s[j].publish)
    ensures SiftState(s[j - 1 := s[j]][j := s[j - 1]], j - 1)
  {
    StrLessAsymmetric(s[j - 1].publish, s[j].publish);
  }

  /** The pass is done once the article is not before its left neighbour: the whole prefix is in order. */
  lemma SiftDone(s: seq<Article>, j: int)
    requires 0 <= j < |s| && SiftState(s, j)
    requires j == 0 || NotBefore(s[j - 1], s[j])
    ensures SortedByPublish(s)
  {
    forall k, l | 0 <= k < l < |s| ensures NotBefore(s[k], s[l]) {
      if l == j && k < j - 1 {
        NotBeforeTransitive(s[k], s[j - 1], s[j]);
      }
    }
  }

  /** Exchanges a[j - 1] and a[j], inside the prefix a[..i + 1] that a pass works on. */
  method Swap(a: array<Article>, j: int, i: int)
    requires 0 < j <= i < a.Length
    modifies a
    ensures a[..i + 1] == old(a[..i + 1])[j - 1 := old(a[j])][j := old(a[j - 1])]
    ensures a[i + 1..] == old(a[i + 1..])
  {
    a[j - 1], a[j] := a[j], a[j - 1];
  }

  /** Exchanging two neighbours keeps the multiset. */
  lemma SwapPermutes(s: seq<Article>, j: int)
    requires 0 < j < |s|
    ensures multiset(s[j - 1 := s[j]][j := s[j - 1]]) == multiset(s)
  {
  }

  /** Arrays that permute each other before n and agree from n on permute each other. */
  lemma JoinPermutation(s: seq<Article>, t: seq<Article>, n: nat)
    requires n <= |s| == |t| && multiset(s[..n]) == multiset(t[..n]) && s[n..] == t[n..]
    ensures multiset(s) == multiset(t)
  {
    assert s == s[..n] + s[n..];
    assert t == t[..n] + t[n..];
  }

  /**
   * One pass of the sort: a[i] moves left past every article it should
   * precede, so a sorted a[..i] becomes a sorted a[..i + 1]; the pass
   * permutes a[..i + 1] and leaves the rest of the array as it was.
   */
  method Insert(a: array<Article>, i: int)
    requires 0 <= i < a.Length && SortedByPublish(a[..i])
    modifies a
    ensures SortedByPublish(a[..i + 1])
    ensures multiset(a[..i + 1]) == multiset(old(a[..i + 1]))
    ensures a[i + 1..] == old(a[i + 1..])
    ensures multiset(a[..]) == multiset(old(a[..]))
  {
    var j := i;
    assert a[..i + 1][..i] == a[..i];
    while j > 0 && StrLess(a[j - 1].publish, a[j].publish)
      invariant 0 <= j <= i
      invariant SiftState(a[..i + 1], j)
      invariant multiset(a[..i + 1]) == multiset(old(a[..i + 1]))
      invariant a[i + 1..] == old(a[i + 1..])
    {
      ghost var s := a[..i + 1];
      SiftStep(s, j);
      SwapPermutes(s, j);
      Swap(a, j, i);
      j := j - 1;
    }
    SiftDone(a[..i + 1], j);
    JoinPermutation(a[..], old(a[..]), i + 1);
  }

  /** usort with the publish comparator: sorts the articles in place, latest `publish` first. */
  method SortByPublish(a: array<Article>)
    modifies a
    ensures SortedByPublish(a[..])
    ensures multiset(a[..]) == multiset(old(a[..]))
  {
    var i := 0;
    while i < a.Length
      invariant 0 <= i <= a.Length
      invariant SortedByPublish(a[..i])
      invariant multiset(a[..]) == multiset(old(a[..]))
    {
      Insert(a, i);
      i := i + 1;
    }
    assert a[..a.Length] == a[..];
  }
}
