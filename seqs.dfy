/** Subsequences: the order-preserving "keeps some elements, drops others"
    relation used to say that a string only loses characters and that a
    filtered listing keeps its order. */
module Seqs {

  /** `a` can be obtained from `b` by deleting elements, keeping order. */
  predicate IsSubsequence<T(==)>(a: seq<T>, b: seq<T>)
    decreases |b|
  {
    a == [] ||
    (b != [] && ((a[0] == b[0] && IsSubsequence(a[1..], b[1..])) || IsSubsequence(a, b[1..])))
  }

  lemma {:induction false} SubsequenceRefl<T>(a: seq<T>)
    ensures IsSubsequence(a, a)
    decreases |a|
  {
    if a != [] {
      SubsequenceRefl(a[1..]);
    }
  }

  lemma {:induction false} SubsequenceLength<T>(a: seq<T>, b: seq<T>)
    requires IsSubsequence(a, b)
    ensures |a| <= |b|
    decreases |b|
  {
    if a != [] {
      if a[0] == b[0] && IsSubsequence(a[1..], b[1..]) {
        SubsequenceLength(a[1..], b[1..]);
      } else {
        SubsequenceLength(a, b[1..]);
      }
    }
  }

  lemma {:induction false} SubsequenceTrans<T>(a: seq<T>, b: seq<T>, c: seq<T>)
    requires IsSubsequence(a, b) && IsSubsequence(b, c)
    ensures IsSubsequence(a, c)
    decreases |c|, |b|
  {
    if a == [] {
    } else if b == [] {
    } else if IsSubsequence(b, c[1..]) {
      SubsequenceTrans(a, b, c[1..]);
    } else {
      assert b[0] == c[0] && IsSubsequence(b[1..], c[1..]);
      if a[0] == b[0] && IsSubsequence(a[1..], b[1..]) {
        SubsequenceTrans(a[1..], b[1..], c[1..]);
      } else {
        SubsequenceTrans(a, b[1..], c[1..]);
      }
    }
  }

  /** Putting more elements in front keeps a subsequence a subsequence. */
  lemma {:induction false} SubsequencePrepend<T>(a: seq<T>, p: seq<T>, b: seq<T>)
    requires IsSubsequence(a, b)
    ensures IsSubsequence(a, p + b)
    decreases |p|
  {
    if p != [] {
      SubsequencePrepend(a, p[1..], b);
      assert (p + b)[1..] == p[1..] + b;
      assert IsSubsequence(a, (p + b)[1..]);
    } else {
      assert p + b == b;
    }
  }

  /** A prefix is a subsequence. */
  lemma {:induction false} SubsequenceAppend<T>(a: seq<T>, b: seq<T>)
    ensures IsSubsequence(a, a + b)
    decreases |a|
  {
    if a != [] {
      SubsequenceAppend(a[1..], b);
      assert (a + b)[1..] == a[1..] + b;
    }
  }

  /** Keeping the same first element on both sides. */
  lemma SubsequenceCons<T>(x: T, a: seq<T>, b: seq<T>)
    requires IsSubsequence(a, b)
    ensures IsSubsequence([x] + a, [x] + b)
  {
    assert ([x] + a)[1..] == a;
    assert ([x] + b)[1..] == b;
  }

  /** A subsequence only holds elements of the sequence it came from. */
  lemma {:induction false} SubsequenceMembers<T>(a: seq<T>, b: seq<T>, x: T)
    requires IsSubsequence(a, b) && x in a
    ensures x in b
    decreases |b|
  {
    if a[0] == b[0] && IsSubsequence(a[1..], b[1..]) {
      if x != a[0] {
        SubsequenceMembers(a[1..], b[1..], x);
      }
    } else {
      SubsequenceMembers(a, b[1..], x);
    }
  }

  /** Regrouping a concatenation. */
  lemma AppendAssoc<T>(u: seq<T>, v: seq<T>, w: seq<T>)
    ensures u + (v + w) == (u + v) + w
  {
  }

  /** Cutting a sequence at `i` and `j` and joining the three pieces. */
  lemma SplitThree<T>(s: seq<T>, i: nat, j: nat)
    requires i <= j <= |s|
    ensures s == s[..i] + s[i..j] + s[j..]
  {
    assert s[..j] == s[..i] + s[i..j];
    assert s == s[..j] + s[j..];
  }
}
