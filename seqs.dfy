/**
 * Sequence operations the forwarder takes from lodash (`_.flatten`, `_.uniq`),
 * given by their semantics, plus the subsequence relation used to state that
 * header removals keep the remaining lines in order.
 */
module Seqs {

  /** No element occurs twice. */
  predicate NoDups<T(==)>(s: seq<T>) {
    forall i, j :: 0 <= i < j < |s| ==> s[i] != s[j]
  }

  /** Index of the first occurrence of `x` in `s`. */
  function IndexOf<T(==)>(s: seq<T>, x: T): (k: nat)
    requires x in s
    ensures k < |s| && s[k] == x && x !in s[..k]
  {
    if s[0] == x then 0 else 1 + IndexOf(s[1..], x)
  }

  /** The first occurrence of an element of a prefix lies in that prefix. */
  lemma {:induction false} IndexOfPrefix<T>(s: seq<T>, n: nat, x: T)
    requires n <= |s| && x in s[..n]
    ensures x in s && IndexOf(s, x) == IndexOf(s[..n], x)
  {
    if s[0] != x {
      assert s[1..][..n - 1] == s[..n][1..];
      IndexOfPrefix(s[1..], n - 1, x);
    }
  }

  /** `_.flatten`: concatenation of the lists, one level deep. */
  function Flatten<T(!new)>(ss: seq<seq<T>>): (r: seq<T>)
    ensures |r| == SumOfLengths(ss)
    ensures forall x :: x in r <==> exists i :: 0 <= i < |ss| && x in ss[i]
  {
    if ss == [] then []
    else
      ss[0] + Flatten(ss[1..])
  }

  function SumOfLengths<T>(ss: seq<seq<T>>): (r: nat) {
    if ss == [] then 0 else |ss[0]| + SumOfLengths(ss[1..])
  }

  /**
   * `_.uniq`: the elements of `s` without repetitions, each kept at its first
   * occurrence, so the result lists them in first-seen order.
   */
  function Uniq<T(==,!new)>(s: seq<T>): (r: seq<T>)
    ensures NoDups(r)
    ensures forall x :: x in r <==> x in s
    ensures forall i, j :: 0 <= i < j < |r| ==> IndexOf(s, r[i]) < IndexOf(s, r[j])
  {
    if s == [] then []
    else
      var init := s[..|s| - 1];
      var last := s[|s| - 1];
      var u := Uniq(init);
      assert s == init + [last];
      forall x | x in u ensures IndexOf(s, x) == IndexOf(init, x) {
        IndexOfPrefix(s, |s| - 1, x);
      }
      if last in u then u
      else
        assert IndexOf(s, last) == |s| - 1;
        u + [last]
  }

  /** `a` is `b` with some elements left out, the rest in their original order. */
  predicate IsSubseq<T(==)>(a: seq<T>, b: seq<T>)
    decreases |b|
  {
    if a == [] then true
    else if b == [] then false
    else if a[0] == b[0] then IsSubseq(a[1..], b[1..])
    else IsSubseq(a, b[1..])
  }

  /** Every element of a subsequence is an element of the whole. */
  lemma {:induction false} SubseqMembers<T>(a: seq<T>, b: seq<T>)
    requires IsSubseq(a, b)
    ensures forall x :: x in a ==> x in b
    decreases |b|
  {
    if a != [] && b != [] {
      if a[0] == b[0] {
        SubseqMembers(a[1..], b[1..]);
        assert forall x :: x in a ==> x == a[0] || x in a[1..];
      } else {
        SubseqMembers(a, b[1..]);
      }
    }
  }

  /** Keeping the head of both sides preserves the relation. */
  lemma SubseqCons<T>(x: T, a: seq<T>, b: seq<T>)
    requires IsSubseq(a, b)
    ensures IsSubseq([x] + a, [x] + b)
  {
    assert ([x] + a)[1..] == a;
    assert ([x] + b)[1..] == b;
  }

  /** Dropping the head of the whole preserves the relation. */
  lemma {:induction false} SubseqSkip<T>(x: T, a: seq<T>, b: seq<T>)
    requires IsSubseq(a, b)
    ensures IsSubseq(a, [x] + b)
    decreases |b|, 1
  {
    assert ([x] + b)[1..] == b;
    if a != [] && a[0] == x {
      // [x] + b matches x against a[0]; a[1..] must then be a subsequence of b
      SubseqTail(a, b);
    }
  }

  /** A subsequence without its head is still a subsequence. */
  lemma {:induction false} SubseqTail<T>(a: seq<T>, b: seq<T>)
    requires a != [] && IsSubseq(a, b)
    ensures IsSubseq(a[1..], b)
    decreases |b|, 0
  {
    if a[0] == b[0] {
      SubseqSkip(b[0], a[1..], b[1..]);
      assert [b[0]] + b[1..] == b;
    } else {
      SubseqTail(a, b[1..]);
      SubseqSkip(b[0], a[1..], b[1..]);
      assert [b[0]] + b[1..] == b;
    }
  }

  /** Dropping a whole prefix of the whole preserves the relation. */
  lemma {:induction false} SubseqDrop<T>(a: seq<T>, b: seq<T>, n: nat)
    requires n <= |b| && IsSubseq(a, b[n..])
    ensures IsSubseq(a, b)
    decreases n
  {
    if n > 0 {
      assert b[n - 1..] == [b[n - 1]] + b[n..];
      SubseqSkip(b[n - 1], a, b[n..]);
      SubseqDrop(a, b, n - 1);
    }
  }

  /** Every sequence is a subsequence of itself. */
  lemma {:induction false} SubseqRefl<T>(a: seq<T>)
    ensures IsSubseq(a, a)
    decreases |a|
  {
    if a != [] {
      SubseqRefl(a[1..]);
    }
  }

  /** Subsequences compose. */
  lemma {:induction false} SubseqTrans<T>(a: seq<T>, b: seq<T>, c: seq<T>)
    requires IsSubseq(a, b) && IsSubseq(b, c)
    ensures IsSubseq(a, c)
    decreases |c|
  {
    if a != [] {
      if b[0] == c[0] {
        if a[0] == b[0] {
          SubseqTrans(a[1..], b[1..], c[1..]);
        } else {
          SubseqTrans(a, b[1..], c[1..]);
        }
      } else {
        SubseqTrans(a, b, c[1..]);
        if a[0] == c[0] {
          SubseqTail(a, c[1..]);
        }
      }
    }
  }
}
