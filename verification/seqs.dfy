/** Sequence helpers shared by the rate limiter and the log queries:
    an order-preserving filter, the subsequence relation and repetition. */
module Seqs {

  /** `sub` can be obtained from `s` by deleting elements, keeping the order. */
  predicate IsSubseq<T(==)>(sub: seq<T>, s: seq<T>)
    decreases |s|
  {
    if |sub| == 0 then true
    else if |s| == 0 then false
    else if sub[0] == s[0] then IsSubseq(sub[1..], s[1..])
    else IsSubseq(sub, s[1..])
  }

  /** Array.prototype.filter: the elements satisfying `keep`, in their original order. */
  function Filter<T(==,!new)>(s: seq<T>, keep: T -> bool): (r: seq<T>)
    ensures IsSubseq(r, s)
    ensures forall i :: 0 <= i < |r| ==> keep(r[i])
    ensures forall x :: multiset(r)[x] == if keep(x) then multiset(s)[x] else 0
    ensures |r| <= |s|
    decreases |s|
  {
    if |s| == 0 then []
    else
      var rest := Filter(s[1..], keep);
      assert s == [s[0]] + s[1..];
      assert multiset(s) == multiset{s[0]} + multiset(s[1..]);
      if keep(s[0]) then
        assert multiset([s[0]] + rest) == multiset{s[0]} + multiset(rest);
        assert ([s[0]] + rest)[1..] == rest;
        [s[0]] + rest
      else
        rest
  }

  /** A filter that keeps every element returns the sequence itself. */
  lemma {:induction false} FilterKeepsAll<T(!new)>(s: seq<T>, keep: T -> bool)
    requires forall i :: 0 <= i < |s| ==> keep(s[i])
    ensures Filter(s, keep) == s
    decreases |s|
  {
    if |s| > 0 {
      FilterKeepsAll(s[1..], keep);
    }
  }

  /** `n` copies of `x`, the effect of pushing `x` in a loop of `n` iterations. */
  function Repeat<T>(n: nat, x: T): (r: seq<T>)
    ensures |r| == n
    ensures forall i :: 0 <= i < n ==> r[i] == x
  {
    if n == 0 then [] else Repeat(n - 1, x) + [x]
  }

  /** Filtering with a stronger predicate yields a subsequence of filtering with a weaker one. */
  lemma {:induction false} FilterMonotone<T(!new)>(s: seq<T>, strong: T -> bool, weak: T -> bool)
    requires forall x :: strong(x) ==> weak(x)
    ensures IsSubseq(Filter(s, strong), Filter(s, weak))
    decreases |s|
  {
    if |s| > 0 {
      FilterMonotone(s[1..], strong, weak);
      var rs := Filter(s[1..], strong);
      var rw := Filter(s[1..], weak);
      if strong(s[0]) {
        assert Filter(s, strong) == [s[0]] + rs;
        assert Filter(s, weak) == [s[0]] + rw;
        assert ([s[0]] + rs)[1..] == rs;
        assert ([s[0]] + rw)[1..] == rw;
      } else if weak(s[0]) {
        assert Filter(s, weak) == [s[0]] + rw;
        assert ([s[0]] + rw)[1..] == rw;
        SkipHead(rs, s[0], rw);
      }
    }
  }

  /** Prepending an element to the longer sequence keeps a subsequence relation. */
  lemma {:induction false} SkipHead<T>(sub: seq<T>, x: T, s: seq<T>)
    requires IsSubseq(sub, s)
    ensures IsSubseq(sub, [x] + s)
    decreases |s|, 1
  {
    assert ([x] + s)[1..] == s;
    if |sub| > 0 && sub[0] == x {
      SubseqTail(sub, s);
    }
  }

  /** Dropping the first element of a subsequence keeps it a subsequence. */
  lemma {:induction false} SubseqTail<T>(sub: seq<T>, s: seq<T>)
    requires |sub| > 0 && IsSubseq(sub, s)
    ensures IsSubseq(sub[1..], s)
    decreases |s|, 0
  {
    assert [s[0]] + s[1..] == s;
    if sub[0] == s[0] {
      SkipHead(sub[1..], s[0], s[1..]);
    } else {
      SubseqTail(sub, s[1..]);
      SkipHead(sub[1..], s[0], s[1..]);
    }
  }
}
