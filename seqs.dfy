/** Sequence operations the components build on: JavaScript's `filter`, `reverse` and their laws. */
module Seqs {

  /** `a` is an order-preserving subsequence of `b`. */
  predicate IsSubseq<T(==)>(a: seq<T>, b: seq<T>)
    decreases |b|
  {
    if a == [] then true
    else if b == [] then false
    else (a[0] == b[0] && IsSubseq(a[1..], b[1..])) || IsSubseq(a, b[1..])
  }

  /** `Array.prototype.filter`: the elements of `s` satisfying `p`, in their order and with their multiplicity. */
  function Filter<T(!new)>(p: T -> bool, s: seq<T>): (r: seq<T>)
    ensures |r| <= |s|
    ensures forall x :: x in r <==> x in s && p(x)
    ensures forall x :: multiset(r)[x] == if p(x) then multiset(s)[x] else 0
    ensures IsSubseq(r, s)
  {
    if s == [] then []
    else
      assert s == [s[0]] + s[1..];
      var rest := Filter(p, s[1..]);
      if p(s[0]) then
        assert ([s[0]] + rest)[1..] == rest;
        [s[0]] + rest
      else rest
  }

  /** Filtering distributes over concatenation. */
  lemma {:induction false} FilterConcat<T(!new)>(p: T -> bool, a: seq<T>, b: seq<T>)
    ensures Filter(p, a + b) == Filter(p, a) + Filter(p, b)
  {
    if a == [] {
      assert a + b == b;
    } else {
      assert (a + b)[1..] == a[1..] + b;
      FilterConcat(p, a[1..], b);
    }
  }

  /** Filtering a sequence extended by one element extends the result by that element exactly when it passes. */
  lemma FilterSnoc<T(!new)>(p: T -> bool, s: seq<T>, x: T)
    ensures Filter(p, s + [x]) == Filter(p, s) + (if p(x) then [x] else [])
  {
    FilterConcat(p, s, [x]);
    assert Filter(p, [x]) == (if p(x) then [x] else []) by {
      assert [x][1..] == [];
    }
  }

  /** A sequence whose every element passes is its own filter. */
  lemma {:induction false} FilterAll<T(!new)>(p: T -> bool, s: seq<T>)
    requires forall x :: x in s ==> p(x)
    ensures Filter(p, s) == s
  {
    if s != [] {
      FilterAll(p, s[1..]);
    }
  }

  /** Filtering twice by the same predicate is filtering once. */
  lemma FilterIdempotent<T(!new)>(p: T -> bool, s: seq<T>)
    ensures Filter(p, Filter(p, s)) == Filter(p, s)
  {
    FilterAll(p, Filter(p, s));
  }

  /** Any prefix of a subsequence is again a subsequence. */
  lemma {:induction false} SubseqPrefix<T>(a: seq<T>, b: seq<T>, k: nat)
    requires IsSubseq(a, b)
    requires k <= |a|
    ensures IsSubseq(a[..k], b)
    decreases |b|
  {
    if k == 0 || a == [] {
    } else if b == [] {
    } else if a[0] == b[0] && IsSubseq(a[1..], b[1..]) {
      SubseqPrefix(a[1..], b[1..], k - 1);
      assert a[..k][0] == b[0];
      assert a[..k][1..] == a[1..][..k - 1];
    } else {
      SubseqPrefix(a, b[1..], k);
    }
  }

  /** The index `Array.prototype.find` stops at: the first element satisfying `p`, or |s| if there is none. */
  function FirstIndex<T>(p: T -> bool, s: seq<T>): (k: nat)
    ensures k <= |s|
    ensures k < |s| ==> p(s[k])
    ensures forall m :: 0 <= m < k ==> !p(s[m])
  {
    if s == [] then 0 else if p(s[0]) then 0 else 1 + FirstIndex(p, s[1..])
  }

  /** `Array.prototype.reverse`, as the value it leaves behind. */
  function Reverse<T>(s: seq<T>): (r: seq<T>)
    ensures |r| == |s|
    ensures forall i :: 0 <= i < |s| ==> r[i] == s[|s| - 1 - i]
  {
    if s == [] then [] else Reverse(s[1..]) + [s[0]]
  }

  /** Counting peels off the first element. */
  lemma CountCons<T(!new)>(p: T -> bool, s: seq<T>)
    requires s != []
    ensures Count(p, s) == (if p(s[0]) then 1 else 0) + Count(p, s[1..])
  {
  }

  /** Replacing one element changes the count by what the old and the new element contribute. */
  lemma CountUpdate<T(!new)>(p: T -> bool, s: seq<T>, k: nat, v: T)
    requires k < |s|
    ensures Count(p, s[k := v]) + (if p(s[k]) then 1 else 0) == Count(p, s) + (if p(v) then 1 else 0)
  {
    var pre, post := s[..k], s[k + 1..];
    assert s == pre + [s[k]] + post;
    assert s[k := v] == pre + [v] + post;
    FilterConcat(p, pre + [s[k]], post);
    FilterSnoc(p, pre, s[k]);
    FilterConcat(p, pre + [v], post);
    FilterSnoc(p, pre, v);
  }

  /** The number of elements of `s` satisfying `p`. */
  function Count<T(!new)>(p: T -> bool, s: seq<T>): (n: nat)
    ensures n <= |s|
    ensures n == 0 <==> forall x :: x in s ==> !p(x)
  {
    |Filter(p, s)|
  }

  /** Counting a sequence extended by one element adds one exactly when that element passes. */
  lemma CountSnoc<T(!new)>(p: T -> bool, s: seq<T>, x: T)
    ensures Count(p, s + [x]) == Count(p, s) + (if p(x) then 1 else 0)
  {
    FilterSnoc(p, s, x);
  }

  /** Extending a sequence keeps the first match, or makes the new element the first match if there was none. */
  lemma {:induction false} FirstIndexSnoc<T>(p: T -> bool, s: seq<T>, x: T)
    ensures FirstIndex(p, s + [x]) == if FirstIndex(p, s) < |s| then FirstIndex(p, s) else if p(x) then |s| else |s| + 1
  {
    if s == [] {
      assert [] + [x] == [x];
      assert [x][1..] == [];
    } else {
      assert (s + [x])[1..] == s[1..] + [x];
      FirstIndexSnoc(p, s[1..], x);
    }
  }

  /** A prefix one longer is the prefix extended by the next element. */
  lemma TakeSnoc<T>(s: seq<T>, i: nat)
    requires i < |s|
    ensures s[..i + 1] == s[..i] + [s[i]]
  {
  }
}
