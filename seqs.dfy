/** Order-keeping selection and truncation of sequences: the query and `to_list(n)` of the store. */
module Seqs {

  /** The elements of `s` that satisfy `p`, in their order in `s`. */
  function Filter<T(!new)>(s: seq<T>, p: T -> bool): (r: seq<T>)
    ensures |r| <= |s|
    ensures forall i :: 0 <= i < |r| ==> p(r[i])
  {
    if s == [] then []
    else
      var rest := Filter(s[1..], p);
      assert s == [s[0]] + s[1..];
      if p(s[0]) then [s[0]] + rest else rest
  }

  /**
   * The filter drops every element that fails `p` and keeps every element that
   * passes it, as many times as it occurs.
   */
  lemma {:induction false} FilterCounts<T(!new)>(s: seq<T>, p: T -> bool)
    ensures forall x :: !p(x) ==> multiset(Filter(s, p))[x] == 0
    ensures forall x :: p(x) ==> multiset(Filter(s, p))[x] == multiset(s)[x]
  {
    if s != [] {
      FilterCounts(s[1..], p);
      assert s == [s[0]] + s[1..];
    }
  }

  /** An element is in the filtered sequence exactly when it is in `s` and passes `p`. */
  lemma FilterMembers<T(!new)>(s: seq<T>, p: T -> bool)
    ensures forall x :: x in Filter(s, p) <==> x in s && p(x)
  {
    FilterCounts(s, p);
    forall x
      ensures x in Filter(s, p) <==> x in s && p(x)
    {
      assert x in Filter(s, p) <==> multiset(Filter(s, p))[x] > 0;
      assert x in s <==> multiset(s)[x] > 0;
    }
  }

  /** Filtering distributes over concatenation, which is why it keeps the order. */
  lemma {:induction false} FilterAppend<T(!new)>(a: seq<T>, b: seq<T>, p: T -> bool)
    ensures Filter(a + b, p) == Filter(a, p) + Filter(b, p)
  {
    if a == [] {
      assert a + b == b;
    } else {
      assert (a + b)[1..] == a[1..] + b;
      FilterAppend(a[1..], b, p);
    }
  }

  /** A sequence whose every element passes the filter comes back whole. */
  lemma {:induction false} FilterAll<T(!new)>(s: seq<T>, p: T -> bool)
    requires forall i :: 0 <= i < |s| ==> p(s[i])
    ensures Filter(s, p) == s
  {
    if s != [] {
      FilterAll(s[1..], p);
    }
  }

  /** Filtering out the one element that fails `p` leaves the rest in order. */
  lemma FilterDropsOne<T(!new)>(head: seq<T>, x: T, tail: seq<T>, p: T -> bool)
    requires forall i :: 0 <= i < |head| ==> p(head[i])
    requires !p(x)
    requires forall i :: 0 <= i < |tail| ==> p(tail[i])
    ensures Filter(head + [x] + tail, p) == head + tail
  {
    var hx := head + [x];
    assert Filter([x], p) == [] by {
      assert [x][1..] == [];
    }
    FilterAll(head, p);
    FilterAppend(head, [x], p);
    assert Filter(hx, p) == head by {
      assert head + [] == head;
    }
    FilterAll(tail, p);
    FilterAppend(hx, tail, p);
  }

  /** `to_list(n)`: at most the first `n` elements. */
  function Take<T(!new)>(s: seq<T>, n: nat): (r: seq<T>)
    ensures r <= s
    ensures |r| == if |s| <= n then |s| else n
  {
    if |s| <= n then s else s[..n]
  }
}
