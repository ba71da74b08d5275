/** Order-preserving selection from a sequence (`Array.prototype.filter`, and a global
    character-class `replace` with the empty string), and the subsequence relation it produces. */
module Seqs {

  /** `a` can be obtained from `b` by deleting elements, keeping the order of the rest. */
  ghost predicate IsSubsequence<T>(a: seq<T>, b: seq<T>) {
    a == [] || (b != [] && ((a[0] == b[0] && IsSubsequence(a[1..], b[1..])) || IsSubsequence(a, b[1..])))
  }

  /** The elements of `s` that satisfy `keep`, in their original order, each occurrence kept. */
  function Filter<T>(s: seq<T>, keep: T -> bool): (r: seq<T>)
    ensures |r| <= |s|
    ensures forall i :: 0 <= i < |r| ==> keep(r[i])
    ensures r == s <==> forall i :: 0 <= i < |s| ==> keep(s[i])
    ensures r == [] <==> forall i :: 0 <= i < |s| ==> !keep(s[i])
  {
    if s == [] then []
    else if keep(s[0]) then
      var rest := Filter(s[1..], keep);
      assert forall i :: 1 <= i < |s| ==> s[i] == s[1..][i - 1];
      [s[0]] + rest
    else
      var rest := Filter(s[1..], keep);
      assert forall i :: 1 <= i < |s| ==> s[i] == s[1..][i - 1];
      rest
  }

  lemma {:induction false} FilterIsSubsequence<T>(s: seq<T>, keep: T -> bool)
    ensures IsSubsequence(Filter(s, keep), s)
  {
    if s != [] {
      FilterIsSubsequence(s[1..], keep);
      if keep(s[0]) {
        assert Filter(s, keep)[1..] == Filter(s[1..], keep);
      }
    }
  }

  /** Filtering a concatenation filters each part. */
  lemma {:induction false} FilterAppend<T>(s: seq<T>, t: seq<T>, keep: T -> bool)
    ensures Filter(s + t, keep) == Filter(s, keep) + Filter(t, keep)
  {
    if s == [] {
      assert s + t == t;
    } else {
      var u := s[1..] + t;
      assert (s + t)[0] == s[0] && (s + t)[1..] == u;
      FilterAppend(s[1..], t, keep);
      if keep(s[0]) {
        assert Filter(s + t, keep) == [s[0]] + Filter(u, keep);
      } else {
        assert Filter(s + t, keep) == Filter(u, keep);
      }
    }
  }

  /** Every occurrence of a kept value survives the filter; no occurrence of any other value does. */
  lemma {:induction false} FilterCount<T>(s: seq<T>, keep: T -> bool, x: T)
    ensures multiset(Filter(s, keep))[x] == if keep(x) then multiset(s)[x] else 0
  {
    if s != [] {
      var t := s[1..];
      FilterCount(t, keep, x);
      assert s == [s[0]] + t;
      assert multiset(s) == multiset{s[0]} + multiset(t);
      if keep(s[0]) {
        assert multiset(Filter(s, keep)) == multiset{s[0]} + multiset(Filter(t, keep));
      }
    }
  }

  lemma {:induction false} SubsequenceCount<T>(a: seq<T>, b: seq<T>, x: T)
    requires IsSubsequence(a, b)
    ensures multiset(a)[x] <= multiset(b)[x]
  {
    if a != [] {
      assert b == [b[0]] + b[1..];
      if a[0] == b[0] && IsSubsequence(a[1..], b[1..]) {
        SubsequenceCount(a[1..], b[1..], x);
        assert a == [a[0]] + a[1..];
      } else {
        SubsequenceCount(a, b[1..], x);
      }
    }
  }

  /** Filter is the only subsequence of `s` that keeps every occurrence of each kept value
      and no occurrence of any other value. */
  lemma {:induction false} FilterUnique<T>(s: seq<T>, keep: T -> bool, r: seq<T>)
    requires IsSubsequence(r, s)
    requires forall x :: multiset(r)[x] == if keep(x) then multiset(s)[x] else 0
    ensures r == Filter(s, keep)
  {
    if s != [] {
      var h, t := s[0], s[1..];
      assert s == [h] + t;
      if keep(h) {
        // r must take `h` as its first element: otherwise it would be a subsequence of `t`,
        // which holds one occurrence of `h` fewer than `r` does.
        assert multiset(r)[h] == multiset(t)[h] + 1;
        if r != [] && r[0] == h && IsSubsequence(r[1..], t) {
        } else {
          SubsequenceCount(r, t, h);
          assert false;
        }
        assert r == [h] + r[1..];
        forall x ensures multiset(r[1..])[x] == if keep(x) then multiset(t)[x] else 0 {
        }
        FilterUnique(t, keep, r[1..]);
      } else {
        assert r != [] ==> r == [r[0]] + r[1..] && multiset(r)[r[0]] > 0;
        assert r != [] ==> r[0] != h;
        assert IsSubsequence(r, t);
        forall x ensures multiset(r)[x] == if keep(x) then multiset(t)[x] else 0 {
        }
        FilterUnique(t, keep, r);
      }
    }
  }
}
