/** Sequence utilities shared by the record stores: order-preserving filtering,
    the subsequence relation, pairwise ordering, and ECMAScript `Array.prototype.slice`. */
module Seqs {

  /** `a` can be obtained from `b` by deleting elements (order kept). */
  ghost predicate IsSubseq<T>(a: seq<T>, b: seq<T>)
    decreases |b|
  {
    || |a| == 0
    || (|b| > 0 && ((a[0] == b[0] && IsSubseq(a[1..], b[1..])) || IsSubseq(a, b[1..])))
  }

  /** Every element of `s` comes before every later element according to `before`. */
  ghost predicate Ordered<T>(s: seq<T>, before: (T, T) -> bool)
  {
    forall i, j :: 0 <= i < j < |s| ==> before(s[i], s[j])
  }

  /** `Array.prototype.filter`: keeps, in order, exactly the elements satisfying `keep`. */
  function Filter<T>(s: seq<T>, keep: T -> bool): (r: seq<T>)
    ensures |r| <= |s|
    ensures forall i :: 0 <= i < |r| ==> keep(r[i]) && r[i] in s
    ensures forall i :: 0 <= i < |s| && keep(s[i]) ==> s[i] in r
    ensures IsSubseq(r, s)
  {
    if |s| == 0 then []
    else
      var rest := Filter(s[1..], keep);
      if keep(s[0]) then
        assert ([s[0]] + rest)[1..] == rest;
        [s[0]] + rest
      else
        rest
  }

  /** `filter` keeps every copy of a kept value and no copy of a dropped one. */
  lemma {:induction false} FilterCounts<T>(s: seq<T>, keep: T -> bool)
    ensures forall x :: multiset(Filter(s, keep))[x] == if keep(x) then multiset(s)[x] else 0
  {
    if |s| > 0 {
      FilterCounts(s[1..], keep);
      assert s == [s[0]] + s[1..];
      var rest := Filter(s[1..], keep);
      if keep(s[0]) {
        assert Filter(s, keep) == [s[0]] + rest;
      }
    }
  }

  /** Two sequences built from the same pieces around a middle, `p + a + m + t`
      and `p + b + m + t`, are equal only if their middles are equal. */
  lemma ConcatCancel<T>(p: seq<T>, a: seq<T>, b: seq<T>, m: seq<T>, t: seq<T>)
    requires p + a + m + t == p + b + m + t
    ensures a == b
  {
    assert a == (p + a + m + t)[|p|..|p| + |a|];
  }

  /** `Array.prototype.map`. */
  function Map<T, U>(s: seq<T>, f: T -> U): seq<U>
  {
    seq(|s|, i requires 0 <= i < |s| => f(s[i]))
  }

  lemma MapConcat<T, U>(a: seq<T>, b: seq<T>, f: T -> U)
    ensures Map(a + b, f) == Map(a, f) + Map(b, f)
  {
  }

  lemma {:induction false} FilterConcat<T>(a: seq<T>, b: seq<T>, keep: T -> bool)
    ensures Filter(a + b, keep) == Filter(a, keep) + Filter(b, keep)
    decreases |a|
  {
    if |a| > 0 {
      assert (a + b)[0] == a[0];
      assert (a + b)[1..] == a[1..] + b;
      FilterConcat(a[1..], b, keep);
      if keep(a[0]) {
        assert Filter(a + b, keep) == [a[0]] + (Filter(a[1..], keep) + Filter(b, keep));
      }
    } else {
      assert a + b == b;
    }
  }

  /** Filtering with a condition every element meets changes nothing. */
  lemma {:induction false} FilterKeepsAll<T>(s: seq<T>, keep: T -> bool)
    requires forall i :: 0 <= i < |s| ==> keep(s[i])
    ensures Filter(s, keep) == s
    decreases |s|
  {
    if |s| > 0 {
      FilterKeepsAll(s[1..], keep);
    }
  }

  /** Filtering with a condition no element meets gives the empty sequence. */
  lemma {:induction false} FilterKeepsNone<T>(s: seq<T>, keep: T -> bool)
    requires forall i :: 0 <= i < |s| ==> !keep(s[i])
    ensures Filter(s, keep) == []
    decreases |s|
  {
    if |s| > 0 {
      FilterKeepsNone(s[1..], keep);
    }
  }

  lemma {:induction false} SubseqReflexive<T>(s: seq<T>)
    ensures IsSubseq(s, s)
    decreases |s|
  {
    if |s| > 0 {
      SubseqReflexive(s[1..]);
    }
  }

  lemma {:induction false} SubseqMembers<T>(a: seq<T>, b: seq<T>)
    requires IsSubseq(a, b)
    ensures forall x :: x in a ==> x in b
    decreases |b|
  {
    if |a| > 0 {
      if a[0] == b[0] && IsSubseq(a[1..], b[1..]) {
        SubseqMembers(a[1..], b[1..]);
        forall x | x in a ensures x in b {
          if x != a[0] {
            assert x in a[1..];
          }
        }
      } else {
        SubseqMembers(a, b[1..]);
      }
    }
  }

  /** A subsequence of an ordered sequence is ordered. */
  lemma {:induction false} SubseqOrdered<T>(a: seq<T>, b: seq<T>, before: (T, T) -> bool)
    requires IsSubseq(a, b)
    requires Ordered(b, before)
    ensures Ordered(a, before)
    decreases |b|
  {
    if |a| > 0 {
      if a[0] == b[0] && IsSubseq(a[1..], b[1..]) {
        SubseqOrdered(a[1..], b[1..], before);
        SubseqMembers(a[1..], b[1..]);
        forall i, j | 0 <= i < j < |a| ensures before(a[i], a[j]) {
          if i == 0 {
            assert a[j] == a[1..][j - 1];
            assert a[j] in b[1..];
            var m :| 0 <= m < |b[1..]| && b[1..][m] == a[j];
            assert b[m + 1] == a[j];
          } else {
            assert a[i] == a[1..][i - 1] && a[j] == a[1..][j - 1];
          }
        }
      } else {
        SubseqOrdered(a, b[1..], before);
      }
    }
  }

  /** ECMAScript relative index (used by `slice`): a negative index counts
      from the end, and the result is clamped into `0..len`. */
  function RelativeIndex(k: int, len: nat): (r: nat)
    ensures r <= len
    ensures 0 <= k ==> r == if k < len then k else len
    ensures k < 0 ==> r == if len + k < 0 then 0 else len + k
  {
    if k < 0 then (if len + k < 0 then 0 else len + k)
    else if k < len then k
    else len
  }

  /** `Array.prototype.slice(start, end)` on integer arguments. */
  function JsSlice<T>(s: seq<T>, start: int, end: int): (r: seq<T>)
    ensures |r| <= |s|
    ensures 0 <= start <= end ==>
              r == s[Min(start, |s|)..Min(end, |s|)]
    ensures end == 0 || end == start ==> r == []
  {
    var from := RelativeIndex(start, |s|);
    var to := RelativeIndex(end, |s|);
    if from < to then s[from..to] else []
  }

  function Min(a: int, b: int): int
  {
    if a < b then a else b
  }

  /** Offset/limit paging as `s.slice((page - 1) * pageSize, (page - 1) * pageSize + pageSize)`:
      for page 1 on and a non-negative size, the `pageSize` elements from offset
      `(page - 1) * pageSize`, cut short at the end; page 0 and size 0 give nothing. */
  function Paginate<T>(s: seq<T>, page: int, pageSize: int): (r: seq<T>)
    ensures page >= 1 && pageSize >= 0 ==>
              && 0 <= (page - 1) * pageSize
              && r == s[Min((page - 1) * pageSize, |s|)..Min((page - 1) * pageSize + pageSize, |s|)]
    ensures page >= 1 && pageSize >= 0 ==> |r| <= pageSize
    ensures page == 0 || pageSize == 0 ==> r == []
  {
    var start := (page - 1) * pageSize;
    assert page >= 1 && pageSize >= 0 ==> 0 <= start by {
      if page >= 1 && pageSize >= 0 {
        StepProduct(page, pageSize);
      }
    }
    JsSlice(s, start, start + pageSize)
  }

  lemma StepProduct(k: int, pageSize: int)
    requires k >= 1 && pageSize >= 0
    ensures 0 <= (k - 1) * pageSize
    ensures (k - 1) * pageSize + pageSize == k * pageSize
  {
  }

  /** Pages 1 to `k`, concatenated. */
  function PagesThrough<T>(s: seq<T>, k: nat, pageSize: int): seq<T>
  {
    if k == 0 then [] else PagesThrough(s, k - 1, pageSize) + Paginate(s, k, pageSize)
  }

  /** Paging neither skips nor repeats: pages 1 to `k` together are the first
      `k * pageSize` elements (or all of them). */
  lemma {:induction false} PagesFormPrefix<T>(s: seq<T>, k: nat, pageSize: int)
    requires pageSize >= 0
    ensures PagesThrough(s, k, pageSize) == s[..Min(k * pageSize, |s|)]
  {
    if k > 0 {
      PagesFormPrefix(s, k - 1, pageSize);
      StepProduct(k, pageSize);
      var a := Min((k - 1) * pageSize, |s|);
      var b := Min(k * pageSize, |s|);
      assert Paginate(s, k, pageSize) == s[a..b];
      assert s[..a] + s[a..b] == s[..b];
    }
  }

  /** Every page of an ordered sequence is ordered. */
  lemma PaginateOrdered<T>(s: seq<T>, page: int, pageSize: int, before: (T, T) -> bool)
    requires Ordered(s, before)
    ensures Ordered(Paginate(s, page, pageSize), before)
  {
    var start := (page - 1) * pageSize;
    var from := RelativeIndex(start, |s|);
    var to := RelativeIndex(start + pageSize, |s|);
    var r := Paginate(s, page, pageSize);
    if from < to {
      assert r == s[from..to];
      forall i, j | 0 <= i < j < |r|
        ensures before(r[i], r[j])
      {
        assert r[i] == s[from + i] && r[j] == s[from + j];
      }
    }
  }
}
