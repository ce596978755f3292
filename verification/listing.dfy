/**
  The LINQ operators the listing endpoints are built from: `Where`,
  `Count`, `Skip`/`Take` paging and `OrderByDescending(...).Take(n)`.
  Database queries and in-memory lists are both modelled as sequences in
  storage order.
 */
module Listing {
  import opened Wrappers

  // ---------------------------------------------------------------- Where / Count

  /** `s.Where(p)`: the elements satisfying `p`, in their original order. */
  function Filter<T>(s: seq<T>, p: T -> bool): (r: seq<T>)
    ensures |r| <= |s|
    ensures forall i :: 0 <= i < |r| ==> p(r[i])
  {
    if |s| == 0 then []
    else (if p(s[0]) then [s[0]] else []) + Filter(s[1..], p)
  }

  /** `a` can be obtained from `b` by deleting elements. */
  predicate IsSubsequence<T(==)>(a: seq<T>, b: seq<T>)
    decreases |b|
  {
    if |a| == 0 then true
    else if |b| == 0 then false
    else if a[0] == b[0] then IsSubsequence(a[1..], b[1..])
    else IsSubsequence(a, b[1..])
  }

  /**
    `Where` keeps exactly the elements satisfying the predicate, keeps their
    order (the result is a subsequence) and drops nothing else.
   */
  lemma {:induction false} FilterSpec<T>(s: seq<T>, p: T -> bool)
    ensures forall x :: x in Filter(s, p) <==> x in s && p(x)
    ensures IsSubsequence(Filter(s, p), s)
  {
    if |s| > 0 {
      FilterSpec(s[1..], p);
      var rest := Filter(s[1..], p);
      if p(s[0]) {
        assert Filter(s, p) == [s[0]] + rest;
        assert ([s[0]] + rest)[1..] == rest;
      } else {
        assert Filter(s, p) == rest;
      }
      assert forall x :: x in s <==> x == s[0] || x in s[1..];
    }
  }

  /** The conjunction of two predicates. */
  function Both<T>(p: T -> bool, q: T -> bool): T -> bool {
    x => p(x) && q(x)
  }

  /** Two `Where` calls in a row are one `Where` on the conjunction. */
  lemma {:induction false} FilterFilter<T>(s: seq<T>, p: T -> bool, q: T -> bool)
    ensures Filter(Filter(s, p), q) == Filter(s, Both(p, q))
  {
    if |s| > 0 {
      FilterFilter(s[1..], p, q);
      assert Both(p, q)(s[0]) == (p(s[0]) && q(s[0]));
      var rest := Filter(s[1..], p);
      if p(s[0]) {
        var f := [s[0]] + rest;
        assert Filter(s, p) == f;
        assert f[0] == s[0] && f[1..] == rest;
        assert Filter(f, q) == (if q(s[0]) then [s[0]] else []) + Filter(rest, q);
      } else {
        assert Filter(s, p) == rest;
      }
    }
  }

  /** `Where(p)` with `p` true everywhere on `s` changes nothing. */
  lemma {:induction false} FilterAll<T>(s: seq<T>, p: T -> bool)
    requires forall i :: 0 <= i < |s| ==> p(s[i])
    ensures Filter(s, p) == s
  {
    if |s| > 0 {
      FilterAll(s[1..], p);
    }
  }

  /** `Where` depends only on which elements the predicate accepts. */
  lemma {:induction false} FilterCongruent<T>(s: seq<T>, p: T -> bool, q: T -> bool)
    requires forall i :: 0 <= i < |s| ==> p(s[i]) == q(s[i])
    ensures Filter(s, p) == Filter(s, q)
  {
    if |s| > 0 {
      FilterCongruent(s[1..], p, q);
    }
  }

  // ---------------------------------------------------------------- subsequences

  lemma {:induction false} SubsequenceRefl<T>(s: seq<T>)
    ensures IsSubsequence(s, s)
  {
    if |s| > 0 {
      SubsequenceRefl(s[1..]);
    }
  }

  /** Dropping the first element of the shorter side keeps the relation. */
  lemma {:induction false} SubsequenceDropFirst<T>(a: seq<T>, c: seq<T>)
    requires |a| > 0 && IsSubsequence(a, c)
    ensures IsSubsequence(a[1..], c)
    decreases |c|, 1
  {
    if a[0] == c[0] {
      SubsequenceExtend(a[1..], c);
    } else {
      SubsequenceDropFirst(a, c[1..]);
      SubsequenceExtend(a[1..], c);
    }
  }

  /** Putting an element in front of the longer side keeps the relation. */
  lemma {:induction false} SubsequenceExtend<T>(a: seq<T>, c: seq<T>)
    requires |c| > 0 && IsSubsequence(a, c[1..])
    ensures IsSubsequence(a, c)
    decreases |c|, 0
  {
    if |a| > 0 && a[0] == c[0] {
      SubsequenceDropFirst(a, c[1..]);
    }
  }

  lemma {:induction false} SubsequenceTrans<T>(a: seq<T>, b: seq<T>, c: seq<T>)
    requires IsSubsequence(a, b) && IsSubsequence(b, c)
    ensures IsSubsequence(a, c)
    decreases |c|
  {
    if |a| > 0 && |c| > 0 {
      if b[0] == c[0] {
        if a[0] == b[0] {
          SubsequenceTrans(a[1..], b[1..], c[1..]);
        } else {
          SubsequenceTrans(a, b[1..], c[1..]);
          SubsequenceExtend(a, c);
        }
      } else {
        SubsequenceTrans(a, b, c[1..]);
        SubsequenceExtend(a, c);
      }
    }
  }

  /** A contiguous run of a sequence is a subsequence of it. */
  lemma {:induction false} SliceIsSubsequence<T>(s: seq<T>, lo: nat, hi: nat)
    requires lo <= hi <= |s|
    ensures IsSubsequence(s[lo..hi], s)
    decreases |s|
  {
    if lo > 0 {
      SliceIsSubsequence(s[1..], lo - 1, hi - 1);
      assert s[1..][lo - 1..hi - 1] == s[lo..hi];
      SubsequenceExtend(s[lo..hi], s);
    } else if hi > 0 {
      SliceIsSubsequence(s[1..], 0, hi - 1);
      assert s[1..][0..hi - 1] == s[lo..hi][1..];
    }
  }

  /** Deleting one element leaves a subsequence. */
  lemma {:induction false} RemoveAtIsSubsequence<T>(s: seq<T>, i: nat)
    requires i < |s|
    ensures IsSubsequence(RemoveAt(s, i), s)
    decreases i
  {
    var r := RemoveAt(s, i);
    if i == 0 {
      assert r == s[1..];
      SubsequenceRefl(r);
      SubsequenceExtend(r, s);
    } else {
      RemoveAtIsSubsequence(s[1..], i - 1);
      assert r[1..] == RemoveAt(s[1..], i - 1);
      assert r[0] == s[0];
    }
  }

  /** The first index only reads the predicate's verdict at each position. */
  lemma {:induction false} FirstIndexSame<T, U>(a: seq<T>, p: T -> bool, b: seq<U>, q: U -> bool)
    requires |a| == |b| && forall j :: 0 <= j < |a| ==> p(a[j]) == q(b[j])
    ensures FirstIndex(a, p) == FirstIndex(b, q)
  {
  }

  /** `if (active) s = s.Where(p)`: a filter applied only on request. */
  function WhereIf<T>(s: seq<T>, active: bool, p: T -> bool): seq<T> {
    if active then Filter(s, p) else s
  }

  /** The predicate of a filter applied on request: "not requested, or accepted". */
  function OrSkipped<T>(active: bool, p: T -> bool): T -> bool {
    x => !active || p(x)
  }

  lemma WhereIfIsFilter<T>(s: seq<T>, active: bool, p: T -> bool)
    ensures WhereIf(s, active, p) == Filter(s, OrSkipped(active, p))
  {
    if active {
      FilterCongruent(s, p, OrSkipped(active, p));
    } else {
      FilterAll(s, OrSkipped(active, p));
    }
  }

  /** One more optional filter on an already filtered sequence filters by the conjunction. */
  lemma WhereIfStep<T>(s: seq<T>, w: seq<T>, f: T -> bool, active: bool, p: T -> bool)
    requires w == Filter(s, f)
    ensures WhereIf(w, active, p) == Filter(s, Both(f, OrSkipped(active, p)))
  {
    WhereIfIsFilter(w, active, p);
    FilterFilter(s, f, OrSkipped(active, p));
  }

  lemma ChainPointwise<T>(x: T, a1: bool, p1: T -> bool, a2: bool, p2: T -> bool,
                          a3: bool, p3: T -> bool, q: T -> bool)
    requires q(x) == ((!a1 || p1(x)) && (!a2 || p2(x)) && (!a3 || p3(x)))
    ensures Both(Both(OrSkipped(a1, p1), OrSkipped(a2, p2)), OrSkipped(a3, p3))(x) == q(x)
  {
  }

  /** Three optional filters in a row are one filter by their conjunction. */
  lemma WhereIfChain<T>(s: seq<T>, a1: bool, p1: T -> bool, a2: bool, p2: T -> bool,
                        a3: bool, p3: T -> bool, q: T -> bool)
    requires forall x :: q(x) == ((!a1 || p1(x)) && (!a2 || p2(x)) && (!a3 || p3(x)))
    ensures WhereIf(WhereIf(WhereIf(s, a1, p1), a2, p2), a3, p3) == Filter(s, q)
  {
    var f1 := OrSkipped(a1, p1);
    var f12 := Both(f1, OrSkipped(a2, p2));
    var f123 := Both(f12, OrSkipped(a3, p3));
    var w1 := WhereIf(s, a1, p1);
    WhereIfIsFilter(s, a1, p1);
    var w2 := WhereIf(w1, a2, p2);
    WhereIfStep(s, w1, f1, a2, p2);
    WhereIfStep(s, w2, f12, a3, p3);
    forall i | 0 <= i < |s|
      ensures f123(s[i]) == q(s[i])
    {
      ChainPointwise(s[i], a1, p1, a2, p2, a3, p3, q);
    }
    FilterCongruent(s, f123, q);
  }

  /** `s.Count(p)` (also `s.Where(p).CountAsync()`). */
  function Count<T>(s: seq<T>, p: T -> bool): nat {
    |Filter(s, p)|
  }

  /**
    Counting two predicates that never hold together counts at most the
    whole sequence, and a predicate and its negation count it exactly.
   */
  lemma {:induction false} CountDisjoint<T>(s: seq<T>, p: T -> bool, q: T -> bool)
    requires forall i :: 0 <= i < |s| ==> !(p(s[i]) && q(s[i]))
    ensures Count(s, p) + Count(s, q) <= |s|
    ensures (forall i :: 0 <= i < |s| ==> p(s[i]) || q(s[i])) ==> Count(s, p) + Count(s, q) == |s|
    ensures (exists i :: 0 <= i < |s| && !p(s[i]) && !q(s[i])) ==> Count(s, p) + Count(s, q) < |s|
  {
    if |s| > 0 {
      CountDisjoint(s[1..], p, q);
      if exists i :: 0 <= i < |s| && !p(s[i]) && !q(s[i]) {
        var i :| 0 <= i < |s| && !p(s[i]) && !q(s[i]);
        if i > 0 {
          assert s[1..][i - 1] == s[i];
        }
      }
    }
  }

  /** Replacing one element changes the count by that element's verdicts only. */
  lemma {:induction false} CountUpdate<T>(s: seq<T>, i: nat, x: T, p: T -> bool)
    requires i < |s|
    ensures Count(s[i := x], p) == Count(s, p) - (if p(s[i]) then 1 else 0) + (if p(x) then 1 else 0)
    decreases i
  {
    if i == 0 {
      assert s[i := x][1..] == s[1..];
    } else {
      CountUpdate(s[1..], i - 1, x, p);
      assert s[i := x][1..] == s[1..][i - 1 := x];
    }
  }

  /** Appending one element adds its verdict to the count. */
  lemma {:induction false} CountAppend<T>(s: seq<T>, x: T, p: T -> bool)
    ensures Count(s + [x], p) == Count(s, p) + (if p(x) then 1 else 0)
    decreases |s|
  {
    if |s| == 0 {
      assert (s + [x])[1..] == [];
    } else {
      CountAppend(s[1..], x, p);
      assert (s + [x])[1..] == s[1..] + [x];
    }
  }
  /** The positions of `s` at which `p` holds. */
  function Positions<T>(s: seq<T>, p: T -> bool): (r: set<int>)
    ensures forall j :: j in r <==> 0 <= j < |s| && p(s[j])
  {
    set j | 0 <= j < |s| && p(s[j])
  }

  /** The count is the number of positions at which the condition holds. */
  lemma {:induction false} CountIsCardinality<T>(s: seq<T>, p: T -> bool)
    ensures Count(s, p) == |Positions(s, p)|
    decreases |s|
  {
    var all := Positions(s, p);
    if |s| == 0 {
      assert all == {};
    } else {
      var t := s[..|s| - 1];
      var x := s[|s| - 1];
      assert s == t + [x];
      CountIsCardinality(t, p);
      CountAppend(t, x, p);
      var front := Positions(t, p);
      if p(x) {
        assert all == front + {|t|};
      } else {
        assert all == front;
      }
    }
  }


  /** A weaker predicate counts at least as many elements; strictly more when it alone holds somewhere. */
  lemma {:induction false} CountMono<T>(s: seq<T>, p: T -> bool, q: T -> bool)
    requires forall i :: 0 <= i < |s| ==> p(s[i]) ==> q(s[i])
    ensures Count(s, p) <= Count(s, q)
    ensures (exists i :: 0 <= i < |s| && q(s[i]) && !p(s[i])) ==> Count(s, p) < Count(s, q)
  {
    if |s| > 0 {
      CountMono(s[1..], p, q);
      if exists i :: 0 <= i < |s| && q(s[i]) && !p(s[i]) {
        var i :| 0 <= i < |s| && q(s[i]) && !p(s[i]);
        if i > 0 {
          assert s[1..][i - 1] == s[i];
        }
      }
    }
  }

  // ---------------------------------------------------------------- lookup and removal

  /**
    The position of the first element satisfying `p` (`FirstOrDefault`,
    `FindAsync` on a key): `None` exactly when no element does.
   */
  function FirstIndex<T>(s: seq<T>, p: T -> bool): (r: Option<nat>)
    ensures r.Some? ==> r.value < |s| && p(s[r.value])
    ensures r.Some? ==> forall j :: 0 <= j < r.value ==> !p(s[j])
    ensures r.None? <==> forall j :: 0 <= j < |s| ==> !p(s[j])
  {
    if |s| == 0 then None
    else if p(s[0]) then Some(0)
    else match FirstIndex(s[1..], p)
      case None => None
      case Some(i) => Some(i + 1)
  }

  /** `s` without its element at position `i`. */
  function RemoveAt<T>(s: seq<T>, i: nat): (r: seq<T>)
    requires i < |s|
    ensures |r| == |s| - 1
    ensures forall j :: 0 <= j < i ==> r[j] == s[j]
    ensures forall j :: i <= j < |r| ==> r[j] == s[j + 1]
  {
    s[..i] + s[i + 1..]
  }

  // ---------------------------------------------------------------- Skip / Take

  /** `s.Skip(n)`: a non-positive count skips nothing. */
  function Skip<T>(s: seq<T>, n: int): seq<T> {
    if n <= 0 then s else if n >= |s| then [] else s[n..]
  }

  /** `s.Take(n)`: a non-positive count takes nothing. */
  function Take<T>(s: seq<T>, n: int): seq<T> {
    if n <= 0 then [] else if n >= |s| then s else s[..n]
  }

  function Min(a: int, b: int): int { if a <= b then a else b }
  function Max(a: int, b: int): int { if a >= b then a else b }

  /** The offset `(page - 1) * pageSize`, computed without overflow. */
  function PageOffset(page: int, pageSize: int): int {
    (page - 1) * pageSize
  }

  /** `s.Skip((page - 1) * pageSize).Take(pageSize)`. */
  function Page<T>(s: seq<T>, page: int, pageSize: int): (r: seq<T>)
    ensures |r| <= Max(pageSize, 0)
  {
    Take(Skip(s, PageOffset(page, pageSize)), pageSize)
  }

  /**
    A page is the contiguous run of `s` that starts at the clamped offset
    and holds as many elements as fit, up to `pageSize`.
   */
  lemma PageIsSlice<T>(s: seq<T>, page: int, pageSize: int)
    ensures var o := Min(Max(PageOffset(page, pageSize), 0), |s|);
            var n := Min(Max(pageSize, 0), |s| - o);
            Page(s, page, pageSize) == s[o..o + n]
  {
    var o := Min(Max(PageOffset(page, pageSize), 0), |s|);
    assert Skip(s, PageOffset(page, pageSize)) == s[o..];
  }

  /**
    With positive page numbers and sizes, paging partitions the sequence:
    element `i` is found on page `i / pageSize + 1` at position `i % pageSize`.
   */
  lemma PagePartition<T>(s: seq<T>, pageSize: int, i: int)
    requires pageSize >= 1 && 0 <= i < |s|
    ensures var p := Page(s, i / pageSize + 1, pageSize);
            i % pageSize < |p| && p[i % pageSize] == s[i]
  {
    var page := i / pageSize + 1;
    assert PageOffset(page, pageSize) == i - i % pageSize;
    PageIsSlice(s, page, pageSize);
  }

  /**
    A page of a filtered sequence holds only accepted elements of the
    original, in their original order, as one contiguous run of the
    accepted ones.
   */
  lemma PageOfFilter<T>(s: seq<T>, p: T -> bool, page: int, pageSize: int)
    ensures var m := Filter(s, p);
      var r := Page(m, page, pageSize);
      && (forall x :: x in r ==> x in s && p(x))
      && IsSubsequence(r, s)
      && var o := Min(Max(PageOffset(page, pageSize), 0), |m|);
         r == m[o..o + Min(Max(pageSize, 0), |m| - o)]
  {
    var m := Filter(s, p);
    PageIsSlice(m, page, pageSize);
    PageWithin(m, page, pageSize);
    FilterSpec(s, p);
    SubsequenceTrans(Page(m, page, pageSize), m, s);
  }

  /**
    The same facts in one place: the page of the matches holds matching
    elements of `s` in their order, and is the run of matches that starts at
    the clamped offset and holds as many as fit, up to `pageSize`.
   */
  lemma FilteredPage<T>(s: seq<T>, p: T -> bool, page: int, pageSize: int)
    ensures var m := Filter(s, p);
      var r := Page(m, page, pageSize);
      var o := Min(Max(PageOffset(page, pageSize), 0), |m|);
      && (forall x :: x in r ==> x in s && p(x))
      && IsSubsequence(r, s)
      && r == m[o..o + Min(Max(pageSize, 0), |m| - o)]
  {
    PageOfFilter(s, p, page, pageSize);
    PageIsSlice(Filter(s, p), page, pageSize);
  }

  /** The same facts about a listing reply that carries the page of the matches and their count. */
  lemma FilteredPageResult<T>(s: seq<T>, p: T -> bool, page: int, pageSize: int, r: PageResult<T>)
    requires r == PageResult(Page(Filter(s, p), page, pageSize), Count(s, p), page, pageSize)
    ensures r.totalItems == Count(s, p)
    ensures IsSubsequence(r.items, s)
    ensures var m := Filter(s, p);
      var o := Min(Max(PageOffset(page, pageSize), 0), |m|);
      r.items == m[o..o + Min(Max(pageSize, 0), |m| - o)]
  {
    FilteredPage(s, p, page, pageSize);
  }

  /** A page holds elements of the sequence only, in its order. */
  lemma PageWithin<T>(s: seq<T>, page: int, pageSize: int)
    ensures forall x :: x in Page(s, page, pageSize) ==> x in s
    ensures IsSubsequence(Page(s, page, pageSize), s)
  {
    var o := Min(Max(PageOffset(page, pageSize), 0), |s|);
    var n := Min(Max(pageSize, 0), |s| - o);
    PageIsSlice(s, page, pageSize);
    SliceIsSubsequence(s, o, o + n);
  }

  /** `PaginatedResultDto`, and the anonymous envelope of the same shape. */
  datatype PageResult<T> = PageResult(items: seq<T>, totalItems: int, page: int, pageSize: int)

  /** A page past the end of the sequence is empty. */
  lemma PagePastEnd<T>(s: seq<T>, page: int, pageSize: int)
    requires pageSize >= 1 && PageOffset(page, pageSize) >= |s|
    ensures Page(s, page, pageSize) == []
  {
  }

  // ---------------------------------------------------------------- 32-bit offset

  const Int32Min: int := -0x8000_0000
  const Int32Max: int := 0x7FFF_FFFF

  predicate IsInt32(x: int) { Int32Min <= x <= Int32Max }

  /** C#'s unchecked `int` arithmetic: reduce modulo 2^32 into the signed range. */
  function Wrap32(x: int): (r: int)
    ensures IsInt32(r)
  {
    (x - Int32Min) % 0x1_0000_0000 + Int32Min
  }

  /** `(page - 1) * pageSize` as the source computes it, in 32-bit `int`. */
  function PageOffsetAsWritten(page: int, pageSize: int): (r: int)
    requires IsInt32(page) && IsInt32(pageSize)
    ensures IsInt32(r)
  {
    Wrap32(Wrap32(page - 1) * pageSize)
  }

  /** `s.Skip((page - 1) * pageSize).Take(pageSize)` with the wrapping offset. */
  function PageAsWritten<T>(s: seq<T>, page: int, pageSize: int): seq<T>
    requires IsInt32(page) && IsInt32(pageSize)
  {
    Take(Skip(s, PageOffsetAsWritten(page, pageSize)), pageSize)
  }

  /**
    Page 1073741825 of size 4 has offset 2^32, which wraps to 0: the
    as-written paging serves the first page again instead of an empty page.
   */
  lemma OffsetOverflowRepeatsFirstPage()
    ensures PageAsWritten([10, 11, 12, 13, 14, 15], 1073741825, 4) == [10, 11, 12, 13]
    ensures Page([10, 11, 12, 13, 14, 15], 1073741825, 4) == []
  {
    assert PageOffsetAsWritten(1073741825, 4) == 0;
  }

  /** Where the product fits in 32 bits, the as-written offset is the true offset. */
  lemma OffsetAgreesWithoutOverflow(page: int, pageSize: int)
    requires IsInt32(page) && IsInt32(pageSize) && IsInt32(page - 1)
    requires IsInt32((page - 1) * pageSize)
    ensures PageOffsetAsWritten(page, pageSize) == PageOffset(page, pageSize)
  {
  }

  // ---------------------------------------------------------------- OrderByDescending

  predicate SortedDesc<T>(s: seq<T>, key: T -> int) {
    forall i, j :: 0 <= i < j < |s| ==> key(s[i]) >= key(s[j])
  }

  /** Insert `x` before the first element whose key is not larger than its own. */
  function InsertDesc<T(==)>(x: T, s: seq<T>, key: T -> int): (r: seq<T>)
    requires SortedDesc(s, key)
    ensures SortedDesc(r, key)
    ensures multiset(r) == multiset(s) + multiset{x}
  {
    if |s| == 0 then [x]
    else if key(x) >= key(s[0]) then [x] + s
    else
      var tail := InsertDesc(x, s[1..], key);
      assert s == [s[0]] + s[1..];
      forall k | 0 <= k < |tail| ensures key(tail[k]) <= key(s[0]) {
        assert tail[k] in multiset(tail);
        if tail[k] != x {
          assert tail[k] in multiset(s[1..]);
          var m :| 0 <= m < |s[1..]| && s[1..][m] == tail[k];
          assert s[m + 1] == tail[k];
        }
      }
      [s[0]] + tail
  }

  /**
    `s.OrderByDescending(key)`: a stable sort, elements with equal keys keep
    their storage order.
   */
  function SortDesc<T(==)>(s: seq<T>, key: T -> int): (r: seq<T>)
    ensures SortedDesc(r, key)
    ensures multiset(r) == multiset(s)
  {
    if |s| == 0 then []
    else
      assert s == [s[0]] + s[1..];
      InsertDesc(s[0], SortDesc(s[1..], key), key)
  }

  /** `s.OrderByDescending(key).Take(n)`. */
  function TopN<T(==)>(s: seq<T>, n: nat, key: T -> int): seq<T> {
    Take(SortDesc(s, key), n)
  }

  /** In a descending sequence, everything after position `k` is at most everything before it. */
  lemma SortedSplit<T>(sorted: seq<T>, k: nat, key: T -> int)
    requires SortedDesc(sorted, key) && k <= |sorted|
    ensures forall x, i :: x in sorted[k..] && 0 <= i < k ==> key(x) <= key(sorted[i])
  {
    forall x, i | x in sorted[k..] && 0 <= i < k
      ensures key(x) <= key(sorted[i])
    {
      var j :| 0 <= j < |sorted[k..]| && sorted[k..][j] == x;
      assert sorted[k + j] == x;
    }
  }

  /** Cutting a sequence in two splits its multiset. */
  lemma SplitMultiset<T>(s: seq<T>, k: nat)
    requires k <= |s|
    ensures multiset(s) == multiset(s[..k]) + multiset(s[k..])
  {
    assert s == s[..k] + s[k..];
  }

  /**
    The first `n` by descending key: as many as there are (at most `n`),
    drawn from `s`, newest first, and none of the left-out elements has a
    larger key than any returned one.
   */
  lemma TopNSpec<T>(s: seq<T>, n: nat, key: T -> int)
    ensures |TopN(s, n, key)| == Min(n, |s|)
    ensures SortedDesc(TopN(s, n, key), key)
    ensures multiset(TopN(s, n, key)) <= multiset(s)
    ensures forall x, i :: x in multiset(s) - multiset(TopN(s, n, key)) && 0 <= i < |TopN(s, n, key)|
              ==> key(x) <= key(TopN(s, n, key)[i])
  {
    var sorted := SortDesc(s, key);
    var k := Min(n, |s|);
    assert |sorted| == |s| by {
      assert |multiset(sorted)| == |multiset(s)|;
    }
    var r := TopN(s, n, key);
    assert r == sorted[..k];
    SplitMultiset(sorted, k);
    SortedSplit(sorted, k, key);
    forall x, i | x in multiset(s) - multiset(r) && 0 <= i < |r|
      ensures key(x) <= key(r[i])
    {
      assert x in multiset(sorted[k..]);
      assert x in sorted[k..];
    }
  }
}
