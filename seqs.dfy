/** The JavaScript array operations the modelled code relies on: `filter`, `findIndex`,
    `slice` (with its negative-index rules) and `reverse`. */
module Seqs {

  /** The smaller of two integers. */
  function Min(a: int, b: int): int { if a <= b then a else b }

  /** `s.filter(f)`: the elements satisfying `f`, in their original order. */
  function Filter<T>(s: seq<T>, f: T -> bool): (r: seq<T>)
    ensures |r| <= |s|
    ensures forall i :: 0 <= i < |r| ==> r[i] in s && f(r[i])
    ensures forall i :: 0 <= i < |s| && f(s[i]) ==> s[i] in r
    ensures multiset(r) <= multiset(s)
  {
    if s == [] then []
    else
      assert s == [s[0]] + s[1..];
      if f(s[0]) then [s[0]] + Filter(s[1..], f) else Filter(s[1..], f)
  }

  /** Filtering one more element onto the end extends the result by that element when it
      passes; this is what a loop that pushes the passing elements maintains. */
  lemma {:induction false} FilterAppend<T>(s: seq<T>, x: T, f: T -> bool)
    ensures Filter(s + [x], f) == Filter(s, f) + (if f(x) then [x] else [])
  {
    if s == [] {
      assert [] + [x] == [x];
      assert [x][1..] == [];
    } else {
      assert (s + [x])[0] == s[0];
      assert (s + [x])[1..] == s[1..] + [x];
      FilterAppend(s[1..], x, f);
    }
  }

  /** Filtering a concatenation filters each part and concatenates the results. */
  lemma {:induction false} FilterConcat<T>(a: seq<T>, b: seq<T>, f: T -> bool)
    ensures Filter(a + b, f) == Filter(a, f) + Filter(b, f)
  {
    if a == [] {
      assert [] + b == b;
    } else {
      assert (a + b)[0] == a[0];
      assert (a + b)[1..] == a[1..] + b;
      FilterConcat(a[1..], b, f);
    }
  }

  /** A sequence is its part before `k`, its element at `k` and its part after `k`. */
  lemma SplitAround<T>(s: seq<T>, k: nat)
    requires k < |s|
    ensures s == s[..k] + [s[k]] + s[k + 1..]
  {
  }

  /** Filtering out one failing element between two parts that pass leaves the two parts. */
  lemma FilterDropOne<T>(pre: seq<T>, x: T, post: seq<T>, f: T -> bool)
    requires Filter(pre, f) == pre && Filter(post, f) == post && !f(x)
    ensures Filter(pre + [x] + post, f) == pre + post
  {
    FilterAppend(pre, x, f);
    assert Filter(pre + [x], f) == pre;
    FilterConcat(pre + [x], post, f);
  }

  /** Filtering out the one failing element at `k`, when the elements before and after it
      all pass, leaves the sequence with just that element cut out. */
  lemma FilterDropAt<T>(s: seq<T>, k: nat, f: T -> bool)
    requires k < |s|
    requires Filter(s[..k], f) == s[..k] && Filter(s[k + 1..], f) == s[k + 1..] && !f(s[k])
    ensures Filter(s, f) == s[..k] + s[k + 1..]
  {
    SplitAround(s, k);
    FilterDropOne(s[..k], s[k], s[k + 1..], f);
  }

  /** Filtering with a test every element passes gives the sequence back. */
  lemma {:induction false} FilterAll<T>(s: seq<T>, f: T -> bool)
    requires forall j :: 0 <= j < |s| ==> f(s[j])
    ensures Filter(s, f) == s
  {
    if s != [] {
      FilterAll(s[1..], f);
    }
  }

  /** Filtering with a test no element passes gives the empty sequence. */
  lemma {:induction false} FilterNone<T>(s: seq<T>, f: T -> bool)
    requires forall j :: 0 <= j < |s| ==> !f(s[j])
    ensures Filter(s, f) == []
  {
    if s != [] {
      FilterNone(s[1..], f);
    }
  }

  /** Filtering a slice whose elements all pass gives the slice back. */
  lemma FilterSliceAll<T>(s: seq<T>, f: T -> bool, lo: nat, hi: nat)
    requires lo <= hi <= |s|
    requires forall i :: lo <= i < hi ==> f(s[i])
    ensures Filter(s[lo..hi], f) == s[lo..hi]
  {
    var t := s[lo..hi];
    forall j | 0 <= j < |t| ensures f(t[j]) {
      assert t[j] == s[lo + j];
    }
    FilterAll(t, f);
  }

  /** Filtering a slice none of whose elements pass gives the empty sequence. */
  lemma FilterSliceNone<T>(s: seq<T>, f: T -> bool, lo: nat, hi: nat)
    requires lo <= hi <= |s|
    requires forall i :: lo <= i < hi ==> !f(s[i])
    ensures Filter(s[lo..hi], f) == []
  {
    var t := s[lo..hi];
    forall j | 0 <= j < |t| ensures !f(t[j]) {
      assert t[j] == s[lo + j];
    }
    FilterNone(t, f);
  }

  /** Filtering three parts of which only the middle one passes leaves the middle one. */
  lemma FilterMiddle<T>(pre: seq<T>, mid: seq<T>, post: seq<T>, f: T -> bool)
    requires Filter(pre, f) == [] && Filter(mid, f) == mid && Filter(post, f) == []
    ensures Filter(pre + mid + post, f) == mid
  {
    FilterConcat(pre, mid, f);
    assert Filter(pre + mid, f) == mid;
    FilterConcat(pre + mid, post, f);
  }

  /** A sequence is its part before `lo`, its slice `[lo, hi)` and its part from `hi`. */
  lemma SplitThree<T>(s: seq<T>, lo: nat, hi: nat)
    requires lo <= hi <= |s|
    ensures s == s[0..lo] + s[lo..hi] + s[hi..|s|]
  {
  }

  /** When exactly the elements at `[lo, hi)` pass, the filter is that slice. */
  lemma FilterRange<T>(s: seq<T>, f: T -> bool, lo: nat, hi: nat)
    requires lo <= hi <= |s|
    requires forall i :: 0 <= i < |s| ==> (f(s[i]) <==> lo <= i < hi)
    ensures Filter(s, f) == s[lo..hi]
  {
    FilterSliceNone(s, f, 0, lo);
    FilterSliceAll(s, f, lo, hi);
    FilterSliceNone(s, f, hi, |s|);
    SplitThree(s, lo, hi);
    FilterMiddle(s[0..lo], s[lo..hi], s[hi..|s|], f);
  }

  /** `s.findIndex(f)`: the first index whose element satisfies `f`, or -1. */
  function FindIndex<T>(s: seq<T>, f: T -> bool): (r: int)
    ensures -1 <= r < |s|
    ensures r >= 0 ==> f(s[r]) && forall j :: 0 <= j < r ==> !f(s[j])
    ensures r == -1 <==> forall j :: 0 <= j < |s| ==> !f(s[j])
  {
    if s == [] then -1
    else if f(s[0]) then 0
    else
      var k := FindIndex(s[1..], f);
      if k == -1 then -1 else k + 1
  }

  /** The first index whose element satisfies `f` is the one `findIndex` returns. */
  lemma FindIndexAt<T>(s: seq<T>, f: T -> bool, k: nat)
    requires k < |s| && f(s[k])
    requires forall j :: 0 <= j < k ==> !f(s[j])
    ensures FindIndex(s, f) == k
  {
  }

  /** How `slice` turns an argument into a position: a negative `k` counts back from the
      end, and the result is clamped to `[0, len]`. */
  function SliceIndex(len: nat, k: int): (r: nat)
    ensures r <= len
    ensures 0 <= k <= len ==> r == k
    ensures k > len ==> r == len
    ensures k < -(len as int) ==> r == 0
    ensures -(len as int) <= k < 0 ==> r as int == len as int + k
  {
    if k < 0 then (if len + k < 0 then 0 else len + k)
    else if k > len then len
    else k
  }

  /** `s.slice(start, end)`; `s.slice(start)` is `JsSlice(s, start, |s|)`. */
  function JsSlice<T>(s: seq<T>, start: int, end: int): (r: seq<T>)
    ensures |r| <= |s|
    ensures forall i :: 0 <= i < |r| ==> r[i] in s
  {
    var a := SliceIndex(|s|, start);
    var b := SliceIndex(|s|, end);
    if a < b then s[a..b] else []
  }

  /** A slice never holds more than `end - start` elements when `start <= end`, whatever
      the signs of the two arguments. */
  lemma JsSliceLength<T>(s: seq<T>, start: int, end: int)
    requires start <= end
    ensures |JsSlice(s, start, end)| <= end - start
  {
    var n := |s|;
    var a := SliceIndex(n, start);
    var b := SliceIndex(n, end);
    if a < b {
      if start >= 0 {
        assert a == (if start > n then n else start);
      } else if end < 0 {
        assert a >= n + start && b == (if n + end < 0 then 0 else n + end);
      } else {
        assert a >= n + start && b <= end;
      }
    }
  }

  /** `s.reverse()` on a fresh array. */
  function Reverse<T>(s: seq<T>): (r: seq<T>)
    ensures |r| == |s|
    ensures forall i :: 0 <= i < |s| ==> r[i] == s[|s| - 1 - i]
  {
    seq(|s|, i requires 0 <= i < |s| => s[|s| - 1 - i])
  }

  /** `s.slice(-n).reverse()` for `n >= 1`: the last `min(n, |s|)` elements, the last one
      first. (`s.slice(-0)` is the whole of `s`.) */
  lemma LastReversed<T>(s: seq<T>, n: nat) returns (r: seq<T>)
    requires n >= 1
    ensures r == Reverse(JsSlice(s, -(n as int), |s|))
    ensures |r| == Min(|s|, n)
    ensures forall k :: 0 <= k < |r| ==> r[k] == s[|s| - 1 - k]
  {
    var m := Min(|s|, n);
    var t := s[|s| - m..];
    assert SliceIndex(|s|, -(n as int)) == |s| - m;
    assert JsSlice(s, -(n as int), |s|) == t;
    r := Reverse(t);
    forall k | 0 <= k < |r| ensures r[k] == s[|s| - 1 - k] {
      assert r[k] == t[m - 1 - k];
    }
  }
}
