/** The ordering used by `sortByKey(a, b, "lastActiveDate")` together with JavaScript's stable
    `Array.prototype.sort`. The comparator's own source is not part of this model, so it is an
    abstract total preorder on the key, whose placement of a missing (`null`) date is unknown.
    A stable sort under a total preorder has exactly one possible result, computed here by a
    stable insertion sort. */
module Ordering {
  import opened Wrappers

  /** A `lastActiveDate` reading: milliseconds, or `None` for `null`/`undefined`. */
  type Date = int

  /** `le(x, y)` holds when an element keyed `x` may come before one keyed `y`, that is when
      `sortByKey` does not report `x` as greater than `y`. */
  type KeyOrder = (Option<Date>, Option<Date>) -> bool

  ghost predicate TotalPreorder(le: KeyOrder) {
    && (forall x, y :: le(x, y) || le(y, x))
    && (forall x, y, z :: le(x, y) && le(y, z) ==> le(x, z))
  }

  predicate SortedBy<T>(s: seq<T>, key: T -> Option<Date>, le: KeyOrder) {
    forall i, j :: 0 <= i < j < |s| ==> le(key(s[i]), key(s[j]))
  }

  /** Places `x` before the first element it does not sort after; `x` goes before the
      elements equivalent to it, which keeps the sort stable when `x` came first. */
  function Insert<T>(x: T, s: seq<T>, key: T -> Option<Date>, le: KeyOrder): (r: seq<T>)
    ensures |r| == |s| + 1
    ensures multiset(r) == multiset(s) + multiset{x}
  {
    if s == [] then [x]
    else if le(key(x), key(s[0])) then [x] + s
    else
      assert s == [s[0]] + s[1..];
      [s[0]] + Insert(x, s[1..], key, le)
  }

  /** `s.sort((a, b) => sortByKey(a, b, key))` on a copy of `s`. */
  function SortBy<T>(s: seq<T>, key: T -> Option<Date>, le: KeyOrder): (r: seq<T>)
    ensures |r| == |s|
    ensures multiset(r) == multiset(s)
  {
    if s == [] then []
    else
      assert s == [s[0]] + s[1..];
      Insert(s[0], SortBy(s[1..], key, le), key, le)
  }

  lemma {:induction false} InsertSorted<T>(x: T, s: seq<T>, key: T -> Option<Date>, le: KeyOrder)
    requires TotalPreorder(le)
    requires SortedBy(s, key, le)
    ensures SortedBy(Insert(x, s, key, le), key, le)
  {
    if s != [] && !le(key(x), key(s[0])) {
      var rest := Insert(x, s[1..], key, le);
      InsertSorted(x, s[1..], key, le);
      assert le(key(s[0]), key(x));
      forall j | 0 <= j < |rest| ensures le(key(s[0]), key(rest[j])) {
        assert rest[j] in multiset(rest);
        assert rest[j] == x || rest[j] in multiset(s[1..]);
        if rest[j] != x {
          var k :| 0 <= k < |s[1..]| && s[1..][k] == rest[j];
          assert s[k + 1] == rest[j];
        }
      }
    }
  }

  /** The sort yields an ordering of the same elements that is non-decreasing under `le`. */
  lemma {:induction false} SortBySorted<T>(s: seq<T>, key: T -> Option<Date>, le: KeyOrder)
    requires TotalPreorder(le)
    ensures SortedBy(SortBy(s, key, le), key, le)
  {
    if s != [] {
      SortBySorted(s[1..], key, le);
      InsertSorted(s[0], SortBy(s[1..], key, le), key, le);
    }
  }

  /** `s[k]` sorts no later than any element of `s`, and every element before it sorts
      strictly later: the element a stable sort puts first. */
  ghost predicate FirstMinimalAt<T>(s: seq<T>, k: int, key: T -> Option<Date>, le: KeyOrder) {
    && 0 <= k < |s|
    && (forall j :: 0 <= j < |s| ==> le(key(s[k]), key(s[j])))
    && (forall j :: 0 <= j < k ==> !le(key(s[j]), key(s[k])))
  }

  /** One step of `SortByHead`: the minimum of `s` given the earliest minimal element of
      `s[1..]` at index `k'`. */
  lemma ExtendFirstMinimal<T>(s: seq<T>, k': int, key: T -> Option<Date>, le: KeyOrder)
    requires TotalPreorder(le)
    requires |s| > 1
    requires FirstMinimalAt(s[1..], k', key, le)
    ensures le(key(s[0]), key(s[k' + 1])) ==> FirstMinimalAt(s, 0, key, le)
    ensures !le(key(s[0]), key(s[k' + 1])) ==> FirstMinimalAt(s, k' + 1, key, le)
  {
    var rest := s[1..];
    assert forall j :: 0 < j < |s| ==> s[j] == rest[j - 1];
    assert le(key(s[0]), key(s[0]));
  }

  /** The first element of the sorted copy is the earliest minimal element of `s`. */
  lemma {:induction false} SortByHead<T>(s: seq<T>, key: T -> Option<Date>, le: KeyOrder)
    requires TotalPreorder(le)
    requires |s| > 0
    ensures exists k :: FirstMinimalAt(s, k, key, le) && SortBy(s, key, le)[0] == s[k]
  {
    if |s| == 1 {
      assert le(key(s[0]), key(s[0]));
      assert FirstMinimalAt(s, 0, key, le);
    } else {
      var rest := s[1..];
      SortByHead(rest, key, le);
      var k' :| FirstMinimalAt(rest, k', key, le) && SortBy(rest, key, le)[0] == rest[k'];
      ExtendFirstMinimal(s, k', key, le);
      assert rest[k'] == s[k' + 1];
      if le(key(s[0]), key(s[k' + 1])) {
        assert SortBy(s, key, le)[0] == s[0];
      } else {
        assert SortBy(s, key, le)[0] == s[k' + 1];
      }
    }
  }
}
