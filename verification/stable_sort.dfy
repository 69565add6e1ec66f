/**
 * The stable sort main.go gets from `sort.SliceStable`, over a lexicographic
 * key. It is written as an insertion sort; `SortUnique` shows that every
 * stable sort yields the same sequence, so the choice of algorithm does not
 * matter.
 *
 * Stability is stated as: for every key `k`, the elements whose key is `k`
 * appear in the output in exactly the order they had in the input
 * (`Filter(key, Sort(key, s), k) == Filter(key, s, k)`).
 */
module StableSort {

  /** A sort key compared `major` first, then `minor`. */
  datatype Key = Key(major: int, minor: int)

  /** The strict "less" of the Go comparators: `a` sorts strictly before `b`. */
  predicate Below(a: Key, b: Key) {
    a.major < b.major || (a.major == b.major && a.minor < b.minor)
  }

  /** Ascending by key: no element has a key below an earlier element's. */
  predicate SortedBy<T>(key: T -> Key, s: seq<T>) {
    forall i, j :: 0 <= i < j < |s| ==> !Below(key(s[j]), key(s[i]))
  }

  /** The elements of `s` whose key is `k`, in their order in `s`. */
  function Filter<T>(key: T -> Key, s: seq<T>, k: Key): (r: seq<T>)
    ensures |r| <= |s|
  {
    if |s| == 0 then []
    else (if key(s[0]) == k then [s[0]] else []) + Filter(key, s[1..], k)
  }

  /**
   * Puts `x` into `s` before the first element whose key is not below
   * `x`'s, that is before any element of equal key.
   */
  function Insert<T>(key: T -> Key, x: T, s: seq<T>): (r: seq<T>)
    ensures multiset(r) == multiset(s) + multiset{x}
    decreases |s|
  {
    if |s| == 0 || !Below(key(s[0]), key(x)) then [x] + s
    else
      assert s == [s[0]] + s[1..];
      [s[0]] + Insert(key, x, s[1..])
  }

  /** Inserting into a sorted sequence keeps it sorted. */
  lemma {:induction false} InsertSorted<T>(key: T -> Key, x: T, s: seq<T>)
    requires SortedBy(key, s)
    ensures SortedBy(key, Insert(key, x, s))
    decreases |s|
  {
    var r := Insert(key, x, s);
    if |s| == 0 || !Below(key(s[0]), key(x)) {
      forall i, j | 0 <= i < j < |r| ensures !Below(key(r[j]), key(r[i])) {
        if i > 0 {
          assert r[i] == s[i - 1] && r[j] == s[j - 1];
        }
      }
    } else {
      var t := Insert(key, x, s[1..]);
      assert SortedBy(key, s[1..]);
      InsertSorted(key, x, s[1..]);
      assert s == [s[0]] + s[1..];
      forall i, j | 0 <= i < j < |r| ensures !Below(key(r[j]), key(r[i])) {
        if i == 0 {
          assert r[j] in multiset(t);
          if r[j] != x {
            assert r[j] in multiset(s[1..]);
            var m :| 0 <= m < |s[1..]| && s[1..][m] == r[j];
            assert s[m + 1] == r[j];
          }
        } else {
          assert r[i] == t[i - 1] && r[j] == t[j - 1];
        }
      }
    }
  }

  /** Insertion places `x` ahead of every element with the same key. */
  lemma {:induction false} InsertFilter<T>(key: T -> Key, x: T, s: seq<T>, k: Key)
    ensures Filter(key, Insert(key, x, s), k) == Filter(key, [x] + s, k)
    decreases |s|
  {
    if |s| == 0 || !Below(key(s[0]), key(x)) {
    } else {
      var t := Insert(key, x, s[1..]);
      InsertFilter(key, x, s[1..], k);
      assert ([s[0]] + t)[1..] == t;
      assert ([x] + s)[1..] == s;
      assert ([x] + s[1..])[1..] == s[1..];
      assert Filter(key, [x] + s, k)
          == (if key(x) == k then [x] else []) + Filter(key, s, k);
      assert Filter(key, s, k)
          == (if key(s[0]) == k then [s[0]] else []) + Filter(key, s[1..], k);
    }
  }

  /** Stable insertion sort: sorted, a permutation, and order-preserving within each key. */
  function Sort<T>(key: T -> Key, s: seq<T>): (r: seq<T>)
    ensures SortedBy(key, r)
    ensures multiset(r) == multiset(s)
    ensures |r| == |s|
    ensures forall k :: Filter(key, r, k) == Filter(key, s, k)
  {
    if |s| == 0 then []
    else
      var t := Sort(key, s[1..]);
      var r := Insert(key, s[0], t);
      assert s == [s[0]] + s[1..];
      assert |r| == |multiset(r)|;
      InsertSorted(key, s[0], t);
      forall k ensures Filter(key, r, k) == Filter(key, s, k) {
        InsertFilter(key, s[0], t, k);
        assert ([s[0]] + t)[1..] == t;
      }
      r
  }

  /** The first element of a sorted sequence has a least key of the whole sequence. */
  lemma SortedHeadIsLeast<T>(key: T -> Key, s: seq<T>, x: T)
    requires SortedBy(key, s)
    requires x in s
    ensures !Below(key(x), key(s[0]))
  {
    var i :| 0 <= i < |s| && s[i] == x;
    if i > 0 {
      assert !Below(key(s[i]), key(s[0]));
    }
  }

  /** Where the first element of `Filter(key, s, k)` sits in `s`: the first index with key `k`. */
  lemma {:induction false} FilterHead<T>(key: T -> Key, s: seq<T>, k: Key) returns (j: nat)
    requires |Filter(key, s, k)| > 0
    ensures j < |s| && s[j] == Filter(key, s, k)[0] && key(s[j]) == k
    ensures forall i :: 0 <= i < j ==> key(s[i]) != k
  {
    if key(s[0]) == k {
      j := 0;
    } else {
      var j' := FilterHead(key, s[1..], k);
      j := j' + 1;
    }
  }

  /** Elements with key `k` occur in `s` exactly when its `k`-filter is non-empty. */
  lemma {:induction false} FilterNonEmpty<T>(key: T -> Key, s: seq<T>, i: int)
    requires 0 <= i < |s|
    ensures |Filter(key, s, key(s[i]))| > 0
  {
    if i > 0 {
      FilterNonEmpty(key, s[1..], i - 1);
    }
  }

  /**
   * A stable sort has exactly one possible output: two sorted sequences that
   * agree on every key's sub-sequence are equal. Hence the insertion sort
   * above and the merge sort behind Go's `sort.SliceStable` agree.
   */
  lemma {:induction false} SortUnique<T>(key: T -> Key, a: seq<T>, b: seq<T>)
    requires SortedBy(key, a) && SortedBy(key, b)
    requires forall k :: Filter(key, a, k) == Filter(key, b, k)
    ensures a == b
    decreases |a| + |b|
  {
    if |a| == 0 && |b| == 0 {
      return;
    }
    if |a| == 0 {
      FilterNonEmpty(key, b, 0);
      return;
    }
    if |b| == 0 {
      FilterNonEmpty(key, a, 0);
      return;
    }
    var ka, kb := key(a[0]), key(b[0]);
    // The least keys of `a` and `b` coincide.
    FilterNonEmpty(key, a, 0);
    var jb := FilterHead(key, b, ka);
    assert !Below(key(b[jb]), kb);
    FilterNonEmpty(key, b, 0);
    var ja := FilterHead(key, a, kb);
    assert !Below(key(a[ja]), ka);
    assert ka == kb;
    // Both heads are the head of that key's sub-sequence.
    assert a[0] == Filter(key, a, ka)[0];
    assert b[0] == Filter(key, b, ka)[0];
    forall k ensures Filter(key, a[1..], k) == Filter(key, b[1..], k) {
      var head := if ka == k then [a[0]] else [];
      assert Filter(key, a, k) == head + Filter(key, a[1..], k);
      assert Filter(key, b, k) == head + Filter(key, b[1..], k);
      assert Filter(key, a, k) == Filter(key, b, k);
      assert (head + Filter(key, a[1..], k))[|head|..] == Filter(key, a[1..], k);
      assert (head + Filter(key, b[1..], k))[|head|..] == Filter(key, b[1..], k);
    }
    SortUnique(key, a[1..], b[1..]);
    assert a == [a[0]] + a[1..] && b == [b[0]] + b[1..];
  }

  /** Sorting an already sorted sequence leaves it as it is. */
  lemma {:induction false} SortOfSorted<T>(key: T -> Key, s: seq<T>)
    requires SortedBy(key, s)
    ensures Sort(key, s) == s
  {
    SortUnique(key, Sort(key, s), s);
  }
}
