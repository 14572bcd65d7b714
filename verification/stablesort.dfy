/** A stable sort into non-increasing order of an integer key: what
    `Array.prototype.sort` does with the comparator `(a, b) => key(b) - key(a)`,
    the sort being stable. */
module StableSort {
  import opened Seqs

  ghost predicate NonIncreasing<T>(s: seq<T>, key: T -> int) {
    forall i, j :: 0 <= i < j < |s| ==> key(s[i]) >= key(s[j])
  }

  function HasKey<T>(key: T -> int, k: int): T -> bool {
    x => key(x) == k
  }

  /** The elements of `s` whose key is `k`, in order. */
  function WithKey<T>(s: seq<T>, key: T -> int, k: int): seq<T> {
    Filter(s, HasKey(key, k))
  }

  /** Puts `x` in front of the first element whose key is not larger than its own. */
  function Insert<T>(x: T, t: seq<T>, key: T -> int): (r: seq<T>)
    ensures multiset(r) == multiset(t) + multiset{x}
    ensures |r| == |t| + 1
  {
    if |t| == 0 || key(x) >= key(t[0]) then [x] + t
    else
      assert t == [t[0]] + t[1..];
      [t[0]] + Insert(x, t[1..], key)
  }

  /** Inserting into a non-increasing sequence keeps it non-increasing. */
  lemma {:induction false} InsertSorted<T>(x: T, t: seq<T>, key: T -> int)
    requires NonIncreasing(t, key)
    ensures NonIncreasing(Insert(x, t, key), key)
    decreases |t|
  {
    if |t| > 0 && key(x) < key(t[0]) {
      var rest := Insert(x, t[1..], key);
      InsertSorted(x, t[1..], key);
      forall j | 0 <= j < |rest| ensures key(rest[j]) <= key(t[0]) {
        assert rest[j] in multiset(rest);
        if rest[j] != x {
          assert rest[j] in multiset(t[1..]);
          var i :| 0 <= i < |t[1..]| && t[1..][i] == rest[j];
          assert t[1..][i] == t[i + 1];
        }
      }
      var r := [t[0]] + rest;
      forall i, j | 0 <= i < j < |r| ensures key(r[i]) >= key(r[j]) {
        assert r[j] == rest[j - 1];
        if i > 0 {
          assert r[i] == rest[i - 1];
        }
      }
    }
  }

  /** Insertion sort from the back, so that equal keys keep their order. */
  function SortDescending<T>(s: seq<T>, key: T -> int): (r: seq<T>)
    ensures multiset(r) == multiset(s)
    ensures |r| == |s|
    ensures NonIncreasing(r, key)
  {
    if |s| == 0 then []
    else
      var sorted := SortDescending(s[1..], key);
      assert s == [s[0]] + s[1..];
      InsertSorted(s[0], sorted, key);
      Insert(s[0], sorted, key)
  }

  /** Inserting `x` only moves it past elements with a strictly larger key. */
  lemma {:induction false} InsertStable<T>(x: T, t: seq<T>, key: T -> int, k: int)
    ensures WithKey(Insert(x, t, key), key, k) == WithKey([x] + t, key, k)
    decreases |t|
  {
    if |t| > 0 && key(x) < key(t[0]) {
      var h := HasKey(key, k);
      var rest := Insert(x, t[1..], key);
      InsertStable(x, t[1..], key, k);
      var fx := if h(x) then [x] else [];
      var ft := if h(t[0]) then [t[0]] else [];
      assert ([t[0]] + rest)[0] == t[0] && ([t[0]] + rest)[1..] == rest;
      assert ([x] + t[1..])[0] == x && ([x] + t[1..])[1..] == t[1..];
      assert ([x] + t)[0] == x && ([x] + t)[1..] == t;
      assert Filter([t[0]] + rest, h) == ft + Filter(rest, h);
      assert Filter(rest, h) == fx + Filter(t[1..], h);
      assert Filter([x] + t, h) == fx + Filter(t, h);
      assert Filter(t, h) == ft + Filter(t[1..], h);
      assert fx == [] || ft == [];
    }
  }

  /** Stability: for every key, the elements with that key appear in the
      sorted output in the same order as in the input. */
  lemma {:induction false} SortDescendingStable<T>(s: seq<T>, key: T -> int, k: int)
    ensures WithKey(SortDescending(s, key), key, k) == WithKey(s, key, k)
    decreases |s|
  {
    if |s| > 0 {
      var sorted := SortDescending(s[1..], key);
      SortDescendingStable(s[1..], key, k);
      InsertStable(s[0], sorted, key, k);
      assert ([s[0]] + sorted)[1..] == sorted;
    }
  }

  /** Any element of a non-increasing sequence has a key no larger than the first. */
  lemma HeadIsLargest<T>(s: seq<T>, key: T -> int, x: T)
    requires NonIncreasing(s, key) && x in s
    ensures key(x) <= key(s[0])
  {
    var i :| 0 <= i < |s| && s[i] == x;
    if i > 0 {
      assert key(s[0]) >= key(s[i]);
    }
  }

  /** Dropping the head removes it from its own key's group only. */
  lemma WithKeyTail<T>(s: seq<T>, key: T -> int, k: int)
    requires |s| > 0
    ensures key(s[0]) == k ==>
      (|WithKey(s, key, k)| > 0 && WithKey(s, key, k)[0] == s[0] &&
       WithKey(s[1..], key, k) == WithKey(s, key, k)[1..])
    ensures key(s[0]) != k ==> WithKey(s[1..], key, k) == WithKey(s, key, k)
  {
  }

  /** The two properties pin the result down: a non-increasing sequence
      that keeps every key's group in the input's order is unique. */
  lemma {:induction false} SortedStableUnique<T>(a: seq<T>, b: seq<T>, key: T -> int)
    requires NonIncreasing(a, key) && NonIncreasing(b, key)
    requires forall k :: WithKey(a, key, k) == WithKey(b, key, k)
    ensures a == b
    decreases |a|
  {
    if |a| == 0 {
      if |b| > 0 {
        WithKeyTail(b, key, key(b[0]));
      }
    } else if |b| == 0 {
      WithKeyTail(a, key, key(a[0]));
    } else {
      var ka, kb := key(a[0]), key(b[0]);
      WithKeyTail(a, key, ka);
      WithKeyTail(b, key, kb);
      assert a[0] in WithKey(b, key, ka);
      HeadIsLargest(b, key, a[0]);
      assert b[0] in WithKey(a, key, kb);
      HeadIsLargest(a, key, b[0]);
      assert a[0] == b[0];
      forall k ensures WithKey(a[1..], key, k) == WithKey(b[1..], key, k) {
        WithKeyTail(a, key, k);
        WithKeyTail(b, key, k);
      }
      SortedStableUnique(a[1..], b[1..], key);
      assert a == [a[0]] + a[1..] && b == [b[0]] + b[1..];
    }
  }

  /** So the sort is the one stable non-increasing arrangement of its input. */
  lemma SortDescendingIsTheStableSort<T>(s: seq<T>, r: seq<T>, key: T -> int)
    requires NonIncreasing(r, key)
    requires forall k :: WithKey(r, key, k) == WithKey(s, key, k)
    ensures r == SortDescending(s, key)
  {
    forall k ensures WithKey(SortDescending(s, key), key, k) == WithKey(r, key, k) {
      SortDescendingStable(s, key, k);
    }
    SortedStableUnique(SortDescending(s, key), r, key);
  }
}
