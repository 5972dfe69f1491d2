/** The ordering used for rosters and late lists: `Array.prototype.sort`
    with a comparator that compares a major key and, on a tie, a minor key
    with `localeCompare`. The sort is stable, as JavaScript requires. */
module Roster {
  import opened Collections
  import opened Text

  /** What the comparator looks at: a major string, then a minor one. */
  datatype Key = Key(major: string, minor: string)

  /** The comparator `a.major.localeCompare(b.major) || a.minor.localeCompare(b.minor)`. */
  function Compare(a: Key, b: Key): (r: int)
    ensures r < 0 <==> KeyLess(a, b)
    ensures r == 0 <==> a == b
    ensures r > 0 <==> KeyLess(b, a)
  {
    LessIrreflexive(a.major);
    LessAsymmetric(a.major, b.major);
    var c := Collate(a.major, b.major);
    if c != 0 then c else Collate(a.minor, b.minor)
  }

  /** The comparator says `a` goes strictly before `b`. */
  predicate KeyLess(a: Key, b: Key) {
    Less(a.major, b.major) || (a.major == b.major && Less(a.minor, b.minor))
  }

  lemma KeyLessIrreflexive(a: Key)
    ensures !KeyLess(a, a)
  {
    LessIrreflexive(a.major);
    LessIrreflexive(a.minor);
  }

  lemma KeyLessTransitive(a: Key, b: Key, c: Key)
    requires KeyLess(a, b) && KeyLess(b, c)
    ensures KeyLess(a, c)
  {
    if Less(a.major, b.major) && Less(b.major, c.major) {
      LessTransitive(a.major, b.major, c.major);
    } else if a.major == b.major && b.major == c.major {
      LessTransitive(a.minor, b.minor, c.minor);
    }
  }

  lemma KeyLessTotal(a: Key, b: Key)
    ensures KeyLess(a, b) || a == b || KeyLess(b, a)
  {
    LessTotal(a.major, b.major);
    LessTotal(a.minor, b.minor);
  }

  /** No element is strictly before an element to its left. */
  predicate SortedBy<T>(s: seq<T>, key: T -> Key) {
    forall i, j :: 0 <= i < j < |s| ==> !KeyLess(key(s[j]), key(s[i]))
  }

  /** Places `x` after every element that is not strictly after it. */
  function Insert<T>(x: T, s: seq<T>, key: T -> Key): (r: seq<T>)
    ensures |r| == |s| + 1
    decreases |s|
  {
    if |s| == 0 then [x]
    else if KeyLess(key(x), key(s[0])) then [x] + s
    else [s[0]] + Insert(x, s[1..], key)
  }

  /** `s.sort(comparator)`: each element in turn is inserted after the
      elements already placed that do not come strictly after it. */
  function SortBy<T>(s: seq<T>, key: T -> Key): (r: seq<T>)
    ensures |r| == |s|
    decreases |s|
  {
    if |s| == 0 then [] else Insert(s[|s| - 1], SortBy(s[..|s| - 1], key), key)
  }

  lemma {:induction false} InsertPermutes<T>(x: T, s: seq<T>, key: T -> Key)
    ensures multiset(Insert(x, s, key)) == multiset(s) + multiset{x}
    decreases |s|
  {
    if |s| > 0 && !KeyLess(key(x), key(s[0])) {
      InsertPermutes(x, s[1..], key);
      assert s == [s[0]] + s[1..];
    }
  }

  /** No element of `s` is strictly before `b`. */
  predicate NoneBefore<T>(b: Key, s: seq<T>, key: T -> Key) {
    forall i :: 0 <= i < |s| ==> !KeyLess(key(s[i]), b)
  }

  lemma SortedCons<T>(h: T, t: seq<T>, key: T -> Key)
    requires NoneBefore(key(h), t, key) && SortedBy(t, key)
    ensures SortedBy([h] + t, key)
  {
    var r := [h] + t;
    forall i, j | 0 <= i < j < |r| ensures !KeyLess(key(r[j]), key(r[i])) {
      assert r[j] == t[j - 1];
      if i > 0 {
        assert r[i] == t[i - 1];
      }
    }
  }

  lemma {:induction false} InsertNoneBefore<T>(x: T, s: seq<T>, b: Key, key: T -> Key)
    requires NoneBefore(b, s, key) && !KeyLess(key(x), b)
    ensures NoneBefore(b, Insert(x, s, key), key)
    decreases |s|
  {
    if |s| > 0 && !KeyLess(key(x), key(s[0])) {
      InsertNoneBefore(x, s[1..], b, key);
      var tail := Insert(x, s[1..], key);
      assert Insert(x, s, key) == [s[0]] + tail;
      forall i | 0 < i < |tail| + 1 ensures !KeyLess(key(([s[0]] + tail)[i]), b) {
        assert ([s[0]] + tail)[i] == tail[i - 1];
      }
    }
  }

  lemma {:induction false} InsertKeepsSorted<T>(x: T, s: seq<T>, key: T -> Key)
    requires SortedBy(s, key)
    ensures SortedBy(Insert(x, s, key), key)
    decreases |s|
  {
    if |s| > 0 {
      if KeyLess(key(x), key(s[0])) {
        forall i | 0 <= i < |s| ensures !KeyLess(key(s[i]), key(x)) {
          if i == 0 {
            KeyLessIrreflexive(key(s[0]));
            if KeyLess(key(s[0]), key(x)) {
              KeyLessTransitive(key(s[0]), key(x), key(s[0]));
            }
          } else if KeyLess(key(s[i]), key(x)) {
            KeyLessTransitive(key(s[i]), key(x), key(s[0]));
          }
        }
        SortedCons(x, s, key);
      } else {
        InsertKeepsSorted(x, s[1..], key);
        assert NoneBefore(key(s[0]), s[1..], key) by {
          forall i | 0 <= i < |s[1..]| ensures !KeyLess(key(s[1..][i]), key(s[0])) {
            assert s[1..][i] == s[i + 1];
          }
        }
        InsertNoneBefore(x, s[1..], key(s[0]), key);
        SortedCons(s[0], Insert(x, s[1..], key), key);
      }
    }
  }

  /** Sorting yields a sorted permutation of the input. */
  lemma {:induction false} SortBySortsAndPermutes<T>(s: seq<T>, key: T -> Key)
    ensures SortedBy(SortBy(s, key), key)
    ensures multiset(SortBy(s, key)) == multiset(s)
    decreases |s|
  {
    if |s| > 0 {
      var init := s[..|s| - 1];
      SortBySortsAndPermutes(init, key);
      InsertKeepsSorted(s[|s| - 1], SortBy(init, key), key);
      InsertPermutes(s[|s| - 1], SortBy(init, key), key);
      assert s == init + [s[|s| - 1]];
    }
  }

  /** The elements of `s` whose key is `k`, in their order in `s`. */
  function WithKey<T>(s: seq<T>, key: T -> Key, k: Key): seq<T>
    decreases |s|
  {
    if |s| == 0 then [] else (if key(s[0]) == k then [s[0]] else []) + WithKey(s[1..], key, k)
  }

  lemma {:induction false} WithKeyAppend<T>(a: seq<T>, b: seq<T>, key: T -> Key, k: Key)
    ensures WithKey(a + b, key, k) == WithKey(a, key, k) + WithKey(b, key, k)
    decreases |a|
  {
    if |a| == 0 {
      assert a + b == b;
    } else {
      assert (a + b)[1..] == a[1..] + b;
      WithKeyAppend(a[1..], b, key, k);
    }
  }

  lemma {:induction false} WithKeyNone<T>(s: seq<T>, key: T -> Key, k: Key)
    requires forall i :: 0 <= i < |s| ==> key(s[i]) != k
    ensures WithKey(s, key, k) == []
    decreases |s|
  {
    if |s| > 0 {
      WithKeyNone(s[1..], key, k);
    }
  }

  /** Inserting into a sorted list puts `x` after every element with the
      same key. */
  lemma {:induction false} InsertWithKey<T>(x: T, s: seq<T>, key: T -> Key, k: Key)
    requires SortedBy(s, key)
    ensures WithKey(Insert(x, s, key), key, k) == WithKey(s, key, k) + (if key(x) == k then [x] else [])
    decreases |s|
  {
    if |s| == 0 {
    } else if KeyLess(key(x), key(s[0])) {
      assert Insert(x, s, key) == [x] + s;
      forall i | 0 <= i < |s| ensures key(s[i]) != key(x) {
        KeyLessIrreflexive(key(x));
      }
      WithKeyNone(s, key, key(x));
      WithKeyAppend([x], s, key, k);
    } else {
      assert SortedBy(s[1..], key);
      InsertWithKey(x, s[1..], key, k);
      assert Insert(x, s, key) == [s[0]] + Insert(x, s[1..], key);
      WithKeyAppend([s[0]], Insert(x, s[1..], key), key, k);
      WithKeyAppend([s[0]], s[1..], key, k);
      assert [s[0]] + s[1..] == s;
    }
  }

  /** The sort is stable: the elements with any one key keep their order. */
  lemma {:induction false} SortByStable<T>(s: seq<T>, key: T -> Key, k: Key)
    ensures WithKey(SortBy(s, key), key, k) == WithKey(s, key, k)
    decreases |s|
  {
    if |s| > 0 {
      var init, last := s[..|s| - 1], s[|s| - 1];
      SortByStable(init, key, k);
      SortBySortsAndPermutes(init, key);
      InsertWithKey(last, SortBy(init, key), key, k);
      WithKeyAppend(init, [last], key, k);
      assert init + [last] == s;
    }
  }

  lemma {:induction false} InsertAtEnd<T>(x: T, s: seq<T>, key: T -> Key)
    requires forall i :: 0 <= i < |s| ==> !KeyLess(key(x), key(s[i]))
    ensures Insert(x, s, key) == s + [x]
    decreases |s|
  {
    if |s| > 0 {
      InsertAtEnd(x, s[1..], key);
      assert s == [s[0]] + s[1..];
    }
  }

  /** Sorting an already sorted list leaves it as it is. */
  lemma {:induction false} SortBySortedIsIdentity<T>(s: seq<T>, key: T -> Key)
    requires SortedBy(s, key)
    ensures SortBy(s, key) == s
    decreases |s|
  {
    if |s| > 0 {
      var init := s[..|s| - 1];
      assert SortedBy(init, key);
      SortBySortedIsIdentity(init, key);
      InsertAtEnd(s[|s| - 1], init, key);
      assert init + [s[|s| - 1]] == s;
    }
  }

  /** Removing elements, as `filter` does, keeps a sorted list sorted. */
  lemma {:induction false} FilterKeepsSorted<T(!new)>(s: seq<T>, keep: T -> bool, key: T -> Key)
    requires SortedBy(s, key)
    ensures SortedBy(Filter(s, keep), key)
    decreases |s|
  {
    if |s| > 0 {
      var tail := Filter(s[1..], keep);
      assert SortedBy(s[1..], key);
      FilterKeepsSorted(s[1..], keep, key);
      if keep(s[0]) {
        forall i | 0 <= i < |tail| ensures !KeyLess(key(tail[i]), key(s[0])) {
          assert tail[i] in tail;
          var k :| 0 <= k < |s[1..]| && s[1..][k] == tail[i];
          assert s[k + 1] == tail[i];
        }
        SortedCons(s[0], tail, key);
        assert Filter(s, keep) == [s[0]] + tail;
      } else {
        assert Filter(s, keep) == tail;
      }
    }
  }
}
