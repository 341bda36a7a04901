/** Python's ordering of tuples of integers (and, through code points, of
    strings), and the stable sort `sorted(xs, key=...)` built on it. */
module Order {

  /** `a < b` for Python tuples: at the first position where they differ the
      smaller component wins; when one is a proper prefix of the other the
      shorter one is smaller. No padding is applied. */
  predicate LexLt(a: seq<nat>, b: seq<nat>)
    decreases |a|
  {
    if |b| == 0 then false
    else if |a| == 0 then true
    else if a[0] != b[0] then a[0] < b[0]
    else LexLt(a[1..], b[1..])
  }

  predicate LexLe(a: seq<nat>, b: seq<nat>) {
    a == b || LexLt(a, b)
  }

  /** The textbook description of the tuple order: `a` and `b` agree on the
      first `i` components, and then either `a` has run out while `b` has
      not, or both go on and `a` is smaller at position `i`. */
  ghost predicate LtAt(a: seq<nat>, b: seq<nat>, i: nat) {
    && i <= |a| && i < |b|
    && a[..i] == b[..i]
    && (i == |a| || a[i] < b[i])
  }

  /** The recursive order is exactly the first-difference order. */
  lemma {:induction false} LexLtIffFirstDifference(a: seq<nat>, b: seq<nat>)
    ensures LexLt(a, b) <==> exists i: nat :: LtAt(a, b, i)
    decreases |a|
  {
    if |a| > 0 && |b| > 0 {
      if a[0] == b[0] {
        LexLtIffFirstDifference(a[1..], b[1..]);
        if LexLt(a, b) {
          var i: nat :| LtAt(a[1..], b[1..], i);
          assert a[..i + 1] == [a[0]] + a[1..][..i];
          assert b[..i + 1] == [b[0]] + b[1..][..i];
          assert LtAt(a, b, i + 1);
        } else {
          forall i: nat | LtAt(a, b, i) ensures false {
            assert i > 0;
            assert a[1..][..i - 1] == a[..i][1..];
            assert b[1..][..i - 1] == b[..i][1..];
            assert LtAt(a[1..], b[1..], i - 1);
          }
        }
      } else {
        if LexLt(a, b) {
          assert LtAt(a, b, 0);
        } else {
          forall i: nat | LtAt(a, b, i) ensures false {
          }
        }
      }
    } else if |a| == 0 && |b| > 0 {
      assert LtAt(a, b, 0);
    }
  }

  lemma {:induction false} LexLtIrreflexive(a: seq<nat>)
    ensures !LexLt(a, a)
    decreases |a|
  {
    if |a| > 0 {
      LexLtIrreflexive(a[1..]);
    }
  }

  lemma {:induction false} LexLtTransitive(a: seq<nat>, b: seq<nat>, c: seq<nat>)
    requires LexLt(a, b) && LexLt(b, c)
    ensures LexLt(a, c)
    decreases |a|
  {
    if |a| > 0 && a[0] == b[0] && b[0] == c[0] {
      LexLtTransitive(a[1..], b[1..], c[1..]);
    }
  }

  /** Any two version tuples are comparable: the order is total. */
  lemma {:induction false} LexTrichotomy(a: seq<nat>, b: seq<nat>)
    ensures LexLt(a, b) || a == b || LexLt(b, a)
    decreases |a|
  {
    if |a| > 0 && |b| > 0 && a[0] == b[0] {
      LexTrichotomy(a[1..], b[1..]);
      if a[1..] == b[1..] {
        assert a == [a[0]] + a[1..] && b == [b[0]] + b[1..];
      }
    }
  }

  lemma LexLtAsymmetric(a: seq<nat>, b: seq<nat>)
    requires LexLt(a, b)
    ensures !LexLt(b, a)
  {
    if LexLt(b, a) {
      LexLtTransitive(a, b, a);
      LexLtIrreflexive(a);
    }
  }

  lemma LexLeTransitive(a: seq<nat>, b: seq<nat>, c: seq<nat>)
    requires LexLe(a, b) && LexLe(b, c)
    ensures LexLe(a, c)
  {
    if a != b && b != c {
      LexLtTransitive(a, b, c);
    }
  }

  /** A tuple ranks before every proper extension of it: `(3, 9) < (3, 9, 1)`. */
  lemma {:induction false} PrefixRanksFirst(a: seq<nat>, tail: seq<nat>)
    requires tail != []
    ensures LexLt(a, a + tail)
    decreases |a|
  {
    if |a| > 0 {
      assert (a + tail)[1..] == a[1..] + tail;
      PrefixRanksFirst(a[1..], tail);
    }
  }

  // ---------------------------------------------------------------------
  // Stable sorting by a key

  ghost predicate SortedBy<T>(s: seq<T>, key: T -> seq<nat>) {
    forall i, j | 0 <= i < j < |s| :: LexLe(key(s[i]), key(s[j]))
  }

  ghost predicate StrictlySortedBy<T>(s: seq<T>, key: T -> seq<nat>) {
    forall i, j | 0 <= i < j < |s| :: LexLt(key(s[i]), key(s[j]))
  }

  ghost predicate Distinct<T>(s: seq<T>) {
    forall i, j | 0 <= i < j < |s| :: s[i] != s[j]
  }

  /** The elements of `s` whose key is `k`, in their order in `s`. A sort is
      stable exactly when it leaves each of these subsequences unchanged. */
  function WithKey<T>(s: seq<T>, key: T -> seq<nat>, k: seq<nat>): seq<T> {
    if |s| == 0 then []
    else WithKey(s[..|s| - 1], key, k) + (if key(s[|s| - 1]) == k then [s[|s| - 1]] else [])
  }

  /** Inserts `x` into `s` after every element, scanning from the back, whose
      key is not greater than the key of `x`. Nothing is lost or duplicated. */
  function Insert<T>(x: T, s: seq<T>, key: T -> seq<nat>): (r: seq<T>)
    ensures multiset(r) == multiset(s) + multiset{x}
    decreases |s|
  {
    if |s| == 0 then [x]
    else
      var last := s[|s| - 1];
      var init := s[..|s| - 1];
      assert s == init + [last];
      if LexLt(key(x), key(last)) then Insert(x, init, key) + [last]
      else s + [x]
  }

  /** Inserting into a sorted sequence keeps it sorted. */
  lemma {:induction false} InsertSorted<T>(x: T, s: seq<T>, key: T -> seq<nat>)
    requires SortedBy(s, key)
    ensures SortedBy(Insert(x, s, key), key)
    decreases |s|
  {
    if |s| > 0 {
      var last := s[|s| - 1];
      var init := s[..|s| - 1];
      assert s == init + [last];
      if LexLt(key(x), key(last)) {
        var r := Insert(x, init, key);
        InsertSorted(x, init, key);
        forall i | 0 <= i < |r| ensures LexLe(key(r[i]), key(last)) {
          assert r[i] in multiset(r);
          if r[i] != x {
            var j :| 0 <= j < |init| && init[j] == r[i];
          }
        }
        AppendLargest(r, last, key);
      } else {
        LexTrichotomy(key(x), key(last));
        forall i | 0 <= i < |s| ensures LexLe(key(s[i]), key(x)) {
          if i < |s| - 1 {
            LexLeTransitive(key(s[i]), key(last), key(x));
          }
        }
        AppendLargest(s, x, key);
      }
    }
  }

  /** Appending an element no smaller than the rest keeps a sequence sorted. */
  lemma AppendLargest<T>(s: seq<T>, y: T, key: T -> seq<nat>)
    requires SortedBy(s, key)
    requires forall i | 0 <= i < |s| :: LexLe(key(s[i]), key(y))
    ensures SortedBy(s + [y], key)
  {
  }

  lemma WithKeySnoc<T>(s: seq<T>, y: T, key: T -> seq<nat>, k: seq<nat>)
    ensures WithKey(s + [y], key, k) == WithKey(s, key, k) + (if key(y) == k then [y] else [])
  {
    assert (s + [y])[..|s|] == s;
  }

  /** `Insert` puts `x` behind every element with the same key. */
  lemma {:induction false} InsertStable<T>(x: T, s: seq<T>, key: T -> seq<nat>, k: seq<nat>)
    ensures WithKey(Insert(x, s, key), key, k) == WithKey(s, key, k) + (if key(x) == k then [x] else [])
    decreases |s|
  {
    if |s| == 0 {
      assert Insert(x, s, key) == [] + [x];
      WithKeySnoc([], x, key, k);
    } else {
      var last := s[|s| - 1];
      var init := s[..|s| - 1];
      assert s == init + [last];
      WithKeySnoc(init, last, key, k);
      if LexLt(key(x), key(last)) {
        var r' := Insert(x, init, key);
        assert Insert(x, s, key) == r' + [last];
        WithKeySnoc(r', last, key, k);
        InsertStable(x, init, key, k);
        LexLtIrreflexive(key(last));
        assert !(key(x) == k && key(last) == k);
      } else {
        assert Insert(x, s, key) == s + [x];
        WithKeySnoc(s, x, key, k);
      }
    }
  }

  lemma {:induction false} InsertDistinct<T>(x: T, s: seq<T>, key: T -> seq<nat>)
    requires Distinct(s) && x !in s
    ensures Distinct(Insert(x, s, key))
    decreases |s|
  {
    if |s| > 0 {
      var last := s[|s| - 1];
      var init := s[..|s| - 1];
      assert s == init + [last];
      if LexLt(key(x), key(last)) {
        var r' := Insert(x, init, key);
        InsertDistinct(x, init, key);
        assert last !in multiset(r') by {
          assert last != x;
          assert last !in init;
        }
      }
    }
  }

  /** `sorted(s, key=key)`. Nothing is dropped or merged: the result is a
      permutation of `s`, ordered by key. */
  function SortBy<T>(s: seq<T>, key: T -> seq<nat>): (r: seq<T>)
    ensures SortedBy(r, key)
    ensures multiset(r) == multiset(s)
    decreases |s|
  {
    if |s| == 0 then []
    else
      var init := s[..|s| - 1];
      assert s == init + [s[|s| - 1]];
      InsertSorted(s[|s| - 1], SortBy(init, key), key);
      Insert(s[|s| - 1], SortBy(init, key), key)
  }

  /** Sequences with the same elements, counted, have the same members. */
  lemma SameMembers<T>(a: seq<T>, b: seq<T>)
    requires multiset(a) == multiset(b)
    ensures forall x :: x in a <==> x in b
  {
    assert forall x :: x in a <==> x in multiset(a);
    assert forall x :: x in b <==> x in multiset(b);
  }

  /** Python's sort is stable: among elements with equal keys the sorted
      result keeps the order they had in the input. */
  lemma {:induction false} SortStable<T>(s: seq<T>, key: T -> seq<nat>, k: seq<nat>)
    ensures WithKey(SortBy(s, key), key, k) == WithKey(s, key, k)
    decreases |s|
  {
    if |s| > 0 {
      var init := s[..|s| - 1];
      assert s == init + [s[|s| - 1]];
      SortStable(init, key, k);
      InsertStable(s[|s| - 1], SortBy(init, key), key, k);
    }
  }

  /** Sorting a duplicate-free sequence gives a duplicate-free sequence. */
  lemma {:induction false} SortDistinct<T>(s: seq<T>, key: T -> seq<nat>)
    requires Distinct(s)
    ensures Distinct(SortBy(s, key))
    decreases |s|
  {
    if |s| > 0 {
      var init := s[..|s| - 1];
      assert s == init + [s[|s| - 1]];
      SortDistinct(init, key);
      assert s[|s| - 1] !in multiset(SortBy(init, key)) by {
        assert s[|s| - 1] !in init;
      }
      InsertDistinct(s[|s| - 1], SortBy(init, key), key);
    }
  }

  /** `[f(y) for y in s]`. */
  function MapSeq<T, U>(s: seq<T>, f: T -> U): seq<U> {
    seq(|s|, i requires 0 <= i < |s| => f(s[i]))
  }

  /** When `f` carries the sort key along (`key'(f(y)) == key(y)`), mapping
      commutes with insertion... */
  lemma {:induction false} InsertMap<T, U>(x: T, s: seq<T>, key: T -> seq<nat>, f: T -> U, key': U -> seq<nat>)
    requires key(x) == key'(f(x))
    requires forall i | 0 <= i < |s| :: key(s[i]) == key'(f(s[i]))
    ensures MapSeq(Insert(x, s, key), f) == Insert(f(x), MapSeq(s, f), key')
    decreases |s|
  {
    if |s| > 0 {
      var last := s[|s| - 1];
      var init := s[..|s| - 1];
      assert s == init + [last];
      var ms := MapSeq(s, f);
      assert ms[..|ms| - 1] == MapSeq(init, f);
      assert ms[|ms| - 1] == f(last);
      if LexLt(key(x), key(last)) {
        InsertMap(x, init, key, f, key');
        var r := Insert(x, init, key);
        assert MapSeq(r + [last], f) == MapSeq(r, f) + [f(last)];
      } else {
        assert MapSeq(s + [x], f) == ms + [f(x)];
      }
    }
  }

  /** Sorting keeps a property every element has. */
  lemma SortKeepsCarriedKey<T, U>(s: seq<T>, key: T -> seq<nat>, f: T -> U, key': U -> seq<nat>)
    requires forall i | 0 <= i < |s| :: key(s[i]) == key'(f(s[i]))
    ensures var sorted := SortBy(s, key);
            forall i | 0 <= i < |sorted| :: key(sorted[i]) == key'(f(sorted[i]))
  {
    var sorted := SortBy(s, key);
    forall i | 0 <= i < |sorted| ensures key(sorted[i]) == key'(f(sorted[i])) {
      assert sorted[i] in multiset(sorted);
      assert sorted[i] in multiset(s);
      var j :| 0 <= j < |s| && s[j] == sorted[i];
    }
  }

  /** ... and so with sorting: sorting by the key and then mapping gives the
      same list as mapping first and sorting by the carried key. */
  lemma {:induction false} SortMap<T, U>(s: seq<T>, key: T -> seq<nat>, f: T -> U, key': U -> seq<nat>)
    requires forall i | 0 <= i < |s| :: key(s[i]) == key'(f(s[i]))
    ensures MapSeq(SortBy(s, key), f) == SortBy(MapSeq(s, f), key')
    decreases |s|
  {
    if |s| > 0 {
      var last := s[|s| - 1];
      var init := s[..|s| - 1];
      assert s == init + [last];
      var ms := MapSeq(s, f);
      assert ms[..|ms| - 1] == MapSeq(init, f);
      assert ms[|ms| - 1] == f(last);
      assert SortBy(ms, key') == Insert(f(last), SortBy(MapSeq(init, f), key'), key');
      SortMap(init, key, f, key');
      var sorted := SortBy(init, key);
      SortKeepsCarriedKey(init, key, f, key');
      InsertMap(last, sorted, key, f, key');
    }
  }

  /** A strictly ascending sequence is determined by its elements alone:
      whatever order they arrived in, sorting them gives one answer. */
  lemma {:induction false} StrictlySortedUnique<T>(a: seq<T>, b: seq<T>, key: T -> seq<nat>)
    requires StrictlySortedBy(a, key) && StrictlySortedBy(b, key)
    requires forall y :: y in a <==> y in b
    ensures a == b
    decreases |a|
  {
    if |a| > 0 && |b| > 0 {
      assert a[0] in b;
      assert b[0] in a;
      var m :| 0 <= m < |a| && a[m] == b[0];
      var n :| 0 <= n < |b| && b[n] == a[0];
      if m > 0 && n > 0 {
        LexLtAsymmetric(key(a[0]), key(a[m]));
        assert false;
      }
      if m == 0 && n > 0 {
        LexLtIrreflexive(key(b[0]));
        assert false;
      }
      if n == 0 && m > 0 {
        LexLtIrreflexive(key(a[0]));
        assert false;
      }
      assert a[0] == b[0];
      forall y ensures y in a[1..] <==> y in b[1..] {
        if y in a[1..] {
          var i :| 0 <= i < |a| - 1 && a[1..][i] == y;
          assert a[i + 1] == y;
          if y == a[0] { LexLtIrreflexive(key(a[0])); }
          assert y in a && y in b;
          var j :| 0 <= j < |b| && b[j] == y;
          assert j > 0 && b[1..][j - 1] == y;
        }
        if y in b[1..] {
          var i :| 0 <= i < |b| - 1 && b[1..][i] == y;
          assert b[i + 1] == y;
          if y == b[0] { LexLtIrreflexive(key(b[0])); }
          assert y in b && y in a;
          var j :| 0 <= j < |a| && a[j] == y;
          assert j > 0 && a[1..][j - 1] == y;
        }
      }
      StrictlySortedUnique(a[1..], b[1..], key);
      assert a == [a[0]] + a[1..] && b == [b[0]] + b[1..];
    } else if |a| > 0 {
      HeadIsMember(a);
      assert false;
    } else if |b| > 0 {
      HeadIsMember(b);
      assert false;
    }
  }

  lemma HeadIsMember<T>(s: seq<T>)
    requires |s| > 0
    ensures s[0] in s
  {
  }
}
