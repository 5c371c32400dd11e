/**
 * A stable sort driven by a comparator of the form `key(b) - key(a)`, as
 * passed to `Array.prototype.sort`: elements with the larger key come first,
 * and elements whose keys tie keep their input order (the stability that the
 * `Array.prototype.sort` section of ECMA-262, 2019 edition onward, requires).
 * Only the sign of the comparator matters, so it is modelled exactly on
 * `real` keys.
 */
module StableSort {

  /** The comparator handed to `sort`: negative when `a` must precede `b`. */
  function Compare<T>(key: T -> real, a: T, b: T): (c: real)
    ensures c < 0.0 <==> key(a) > key(b)
    ensures c == 0.0 <==> key(a) == key(b)
  {
    key(b) - key(a)
  }

  /** Non-increasing in `key`. */
  ghost predicate Sorted<T>(s: seq<T>, key: T -> real)
  {
    forall i, j :: 0 <= i < j < |s| ==> key(s[i]) >= key(s[j])
  }

  /** Non-increasing in `major`, and non-increasing in `minor` where `major` ties. */
  ghost predicate SortedLex<T>(s: seq<T>, major: T -> real, minor: T -> real)
  {
    forall i, j :: 0 <= i < j < |s| ==> LexAtLeast(s[i], s[j], major, minor)
  }

  /** `a` may precede `b` when ordering by `major`, then by `minor`, both descending. */
  ghost predicate LexAtLeast<T>(a: T, b: T, major: T -> real, minor: T -> real)
  {
    major(a) > major(b) || (major(a) == major(b) && minor(a) >= minor(b))
  }

  /** The elements of `s` whose key equals `v`, in their order in `s`. */
  function Group<T>(s: seq<T>, key: T -> real, v: real): (g: seq<T>)
    ensures |g| <= |s|
    ensures forall i :: 0 <= i < |g| ==> g[i] in s && key(g[i]) == v
    ensures forall i :: 0 <= i < |s| && key(s[i]) == v ==> s[i] in g
  {
    if s == [] then []
    else (if key(s[0]) == v then [s[0]] else []) + Group(s[1..], key, v)
  }

  /** A sort is stable when every class of equal keys keeps its input order. */
  ghost predicate StableFor<T>(s: seq<T>, r: seq<T>, key: T -> real)
  {
    forall v :: Group(r, key, v) == Group(s, key, v)
  }

  /** Inserts `x` in front of the first element whose key does not exceed its own. */
  function Insert<T>(x: T, s: seq<T>, key: T -> real): (r: seq<T>)
    requires Sorted(s, key)
    ensures |r| == |s| + 1
    ensures multiset(r) == multiset{x} + multiset(s)
    ensures Sorted(r, key)
  {
    if s == [] || Compare(key, x, s[0]) <= 0.0 then
      SortedCons(x, s, key);
      [x] + s
    else
      SortedTail(s, key);
      var tail := Insert(x, s[1..], key);
      assert s == [s[0]] + s[1..];
      assert forall y :: y in tail ==> y == x || y in s[1..] by {
        forall y | y in tail ensures y == x || y in s[1..] {
          assert y in multiset(tail);
        }
      }
      SortedCons(s[0], tail, key);
      [s[0]] + tail
  }

  /** Insertion sort, descending by `key`, stable. */
  function SortDesc<T>(s: seq<T>, key: T -> real): (r: seq<T>)
    ensures |r| == |s|
    ensures multiset(r) == multiset(s)
    ensures Sorted(r, key)
  {
    if s == [] then []
    else
      assert s == [s[0]] + s[1..];
      Insert(s[0], SortDesc(s[1..], key), key)
  }

  // ----- helper lemmas -----

  lemma SortedCons<T>(x: T, s: seq<T>, key: T -> real)
    requires Sorted(s, key)
    requires forall y :: y in s ==> key(x) >= key(y)
    ensures Sorted([x] + s, key)
  {
    var r := [x] + s;
    forall i, j | 0 <= i < j < |r| ensures key(r[i]) >= key(r[j]) {
      if i == 0 {
        assert r[j] == s[j - 1];
      } else {
        assert r[i] == s[i - 1] && r[j] == s[j - 1];
      }
    }
  }

  lemma SortedTail<T>(s: seq<T>, key: T -> real)
    requires s != [] && Sorted(s, key)
    ensures Sorted(s[1..], key)
    ensures forall y :: y in s[1..] ==> key(s[0]) >= key(y)
  {
    forall y | y in s[1..] ensures key(s[0]) >= key(y) {
      var j :| 0 <= j < |s[1..]| && s[1..][j] == y;
      assert s[j + 1] == y;
    }
  }

  lemma {:induction false} GroupAppend<T>(a: seq<T>, b: seq<T>, key: T -> real, v: real)
    ensures Group(a + b, key, v) == Group(a, key, v) + Group(b, key, v)
  {
    if a == [] {
      assert a + b == b;
    } else {
      assert (a + b)[1..] == a[1..] + b;
      GroupAppend(a[1..], b, key, v);
    }
  }

  lemma GroupSingleton<T>(a: T, key: T -> real, v: real)
    ensures Group([a], key, v) == if key(a) == v then [a] else []
  {
    assert [a][1..] == [];
  }

  /** Two elements with different keys never fall in the same class, so their order there is moot. */
  lemma GroupSwap<T>(a: T, b: T, key: T -> real, v: real)
    requires key(a) != key(b)
    ensures Group([a], key, v) + Group([b], key, v) == Group([b], key, v) + Group([a], key, v)
  {
    GroupSingleton(a, key, v);
    GroupSingleton(b, key, v);
  }

  lemma InsertBefore<T>(x: T, s: seq<T>, key: T -> real)
    requires Sorted(s, key) && (s == [] || key(x) >= key(s[0]))
    ensures Insert(x, s, key) == [x] + s
  {
  }

  lemma InsertAfter<T>(x: T, s: seq<T>, key: T -> real)
    requires Sorted(s, key) && s != [] && key(s[0]) > key(x)
    ensures Sorted(s[1..], key)
    ensures Insert(x, s, key) == [s[0]] + Insert(x, s[1..], key)
  {
    SortedTail(s, key);
  }

  lemma SortDescCons<T>(s: seq<T>, key: T -> real)
    requires s != []
    ensures SortDesc(s, key) == Insert(s[0], SortDesc(s[1..], key), key)
  {
  }

  // ----- properties -----

  /** Inserting keeps each class of equal keys in the order `[x] + s`. */
  lemma {:induction false} InsertStable<T>(x: T, s: seq<T>, key: T -> real, v: real)
    requires Sorted(s, key)
    ensures Group(Insert(x, s, key), key, v) == Group([x] + s, key, v)
  {
    if s != [] && Compare(key, x, s[0]) > 0.0 {
      InsertAfter(x, s, key);
      InsertStable(x, s[1..], key, v);
      GroupShift(s[0], x, s[1..], Insert(x, s[1..], key), key, v);
      assert [s[0]] + s[1..] == s;
    }
  }

  /** Moving `x` in front of an element of a different key does not change any class. */
  lemma GroupShift<T>(y: T, x: T, rest: seq<T>, tail: seq<T>, key: T -> real, v: real)
    requires key(y) != key(x)
    requires Group(tail, key, v) == Group([x] + rest, key, v)
    ensures Group([y] + tail, key, v) == Group([x] + ([y] + rest), key, v)
  {
    calc {
      Group([y] + tail, key, v);
      { GroupAppend([y], tail, key, v); }
      Group([y], key, v) + Group(tail, key, v);
      { GroupAppend([x], rest, key, v); }
      Group([y], key, v) + (Group([x], key, v) + Group(rest, key, v));
      { GroupSwap(y, x, key, v); }
      Group([x], key, v) + (Group([y], key, v) + Group(rest, key, v));
      { GroupAppend([y], rest, key, v); }
      Group([x], key, v) + Group([y] + rest, key, v);
      { GroupAppend([x], [y] + rest, key, v); }
      Group([x] + ([y] + rest), key, v);
    }
  }

  /** The sort is stable: every class of equal keys keeps its input order. */
  lemma {:induction false} SortDescStable<T>(s: seq<T>, key: T -> real)
    ensures StableFor(s, SortDesc(s, key), key)
  {
    forall v ensures Group(SortDesc(s, key), key, v) == Group(s, key, v) {
      SortDescStableAt(s, key, v);
    }
  }

  lemma {:induction false} SortDescStableAt<T>(s: seq<T>, key: T -> real, v: real)
    ensures Group(SortDesc(s, key), key, v) == Group(s, key, v)
  {
    if s != [] {
      var rest := SortDesc(s[1..], key);
      assert SortDesc(s, key) == Insert(s[0], rest, key);
      calc {
        Group(SortDesc(s, key), key, v);
        { InsertStable(s[0], rest, key, v); }
        Group([s[0]] + rest, key, v);
        { GroupAppend([s[0]], rest, key, v); }
        Group([s[0]], key, v) + Group(rest, key, v);
        { SortDescStableAt(s[1..], key, v); }
        Group([s[0]], key, v) + Group(s[1..], key, v);
        { GroupAppend([s[0]], s[1..], key, v); assert [s[0]] + s[1..] == s; }
        Group(s, key, v);
      }
    }
  }

  /** Selecting by one key and then by another commutes. */
  lemma {:induction false} GroupCommute<T>(s: seq<T>, k1: T -> real, v1: real, k2: T -> real, v2: real)
    ensures Group(Group(s, k1, v1), k2, v2) == Group(Group(s, k2, v2), k1, v1)
  {
    if s != [] {
      GroupCommute(s[1..], k1, v1, k2, v2);
      var h := [s[0]];
      GroupAppend(if k1(s[0]) == v1 then h else [], Group(s[1..], k1, v1), k2, v2);
      GroupAppend(if k2(s[0]) == v2 then h else [], Group(s[1..], k2, v2), k1, v1);
    }
  }

  /**
   * Sorting by `major` a sequence already sorted by `minor` leaves it sorted
   * by `major` first and by `minor` among ties of `major`: this is what
   * makes two successive stable sorts a lexicographic order.
   */
  lemma {:induction false} SortAfterSortIsLex<T>(s: seq<T>, minor: T -> real, major: T -> real)
    requires Sorted(s, minor)
    ensures SortedLex(SortDesc(s, major), major, minor)
  {
    if s != [] {
      SortedTail(s, minor);
      SortAfterSortIsLex(s[1..], minor, major);
      var rest := SortDesc(s[1..], major);
      forall y | y in rest ensures minor(s[0]) >= minor(y) {
        assert y in multiset(rest);
      }
      InsertLex(s[0], rest, major, minor);
    }
  }

  lemma {:induction false} InsertLex<T>(x: T, s: seq<T>, major: T -> real, minor: T -> real)
    requires Sorted(s, major) && SortedLex(s, major, minor)
    requires forall y :: y in s ==> minor(x) >= minor(y)
    ensures SortedLex(Insert(x, s, major), major, minor)
  {
    if s == [] {
      LexCons(x, s, major, minor);
    } else if Compare(major, x, s[0]) <= 0.0 {
      SortedTail(s, major);
      forall y | y in s ensures LexAtLeast(x, y, major, minor) {
        assert major(s[0]) >= major(y) by {
          if y != s[0] {
            assert y in s[1..];
          }
        }
      }
      LexCons(x, s, major, minor);
    } else {
      SortedTail(s, major);
      var tail := Insert(x, s[1..], major);
      LexTail(s, major, minor);
      InsertLex(x, s[1..], major, minor);
      forall y | y in tail ensures LexAtLeast(s[0], y, major, minor) {
        assert y in multiset(tail);
      }
      LexCons(s[0], tail, major, minor);
    }
  }

  lemma LexCons<T>(x: T, s: seq<T>, major: T -> real, minor: T -> real)
    requires SortedLex(s, major, minor)
    requires forall y :: y in s ==> LexAtLeast(x, y, major, minor)
    ensures SortedLex([x] + s, major, minor)
  {
    var r := [x] + s;
    forall i, j | 0 <= i < j < |r| ensures LexAtLeast(r[i], r[j], major, minor) {
      if i == 0 {
        assert r[j] == s[j - 1];
      } else {
        assert r[i] == s[i - 1] && r[j] == s[j - 1];
      }
    }
  }

  lemma LexTail<T>(s: seq<T>, major: T -> real, minor: T -> real)
    requires s != [] && SortedLex(s, major, minor)
    ensures SortedLex(s[1..], major, minor)
    ensures forall y :: y in s[1..] ==> LexAtLeast(s[0], y, major, minor)
  {
    forall y | y in s[1..] ensures LexAtLeast(s[0], y, major, minor) {
      var j :| 0 <= j < |s[1..]| && s[1..][j] == y;
      assert s[j + 1] == y;
    }
  }
}
