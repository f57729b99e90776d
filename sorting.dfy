/**
 * Reference model of the built-in `Array.prototype.sort`: a stable sort
 * under a comparator that is a total preorder. A stable sort's output is
 * determined by its input and the comparator (SortedStableUnique), so the
 * insertion sort below stands for whatever algorithm the runtime uses.
 */
module Sorting {

  /** `le(a, b)` means the comparator does not put `b` before `a`. */
  ghost predicate TotalPreorder<T(!new)>(le: (T, T) -> bool) {
    && (forall a, b :: le(a, b) || le(b, a))
    && (forall a, b, c :: le(a, b) && le(b, c) ==> le(a, c))
  }

  predicate SortedBy<T>(s: seq<T>, le: (T, T) -> bool) {
    forall i, j :: 0 <= i < j < |s| ==> le(s[i], s[j])
  }

  /** `a` and `b` compare as equal. */
  predicate Tied<T>(le: (T, T) -> bool, a: T, b: T) {
    le(a, b) && le(b, a)
  }

  /** The elements of `s` that compare equal to `x`, in their order in `s`. */
  function TiesWith<T>(s: seq<T>, le: (T, T) -> bool, x: T): seq<T> {
    if s == [] then []
    else (if Tied(le, s[0], x) then [s[0]] else []) + TiesWith(s[1..], le, x)
  }

  lemma Reflexive<T(!new)>(le: (T, T) -> bool, a: T)
    requires TotalPreorder(le)
    ensures le(a, a)
  {
    assert le(a, a) || le(a, a);
  }

  lemma Transitive<T(!new)>(le: (T, T) -> bool, a: T, b: T, c: T)
    requires TotalPreorder(le) && le(a, b) && le(b, c)
    ensures le(a, c)
  {
  }

  /** Inserts `x` into sorted `s` after every element that is not greater than `x`. */
  function Insert<T>(x: T, s: seq<T>, le: (T, T) -> bool): (r: seq<T>)
    ensures multiset(r) == multiset(s) + multiset{x}
  {
    if s == [] then [x]
    else if le(s[0], x) then
      assert s == [s[0]] + s[1..];
      [s[0]] + Insert(x, s[1..], le)
    else
      [x] + s
  }

  /** A sorted sequence stays sorted under a new first element that is below all of it. */
  lemma ConsSorted<T>(h: T, t: seq<T>, le: (T, T) -> bool)
    requires SortedBy(t, le) && forall j :: 0 <= j < |t| ==> le(h, t[j])
    ensures SortedBy([h] + t, le)
  {
    var r := [h] + t;
    forall i, j | 0 <= i < j < |r| ensures le(r[i], r[j]) {
      if i == 0 {
        assert r[j] == t[j - 1];
      } else {
        assert r[i] == t[i - 1] && r[j] == t[j - 1];
      }
    }
  }

  lemma {:induction false} InsertSorted<T(!new)>(x: T, s: seq<T>, le: (T, T) -> bool)
    requires TotalPreorder(le) && SortedBy(s, le)
    ensures SortedBy(Insert(x, s, le), le)
  {
    if s == [] {
    } else if le(s[0], x) {
      var tail := Insert(x, s[1..], le);
      SortedTail(s, le);
      InsertSorted(x, s[1..], le);
      forall j | 0 <= j < |tail| ensures le(s[0], tail[j]) {
        assert tail[j] in multiset(tail);
        if tail[j] != x {
          assert tail[j] in multiset(s[1..]);
          var k :| 0 <= k < |s[1..]| && s[1..][k] == tail[j];
          assert s[1..][k] == s[k + 1];
        }
      }
      ConsSorted(s[0], tail, le);
    } else {
      assert le(x, s[0]);
      forall j | 0 <= j < |s| ensures le(x, s[j]) {
        if j > 0 {
          assert le(s[0], s[j]);
          Transitive(le, x, s[0], s[j]);
        }
      }
      ConsSorted(x, s, le);
    }
  }

  /** Stable insertion sort: each element goes after the earlier ones that tie with it. */
  function SortBy<T(!new)>(s: seq<T>, le: (T, T) -> bool): (r: seq<T>)
    requires TotalPreorder(le)
    ensures multiset(r) == multiset(s)
    ensures SortedBy(r, le)
  {
    if s == [] then []
    else
      var init := SortBy(s[..|s| - 1], le);
      assert s == s[..|s| - 1] + [s[|s| - 1]];
      InsertSorted(s[|s| - 1], init, le);
      Insert(s[|s| - 1], init, le)
  }

  lemma {:induction false} TiesWithAppend<T>(a: seq<T>, b: seq<T>, le: (T, T) -> bool, x: T)
    ensures TiesWith(a + b, le, x) == TiesWith(a, le, x) + TiesWith(b, le, x)
  {
    if a != [] {
      assert (a + b)[1..] == a[1..] + b;
      TiesWithAppend(a[1..], b, le, x);
    } else {
      assert a + b == b;
    }
  }

  lemma {:induction false} TiesWithNone<T>(s: seq<T>, le: (T, T) -> bool, x: T)
    requires forall i :: 0 <= i < |s| ==> !Tied(le, s[i], x)
    ensures TiesWith(s, le, x) == []
  {
    if s != [] {
      TiesWithNone(s[1..], le, x);
    }
  }

  lemma AppendAssoc<T>(a: seq<T>, b: seq<T>, c: seq<T>)
    ensures a + b + c == a + (b + c)
  {
  }

  lemma TiesWithCons<T>(h: T, rest: seq<T>, le: (T, T) -> bool, x: T)
    ensures TiesWith([h] + rest, le, x) == (if Tied(le, h, x) then [h] else []) + TiesWith(rest, le, x)
  {
    assert ([h] + rest)[1..] == rest;
  }

  lemma {:induction false} InsertTies<T(!new)>(y: T, t: seq<T>, le: (T, T) -> bool, x: T)
    requires TotalPreorder(le) && SortedBy(t, le)
    ensures TiesWith(Insert(y, t, le), le, x)
         == TiesWith(t, le, x) + (if Tied(le, y, x) then [y] else [])
  {
    var ys := if Tied(le, y, x) then [y] else [];
    if t == [] {
      assert Insert(y, t, le) == [y];
      TiesWithCons(y, [], le, x);
    } else if le(t[0], y) {
      var pre := if Tied(le, t[0], x) then [t[0]] else [];
      SortedTail(t, le);
      InsertTies(y, t[1..], le, x);
      assert Insert(y, t, le) == [t[0]] + Insert(y, t[1..], le);
      TiesWithCons(t[0], Insert(y, t[1..], le), le, x);
      assert TiesWith(Insert(y, t, le), le, x) == pre + (TiesWith(t[1..], le, x) + ys);
      assert TiesWith(t, le, x) == pre + TiesWith(t[1..], le, x);
      AppendAssoc(pre, TiesWith(t[1..], le, x), ys);
    } else {
      assert Insert(y, t, le) == [y] + t;
      TiesWithCons(y, t, le, x);
      if Tied(le, y, x) {
        NoTiesAbove(y, t, le, x);
      }
    }
  }

  /** Every element of sorted `t` is at least `t[0]`, which is strictly above `y`, so none ties with `y`'s ties. */
  lemma NoTiesAbove<T(!new)>(y: T, t: seq<T>, le: (T, T) -> bool, x: T)
    requires TotalPreorder(le) && SortedBy(t, le)
    requires t != [] && !le(t[0], y) && Tied(le, y, x)
    ensures TiesWith(t, le, x) == []
  {
    forall i | 0 <= i < |t| ensures !Tied(le, t[i], x) {
      if i == 0 { Reflexive(le, t[0]); }
      assert le(t[0], t[i]);
    }
    TiesWithNone(t, le, x);
  }

  /** The sort keeps the relative order of the elements that compare equal. */
  lemma {:induction false} SortByStable<T(!new)>(s: seq<T>, le: (T, T) -> bool, x: T)
    requires TotalPreorder(le)
    ensures TiesWith(SortBy(s, le), le, x) == TiesWith(s, le, x)
  {
    if s != [] {
      var p, y := s[..|s| - 1], s[|s| - 1];
      assert s == p + [y];
      SortByStable(p, le, x);
      InsertTies(y, SortBy(p, le), le, x);
      TiesWithAppend(p, [y], le, x);
    }
  }

  lemma {:induction false} SortedFirstIsLeast<T(!new)>(a: seq<T>, le: (T, T) -> bool, y: T)
    requires TotalPreorder(le) && SortedBy(a, le) && y in multiset(a)
    ensures le(a[0], y)
  {
    var i :| 0 <= i < |a| && a[i] == y;
    if i == 0 { Reflexive(le, y); } else { assert le(a[0], a[i]); }
  }

  lemma SortedTail<T>(s: seq<T>, le: (T, T) -> bool)
    requires s != [] && SortedBy(s, le)
    ensures SortedBy(s[1..], le)
  {
    forall i, j | 0 <= i < j < |s[1..]| ensures le(s[1..][i], s[1..][j]) {
      assert s[1..][i] == s[i + 1] && s[1..][j] == s[j + 1];
    }
  }

  lemma HeadsAgree<T(!new)>(a: seq<T>, b: seq<T>, le: (T, T) -> bool)
    requires TotalPreorder(le) && a != []
    requires SortedBy(a, le) && SortedBy(b, le) && multiset(a) == multiset(b)
    requires forall x :: TiesWith(a, le, x) == TiesWith(b, le, x)
    ensures b != [] && a[0] == b[0]
  {
    assert a[0] in multiset(a);
    assert b != [];
    assert b[0] in multiset(b);
    SortedFirstIsLeast(a, le, b[0]);
    SortedFirstIsLeast(b, le, a[0]);
    var x := a[0];
    Reflexive(le, x);
    assert TiesWith(a, le, x) == [a[0]] + TiesWith(a[1..], le, x);
    assert TiesWith(b, le, x) == [b[0]] + TiesWith(b[1..], le, x);
    assert TiesWith(a, le, x)[0] == TiesWith(b, le, x)[0];
  }

  lemma TiesAgreeOnTails<T>(a: seq<T>, b: seq<T>, le: (T, T) -> bool)
    requires a != [] && b != [] && a[0] == b[0]
    requires forall x :: TiesWith(a, le, x) == TiesWith(b, le, x)
    ensures forall z :: TiesWith(a[1..], le, z) == TiesWith(b[1..], le, z)
  {
    forall z
      ensures TiesWith(a[1..], le, z) == TiesWith(b[1..], le, z)
    {
      var p := if Tied(le, a[0], z) then [a[0]] else [];
      assert TiesWith(a, le, z) == p + TiesWith(a[1..], le, z);
      assert TiesWith(b, le, z) == p + TiesWith(b[1..], le, z);
      assert TiesWith(a[1..], le, z) == TiesWith(a, le, z)[|p|..];
      assert TiesWith(b[1..], le, z) == TiesWith(b, le, z)[|p|..];
    }
  }

  /**
   * Two sorted permutations of one another that keep the same order among
   * tied elements are equal: stable sorting has exactly one possible result.
   */
  lemma {:induction false} SortedStableUnique<T(!new)>(a: seq<T>, b: seq<T>, le: (T, T) -> bool)
    requires TotalPreorder(le)
    requires SortedBy(a, le) && SortedBy(b, le) && multiset(a) == multiset(b)
    requires forall x :: TiesWith(a, le, x) == TiesWith(b, le, x)
    ensures a == b
  {
    if a == [] {
      assert |b| == |multiset(b)| == 0;
    } else {
      HeadsAgree(a, b, le);
      assert a == [a[0]] + a[1..] && b == [b[0]] + b[1..];
      assert multiset(a[1..]) == multiset(a) - multiset{a[0]};
      assert multiset(b[1..]) == multiset(b) - multiset{a[0]};
      SortedTail(a, le);
      SortedTail(b, le);
      TiesAgreeOnTails(a, b, le);
      SortedStableUnique(a[1..], b[1..], le);
    }
  }

  /** Any stable sort of `s` under `le` gives what SortBy gives. */
  lemma SortByIsTheStableSort<T(!new)>(s: seq<T>, r: seq<T>, le: (T, T) -> bool)
    requires TotalPreorder(le)
    requires SortedBy(r, le) && multiset(r) == multiset(s)
    requires forall x :: TiesWith(r, le, x) == TiesWith(s, le, x)
    ensures r == SortBy(s, le)
  {
    forall x ensures TiesWith(r, le, x) == TiesWith(SortBy(s, le), le, x) {
      SortByStable(s, le, x);
    }
    SortedStableUnique(r, SortBy(s, le), le);
  }

  lemma SortByKeepsTies<T(!new)>(s: seq<T>, le: (T, T) -> bool)
    requires TotalPreorder(le)
    ensures forall x :: TiesWith(SortBy(s, le), le, x) == TiesWith(s, le, x)
  {
    forall x ensures TiesWith(SortBy(s, le), le, x) == TiesWith(s, le, x) {
      SortByStable(s, le, x);
    }
  }

  /** `r` is a stable sort of `s`: sorted, a permutation, and ties in their original order. */
  ghost predicate StableSortOf<T(!new)>(r: seq<T>, s: seq<T>, le: (T, T) -> bool) {
    SortedBy(r, le) && multiset(r) == multiset(s) && forall x :: TiesWith(r, le, x) == TiesWith(s, le, x)
  }

  /** A sequence is SortBy's result exactly when it is a stable sort of the input. */
  lemma SortByCharacterised<T(!new)>(s: seq<T>, r: seq<T>, le: (T, T) -> bool)
    requires TotalPreorder(le)
    ensures r == SortBy(s, le) <==> StableSortOf(r, s, le)
  {
    SortByKeepsTies(s, le);
    assert StableSortOf(SortBy(s, le), s, le);
    if StableSortOf(r, s, le) {
      SortByIsTheStableSort(s, r, le);
    }
  }

  predicate Distinct<T(==)>(s: seq<T>) {
    forall i, j :: 0 <= i < j < |s| ==> s[i] != s[j]
  }

  lemma {:induction false} InsertDistinct<T>(x: T, s: seq<T>, le: (T, T) -> bool)
    requires Distinct(s) && x !in s
    ensures Distinct(Insert(x, s, le))
  {
    if s != [] && le(s[0], x) {
      var tail := Insert(x, s[1..], le);
      InsertDistinct(x, s[1..], le);
      assert forall k :: 0 <= k < |s[1..]| ==> s[1..][k] == s[k + 1] != s[0];
      assert s[0] !in multiset(s[1..]);
      assert s[0] != x;
      assert s[0] !in multiset(tail);
      var r := [s[0]] + tail;
      forall i, j | 0 <= i < j < |r| ensures r[i] != r[j] {
        assert r[j] == tail[j - 1];
        if i > 0 { assert r[i] == tail[i - 1]; }
      }
    }
  }

  lemma {:induction false} SortByDistinct<T(!new)>(s: seq<T>, le: (T, T) -> bool)
    requires TotalPreorder(le) && Distinct(s)
    ensures Distinct(SortBy(s, le))
  {
    if s != [] {
      var init, last := s[..|s| - 1], s[|s| - 1];
      SortByDistinct(init, le);
      assert forall k :: 0 <= k < |init| ==> init[k] == s[k] != last;
      assert last !in multiset(init);
      assert last !in multiset(SortBy(init, le));
      InsertDistinct(last, SortBy(init, le), le);
    }
  }

  /**
   * The default comparison of `Array.prototype.sort` without a comparator:
   * lexicographic on characters, a proper prefix first.
   */
  predicate StringLe(a: string, b: string)
    decreases |a|
  {
    a == [] || (b != [] && (a[0] < b[0] || (a[0] == b[0] && StringLe(a[1..], b[1..]))))
  }

  lemma {:induction false} StringLeTotal(a: string, b: string)
    ensures StringLe(a, b) || StringLe(b, a)
    decreases |a|
  {
    if a != [] && b != [] && a[0] == b[0] {
      StringLeTotal(a[1..], b[1..]);
    }
  }

  lemma {:induction false} StringLeTransitive(a: string, b: string, c: string)
    requires StringLe(a, b) && StringLe(b, c)
    ensures StringLe(a, c)
    decreases |a|
  {
    if a != [] && a[0] == b[0] && b[0] == c[0] {
      StringLeTransitive(a[1..], b[1..], c[1..]);
    }
  }

  lemma {:induction false} StringLeAntisymmetric(a: string, b: string)
    requires StringLe(a, b) && StringLe(b, a)
    ensures a == b
    decreases |a|
  {
    if a != [] {
      StringLeAntisymmetric(a[1..], b[1..]);
      assert a == [a[0]] + a[1..] && b == [b[0]] + b[1..];
    }
  }

  /** The string order is a total order. */
  lemma StringLeIsTotalOrder()
    ensures TotalPreorder(StringLe)
    ensures forall a, b :: StringLe(a, b) && StringLe(b, a) ==> a == b
  {
    forall a, b ensures StringLe(a, b) || StringLe(b, a) {
      StringLeTotal(a, b);
    }
    forall a, b, c | StringLe(a, b) && StringLe(b, c) ensures StringLe(a, c) {
      StringLeTransitive(a, b, c);
    }
    forall a, b | StringLe(a, b) && StringLe(b, a) ensures a == b {
      StringLeAntisymmetric(a, b);
    }
  }

  /** A non-empty finite set has a least element under a total preorder. */
  lemma {:induction false} LeastExists<T(!new)>(keys: set<T>, le: (T, T) -> bool)
    requires TotalPreorder(le) && keys != {}
    ensures exists m :: m in keys && forall k :: k in keys ==> le(m, k)
    decreases |keys|
  {
    var x :| x in keys;
    if keys == {x} {
      Reflexive(le, x);
      assert forall k :: k in keys ==> k == x;
    } else {
      var rest := keys - {x};
      LeastExists(rest, le);
      var m :| m in rest && forall k :: k in rest ==> le(m, k);
      if le(m, x) {
        assert forall k :: k in keys ==> le(m, k);
      } else {
        forall k | k in keys ensures le(x, k) {
          if k != x { Transitive(le, x, m, k); } else { Reflexive(le, x); }
        }
      }
    }
  }

  /** The elements of a set of strings in ascending order. */
  ghost function SortedStrings(keys: set<string>): (r: seq<string>)
    ensures forall k :: k in r <==> k in keys
    ensures Distinct(r) && SortedBy(r, StringLe)
    decreases |keys|
  {
    if keys == {} then []
    else
      StringLeIsTotalOrder();
      LeastExists(keys, StringLe);
      var m :| m in keys && forall k :: k in keys ==> StringLe(m, k);
      var rest := SortedStrings(keys - {m});
      var r := [m] + rest;
      assert forall i :: 0 < i < |r| ==> r[i] == rest[i - 1];
      r
  }

  /** Two ascending sequences without repetition that hold the same strings are equal. */
  lemma {:induction false} SortedStringsUnique(a: seq<string>, b: seq<string>)
    requires SortedBy(a, StringLe) && Distinct(a)
    requires SortedBy(b, StringLe) && Distinct(b)
    requires forall k :: k in a <==> k in b
    ensures a == b
  {
    if a != [] || b != [] {
      assert b != [] ==> b[0] in a;
      assert a[0] in b;
      var i :| 0 <= i < |b| && b[i] == a[0];
      assert b[0] in a;
      var j :| 0 <= j < |a| && a[j] == b[0];
      if i > 0 { assert StringLe(b[0], b[i]); } else { StringLeTotal(b[0], b[0]); }
      if j > 0 { assert StringLe(a[0], a[j]); } else { StringLeTotal(a[0], a[0]); }
      StringLeAntisymmetric(a[0], b[0]);
      SortedTail(a, StringLe);
      SortedTail(b, StringLe);
      forall k ensures k in a[1..] <==> k in b[1..] {
        if k in a[1..] {
          var p :| 0 <= p < |a[1..]| && a[1..][p] == k;
          assert a[p + 1] == k && k != a[0] && k in b;
          var q :| 0 <= q < |b| && b[q] == k;
          assert q > 0 && b[1..][q - 1] == k;
        }
        if k in b[1..] {
          var p :| 0 <= p < |b[1..]| && b[1..][p] == k;
          assert b[p + 1] == k && k != b[0] && k in a;
          var q :| 0 <= q < |a| && a[q] == k;
          assert q > 0 && a[1..][q - 1] == k;
        }
      }
      SortedStringsUnique(a[1..], b[1..]);
      assert a == [a[0]] + a[1..] && b == [b[0]] + b[1..];
    }
  }

  /** Sorting any listing of a set of strings, each once, yields SortedStrings of the set. */
  lemma SortStringsOfSet(listing: seq<string>, keys: set<string>)
    requires Distinct(listing) && forall k :: k in listing <==> k in keys
    ensures TotalPreorder(StringLe)
    ensures SortBy(listing, StringLe) == SortedStrings(keys)
  {
    StringLeIsTotalOrder();
    var r := SortBy(listing, StringLe);
    SortByDistinct(listing, StringLe);
    forall k ensures k in r <==> k in keys {
      assert k in r <==> k in multiset(r);
      assert k in listing <==> k in multiset(listing);
    }
    SortedStringsUnique(r, SortedStrings(keys));
  }
}
