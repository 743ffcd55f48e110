/** Orders and sorting: what sort.Slice, sort.Strings and Python's sorted promise, and why a strict total order
    leaves them no choice. */
module Order {
  /** Byte-wise string order. */
  predicate Before(a: string, b: string) {
    b != [] && (a == [] || a[0] < b[0] || (a[0] == b[0] && Before(a[1..], b[1..])))
  }

  lemma {:induction false} BeforeTotal(a: string, b: string)
    ensures a == b || Before(a, b) || Before(b, a)
    ensures !(Before(a, b) && Before(b, a)) && !Before(a, a)
  {
    if a != [] && b != [] {
      BeforeTotal(a[1..], b[1..]);
      if a[0] == b[0] && a[1..] == b[1..] {
        assert a == [a[0]] + a[1..] && b == [b[0]] + b[1..];
      }
    }
    if a != [] { BeforeTotal(a[1..], a[1..]); }
  }

  lemma {:induction false} BeforeTransitive(a: string, b: string, c: string)
    requires Before(a, b) && Before(b, c)
    ensures Before(a, c)
  {
    if a != [] && a[0] == b[0] == c[0] { BeforeTransitive(a[1..], b[1..], c[1..]); }
  }

  /** Where two strings first differ: one ends there, or has the smaller character. */
  ghost predicate DiffersAt(a: string, b: string, k: nat) {
    k <= |a| && k < |b| && a[..k] == b[..k] && (k == |a| || a[k] < b[k])
  }

  lemma SharedFirst(a: string, b: string, k: nat)
    requires DiffersAt(a, b, k)
    ensures k == 0 || (a != [] && b != [] && a[0] == b[0])
  {
    assert k > 0 ==> a[..k][0] == a[0] && b[..k][0] == b[0];
  }

  /** String order is decided at the first difference. */
  lemma {:induction false} BeforeAtDifference(a: string, b: string)
    ensures Before(a, b) <==> exists k: nat :: DiffersAt(a, b, k)
  {
    if a != [] && b != [] && a[0] == b[0] {
      BeforeAtDifference(a[1..], b[1..]);
      if k: nat :| DiffersAt(a[1..], b[1..], k) {
        assert a[..k + 1] == [a[0]] + a[1..][..k] && b[..k + 1] == [b[0]] + b[1..][..k];
        assert DiffersAt(a, b, k + 1);
      }
      if k: nat :| DiffersAt(a, b, k) {
        assert k > 0 && a[1..][..k - 1] == a[..k][1..] && b[1..][..k - 1] == b[..k][1..];
        assert DiffersAt(a[1..], b[1..], k - 1);
      }
    } else {
      assert b != [] && (a == [] || a[0] < b[0]) ==> DiffersAt(a, b, 0);
      forall k: nat | DiffersAt(a, b, k) ensures k == 0 { SharedFirst(a, b, k); }
    }
  }

  lemma FirstSeparator(sep: char, a: string, x: string, b: string, y: string)
    requires sep !in b && a + [sep] + x == b + [sep] + y
    ensures |b| <= |a|
  {
    var s := b + [sep] + y;
    forall i | 0 <= i < |b| ensures s[i] != sep { assert s[i] == b[i] && b[i] in b; }
    assert (a + [sep] + x)[|a|] == sep;
  }

  /** A separator that the first part lacks splits a joined text in one way only. */
  lemma SplitAt(sep: char, a: string, x: string, b: string, y: string)
    requires sep !in a && sep !in b && a + [sep] + x == b + [sep] + y
    ensures a == b && x == y
  {
    FirstSeparator(sep, a, x, b, y);
    FirstSeparator(sep, b, y, a, x);
    var s, t := a + [sep] + x, b + [sep] + y;
    assert s[..|a|] == a && t[..|b|] == b && s[|a| + 1..] == x && t[|b| + 1..] == y;
  }

  /** A strict weak order: the comparison functions handed to sort. */
  ghost predicate StrictWeak<T(!new)>(less: (T, T) -> bool) {
    && (forall x :: !less(x, x))
    && (forall x, y, z :: less(x, y) && less(y, z) ==> less(x, z))
    && (forall x, y, z :: !less(x, y) && !less(y, z) ==> !less(x, z))
  }

  /** No element may be placed before an earlier one. */
  ghost predicate Sorted<T(!new)>(less: (T, T) -> bool, s: seq<T>) {
    forall i, j :: 0 <= i < j < |s| ==> !less(s[j], s[i])
  }

  /** Any two different elements are ordered. */
  ghost predicate Distinguishes<T(!new)>(less: (T, T) -> bool, s: seq<T>) {
    forall i, j :: 0 <= i < |s| && 0 <= j < |s| && s[i] != s[j] ==> less(s[i], s[j]) || less(s[j], s[i])
  }

  lemma HeadsAgree<T(!new)>(less: (T, T) -> bool, a: seq<T>, b: seq<T>)
    requires Sorted(less, a) && Sorted(less, b) && multiset(a) == multiset(b) && Distinguishes(less, a)
    requires a != [] && b != []
    ensures a[0] == b[0]
  {
    assert a[0] in multiset(b) && b[0] in multiset(a);
    var i :| 0 <= i < |b| && b[i] == a[0];
    var j :| 0 <= j < |a| && a[j] == b[0];
  }

  lemma TailKeeps<T(!new)>(less: (T, T) -> bool, s: seq<T>)
    requires s != []
    ensures Sorted(less, s) ==> Sorted(less, s[1..])
    ensures Distinguishes(less, s) ==> Distinguishes(less, s[1..])
  {
    var t := s[1..];
    assert forall i :: 0 <= i < |t| ==> t[i] == s[i + 1];
  }

  lemma WithoutHead<T>(s: seq<T>)
    requires s != []
    ensures multiset(s[1..]) == multiset(s) - multiset{s[0]} && s == [s[0]] + s[1..]
  {
    assert s == [s[0]] + s[1..];
  }

  lemma WithoutAt<T>(s: seq<T>, k: nat)
    requires k < |s|
    ensures multiset(s) == multiset(s[..k] + s[k + 1..]) + multiset{s[k]}
  {
    assert s == s[..k] + [s[k]] + s[k + 1..];
  }

  /** Sorting is canonical: two sorted arrangements of the same elements are one when the order tells different
      elements apart. */
  lemma {:induction false} SortedUnique<T(!new)>(less: (T, T) -> bool, a: seq<T>, b: seq<T>)
    requires Sorted(less, a) && Sorted(less, b) && multiset(a) == multiset(b) && Distinguishes(less, a)
    ensures a == b
  {
    SameLength(a, b);
    if a != [] {
      HeadsAgree(less, a, b);
      TailKeeps(less, a);
      TailKeeps(less, b);
      hide Sorted, Distinguishes;
      var x, y := a[1..], b[1..];
      WithoutHead(a);
      WithoutHead(b);
      SortedUnique(less, x, y);
    }
  }

  lemma SameLength<T>(a: seq<T>, b: seq<T>)
    requires multiset(a) == multiset(b)
    ensures |a| == |b|
  {
    assert |multiset(a)| == |a| && |multiset(b)| == |b|;
  }

  /** The elements that the order does not tell from x, as the list has them. */
  ghost function Ties<T(!new)>(less: (T, T) -> bool, s: seq<T>, x: T): seq<T> {
    if s == [] then []
    else Ties(less, s[..|s| - 1], x) + if !less(x, s[|s| - 1]) && !less(s[|s| - 1], x) then [s[|s| - 1]] else []
  }

  lemma {:induction false} TiesConcat<T(!new)>(less: (T, T) -> bool, a: seq<T>, b: seq<T>, x: T)
    ensures Ties(less, a + b, x) == Ties(less, a, x) + Ties(less, b, x)
    decreases |b|
  {
    if b == [] {
      assert a + b == a;
    } else {
      var n := |b| - 1;
      TiesConcat(less, a, b[..n], x);
      assert (a + b)[..|a + b| - 1] == a + b[..n];
    }
  }

  lemma {:induction false} NoTies<T(!new)>(less: (T, T) -> bool, s: seq<T>, x: T)
    requires forall y :: y in s ==> less(x, y)
    ensures Ties(less, s, x) == []
  {
    if s != [] { NoTies(less, s[..|s| - 1], x); }
  }

  lemma {:induction false} TiesMembers<T(!new)>(less: (T, T) -> bool, s: seq<T>, x: T)
    ensures forall y :: y in Ties(less, s, x) <==> y in s && !less(x, y) && !less(y, x)
  {
    if s != [] {
      TiesMembers(less, s[..|s| - 1], x);
      assert s == s[..|s| - 1] + [s[|s| - 1]];
    }
  }

  lemma TieBelow<T(!new)>(less: (T, T) -> bool, x: T, v: T, y: T)
    requires StrictWeak(less) && !less(x, v) && !less(v, x) && less(v, y)
    ensures less(x, y)
  {
    assert !less(v, x) && !less(x, y) ==> !less(v, y);
  }

  lemma OneTie<T(!new)>(less: (T, T) -> bool, v: T, x: T)
    ensures Ties(less, [v], x) == if !less(x, v) && !less(v, x) then [v] else []
  {
    assert [v][..0] == [];
  }

  lemma NoTieBehind<T(!new)>(less: (T, T) -> bool, back: seq<T>, v: T, x: T)
    requires StrictWeak(less) && (forall y :: y in back ==> less(v, y)) && !less(x, v) && !less(v, x)
    ensures Ties(less, back, x) == []
  {
    forall y | y in back ensures less(x, y) { TieBelow(less, x, v, y); }
    NoTies(less, back, x);
  }

  lemma AroundNothing<T>(a: seq<T>, b: seq<T>)
    ensures a + b + [] == a + [] + b && a + [] == a && [] + a == a
  {
  }

  /** Putting v behind every element that is not greater leaves each tie in its order, v last of its own. */
  lemma InsertedLast<T(!new)>(less: (T, T) -> bool, front: seq<T>, back: seq<T>, v: T, x: T)
    requires StrictWeak(less) && forall y :: y in back ==> less(v, y)
    ensures Ties(less, (front + [v]) + back, x) == Ties(less, (front + back) + [v], x)
  {
    hide StrictWeak, Ties;
    TiesConcat(less, front + [v], back, x);
    TiesConcat(less, front, [v], x);
    TiesConcat(less, front + back, [v], x);
    TiesConcat(less, front, back, x);
    OneTie(less, v, x);
    if !less(x, v) && !less(v, x) {
      NoTieBehind(less, back, v, x);
      AroundNothing(Ties(less, front, x), [v]);
    } else {
      AroundNothing(Ties(less, front, x), Ties(less, back, x));
      AroundNothing(Ties(less, front, x) + Ties(less, back, x), []);
    }
  }

  lemma SnocInjective<T>(p: seq<T>, x: T, q: seq<T>, y: T)
    requires p + [x] == q + [y]
    ensures p == q && x == y
  {
    var all := p + [x];
    assert |p| == |q| && all[|p|] == x && all[|q|] == y && all[..|p|] == p && all[..|q|] == q;
  }

  lemma LastsTie<T(!new)>(less: (T, T) -> bool, a: seq<T>, b: seq<T>)
    requires StrictWeak(less) && Sorted(less, a) && multiset(a) == multiset(b) && a != [] && b != []
    ensures !less(a[|a| - 1], b[|b| - 1])
  {
    assert b[|b| - 1] in multiset(a);
    var j :| 0 <= j < |a| && a[j] == b[|b| - 1];
  }

  lemma LastTie<T(!new)>(less: (T, T) -> bool, s: seq<T>, x: T)
    requires s != [] && !less(x, s[|s| - 1]) && !less(s[|s| - 1], x)
    ensures Ties(less, s, x) == Ties(less, s[..|s| - 1], x) + [s[|s| - 1]]
  {
  }

  lemma NoLastTie<T(!new)>(less: (T, T) -> bool, s: seq<T>, x: T)
    requires s != [] && (less(x, s[|s| - 1]) || less(s[|s| - 1], x))
    ensures Ties(less, s, x) == Ties(less, s[..|s| - 1], x)
  {
  }

  lemma FrontKeeps<T(!new)>(less: (T, T) -> bool, s: seq<T>)
    requires s != [] && Sorted(less, s)
    ensures Sorted(less, s[..|s| - 1]) && multiset(s[..|s| - 1]) == multiset(s) - multiset{s[|s| - 1]} && s == s[..|s| - 1] + [s[|s| - 1]]
  {
    var n := |s| - 1;
    WithoutAt(s, n);
    assert s[..n] + s[n + 1..] == s[..n];
  }

  lemma FrontTies<T(!new)>(less: (T, T) -> bool, a: seq<T>, b: seq<T>, z: T)
    requires a != [] && b != [] && a[|a| - 1] == b[|b| - 1] && Ties(less, a, z) == Ties(less, b, z)
    ensures Ties(less, a[..|a| - 1], z) == Ties(less, b[..|b| - 1], z)
  {
    hide Ties;
    var last := a[|a| - 1];
    if !less(z, last) && !less(last, z) {
      LastTie(less, a, z);
      LastTie(less, b, z);
      SnocInjective(Ties(less, a[..|a| - 1], z), last, Ties(less, b[..|b| - 1], z), last);
    } else {
      NoLastTie(less, a, z);
      NoLastTie(less, b, z);
    }
  }

  /** Stable sorting leaves no choice at all. */
  lemma {:induction false} StableUnique<T(!new)>(less: (T, T) -> bool, a: seq<T>, b: seq<T>)
    requires StrictWeak(less) && Sorted(less, a) && Sorted(less, b) && multiset(a) == multiset(b)
    requires forall x :: Ties(less, a, x) == Ties(less, b, x)
    ensures a == b
  {
    SameLength(a, b);
    if a != [] {
      LastsTie(less, a, b);
      LastsTie(less, b, a);
      var n := |a| - 1;
      assert !less(a[n], a[n]);
      hide StrictWeak, Sorted, Ties;
      LastTie(less, a, a[n]);
      LastTie(less, b, a[n]);
      assert Ties(less, a, a[n]) == Ties(less, b, a[n]);
      SnocInjective(Ties(less, a[..n], a[n]), a[n], Ties(less, b[..n], a[n]), b[n]);
      FrontKeeps(less, a);
      FrontKeeps(less, b);
      forall z ensures Ties(less, a[..n], z) == Ties(less, b[..n], z) { FrontTies(less, a, b, z); }
      StableUnique(less, a[..n], b[..n]);
    }
  }

  /** A stable sort by insertion. sort.Slice promises no more than the first two facts, Python's sorted all three. */
  method Sort<T(!new)>(less: (T, T) -> bool, s: seq<T>) returns (r: seq<T>)
    requires StrictWeak(less)
    ensures multiset(r) == multiset(s) && |r| == |s| && Sorted(less, r)
    ensures forall x :: Ties(less, r, x) == Ties(less, s, x)
  {
    r := [];
    for i := 0 to |s|
      invariant multiset(r) == multiset(s[..i]) && |r| == i && Sorted(less, r)
      invariant forall x :: Ties(less, r, x) == Ties(less, s[..i], x)
    {
      var k := 0;
      while k < |r| && !less(s[i], r[k])
        invariant 0 <= k <= |r|
        invariant forall j :: 0 <= j < k ==> !less(s[i], r[j])
      {
        k := k + 1;
      }
      r := InsertAt(less, r, k, s[i], s[..i]);
      assert s[..i + 1] == s[..i] + [s[i]];
    }
    assert s[..|s|] == s;
  }

  method InsertAt<T(!new)>(less: (T, T) -> bool, s: seq<T>, k: nat, v: T, ghost given: seq<T>) returns (r: seq<T>)
    requires StrictWeak(less) && Sorted(less, s) && k <= |s| && multiset(s) == multiset(given)
    requires (forall j :: 0 <= j < k ==> !less(v, s[j])) && (k < |s| ==> less(v, s[k]))
    requires forall x :: Ties(less, s, x) == Ties(less, given, x)
    ensures multiset(r) == multiset(given + [v]) && |r| == |s| + 1 && Sorted(less, r)
    ensures forall x :: Ties(less, r, x) == Ties(less, given + [v], x)
  {
    r := s[..k] + [v] + s[k..];
    assert s == s[..k] + s[k..];
    forall x, y | 0 <= x < y < |r| ensures !less(r[y], r[x]) {
      InsertedInOrder(less, s, k, v, x, y);
    }
    Behind(less, s, k, v);
    forall x ensures Ties(less, r, x) == Ties(less, given + [v], x) {
      InsertedLast(less, s[..k], s[k..], v, x);
      TiesConcat(less, s, [v], x);
      TiesConcat(less, given, [v], x);
    }
  }

  lemma Behind<T(!new)>(less: (T, T) -> bool, s: seq<T>, k: nat, v: T)
    requires StrictWeak(less) && Sorted(less, s) && (k < |s| ==> less(v, s[k]))
    ensures forall j :: k <= j < |s| ==> less(v, s[j])
  {
  }

  lemma InsertedInOrder<T(!new)>(less: (T, T) -> bool, s: seq<T>, k: nat, v: T, x: nat, y: nat)
    requires StrictWeak(less) && Sorted(less, s) && k <= |s| && x < y <= |s|
    requires forall j :: 0 <= j < k ==> !less(v, s[j])
    requires k < |s| ==> less(v, s[k])
    ensures var r := s[..k] + [v] + s[k..]; !less(r[y], r[x])
  {
    var r := s[..k] + [v] + s[k..];
    if x == k {
      assert r[y] == s[y - 1] && (y - 1 == k || !less(s[y - 1], s[k]));
    } else if y == k {
    } else {
      assert r[x] == s[if x < k then x else x - 1] && r[y] == s[if y < k then y else y - 1];
    }
  }

  lemma BeforeIsStrictWeak()
    ensures StrictWeak(Before)
  {
    forall x, y | true ensures x == y || Before(x, y) || Before(y, x) { BeforeTotal(x, y); }
    forall x ensures !Before(x, x) { BeforeTotal(x, x); }
    forall x, y, z | Before(x, y) && Before(y, z) ensures Before(x, z) { BeforeTransitive(x, y, z); }
    forall x, y, z | !Before(x, y) && !Before(y, z) ensures !Before(x, z) {
      if Before(x, z) {
        BeforeTotal(x, y);
        BeforeTotal(y, z);
        BeforeTotal(x, z);
        if y == x || y == z {} else { BeforeTransitive(z, y, x); }
      }
    }
  }

  /** The elements of a set, each once, in the given order. */
  method Arrange<T(==, !new)>(less: (T, T) -> bool, values: set<T>) returns (r: seq<T>)
    requires StrictWeak(less)
    ensures (forall x :: x in r <==> x in values) && |r| == |values| && Sorted(less, r)
    ensures forall i, j :: 0 <= i < j < |r| ==> r[i] != r[j]
  {
    var rest, keys := values, [];
    while rest != {}
      invariant rest <= values && forall x :: x in keys <==> x in values && x !in rest
      invariant |keys| == |values| - |rest|
      invariant forall i, j :: 0 <= i < j < |keys| ==> keys[i] != keys[j]
      decreases rest
    {
      var v :| v in rest;
      rest := rest - {v};
      keys := keys + [v];
    }
    r := Sort(less, keys);
    NoRepeats(keys);
    forall i, j | 0 <= i < j < |r| ensures r[i] != r[j] { RepeatCounted(r, i, j); }
    SameMembers(keys, r);
  }

  /** sortedSet: the keys of a Go set, in string order. */
  method SortedSet(values: set<string>) returns (r: seq<string>)
    ensures (forall x :: x in r <==> x in values) && |r| == |values|
    ensures forall i, j :: 0 <= i < j < |r| ==> Before(r[i], r[j])
  {
    BeforeIsStrictWeak();
    r := Arrange(Before, values);
    forall i, j | 0 <= i < j < |r| ensures Before(r[i], r[j]) { BeforeTotal(r[i], r[j]); }
  }

  lemma SameMembers<T>(a: seq<T>, b: seq<T>)
    requires multiset(a) == multiset(b)
    ensures forall x :: x in a <==> x in b
  {
    assert forall x :: x in a <==> x in multiset(a);
    assert forall x :: x in b <==> x in multiset(b);
  }

  lemma RepeatCounted<T>(s: seq<T>, i: nat, j: nat)
    requires i < j < |s|
    ensures s[i] == s[j] ==> multiset(s)[s[i]] >= 2
  {
    assert s == s[..i] + [s[i]] + s[i + 1..j] + [s[j]] + s[j + 1..];
  }

  lemma {:induction false} NoRepeats<T>(s: seq<T>)
    requires forall i, j :: 0 <= i < j < |s| ==> s[i] != s[j]
    ensures forall x :: multiset(s)[x] <= 1
  {
    if s != [] {
      NoRepeats(s[1..]);
      assert s == [s[0]] + s[1..];
      assert s[0] !in s[1..];
    }
  }

  lemma {:induction false} ElementCount<T>(s: seq<T>)
    requires forall i, j :: 0 <= i < j < |s| ==> s[i] != s[j]
    ensures |set x | x in s| == |s|
  {
    if s != [] {
      var t := s[1..];
      ElementCount(t);
      assert s == [s[0]] + t && (set x | x in s) == {s[0]} + set x | x in t;
    }
  }

  lemma NoMembers<T>(s: seq<T>)
    ensures (forall x :: x !in s) ==> s == []
  {
    assert s != [] ==> s[0] in s;
  }
}
