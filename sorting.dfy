// A stable sort, used for every `Array.prototype.sort` of the program.
// ECMAScript 2019 and later require `sort` to be stable: elements the
// comparator calls equal keep their relative order. The sort here inserts
// each element before the first element it may precede, which is a stable
// insertion sort for any total preorder `le` ("a may come before b").

module Sorting {

  /** `le` is total and transitive: it is the "may precede" relation of a
      consistent comparator. */
  ghost predicate TotalPreorder<T(!new)>(le: (T, T) -> bool)
  {
    && (forall a, b :: le(a, b) || le(b, a))
    && (forall a, b, c :: le(a, b) && le(b, c) ==> le(a, c))
  }

  ghost predicate Sorted<T>(s: seq<T>, le: (T, T) -> bool)
  {
    forall i, j :: 0 <= i < j < |s| ==> le(s[i], s[j])
  }

  /** The comparator calls `a` and `b` equal. */
  predicate Equivalent<T>(a: T, b: T, le: (T, T) -> bool)
  {
    le(a, b) && le(b, a)
  }

  /** The elements of `s` the comparator calls equal to `e`, in their order in `s`. */
  function TiedWith<T>(s: seq<T>, e: T, le: (T, T) -> bool): seq<T>
  {
    if s == [] then []
    else (if Equivalent(s[0], e, le) then [s[0]] else []) + TiedWith(s[1..], e, le)
  }

  /** Place `x` before the first element of `s` that it may precede. */
  function Insert<T>(x: T, s: seq<T>, le: (T, T) -> bool): (r: seq<T>)
    ensures multiset(r) == multiset(s) + multiset{x}
    ensures |r| == |s| + 1
  {
    if s == [] then [x]
    else if le(x, s[0]) then [x] + s
    else
      assert s == [s[0]] + s[1..];
      [s[0]] + Insert(x, s[1..], le)
  }

  /** Stable sort of `s` by `le`. */
  function SortBy<T>(s: seq<T>, le: (T, T) -> bool): (r: seq<T>)
    ensures multiset(r) == multiset(s)
    ensures |r| == |s|
  {
    if s == [] then []
    else
      assert s == [s[0]] + s[1..];
      Insert(s[0], SortBy(s[1..], le), le)
  }

  lemma {:induction false} InsertSorted<T(!new)>(x: T, s: seq<T>, le: (T, T) -> bool)
    requires TotalPreorder(le)
    requires Sorted(s, le)
    ensures Sorted(Insert(x, s, le), le)
  {
    if s != [] && !le(x, s[0]) {
      var t := Insert(x, s[1..], le);
      InsertSorted(x, s[1..], le);
      assert le(s[0], x);
      // Every element of the tail is either an element of s[1..] or x.
      forall k | 0 <= k < |t| ensures le(s[0], t[k]) {
        assert t[k] in multiset(s[1..]) + multiset{x} by {
          assert t[k] in multiset(t);
        }
        if t[k] != x {
          assert t[k] in s[1..];
        }
      }
    }
  }

  /** The result of `SortBy` is ordered by `le`. */
  lemma {:induction false} SortBySorted<T(!new)>(s: seq<T>, le: (T, T) -> bool)
    requires TotalPreorder(le)
    ensures Sorted(SortBy(s, le), le)
  {
    if s != [] {
      SortBySorted(s[1..], le);
      InsertSorted(s[0], SortBy(s[1..], le), le);
    }
  }

  function Tie<T>(y: T, e: T, le: (T, T) -> bool): seq<T>
  {
    if Equivalent(y, e, le) then [y] else []
  }

  lemma TiedWithCons<T>(y: T, s: seq<T>, e: T, le: (T, T) -> bool)
    ensures TiedWith([y] + s, e, le) == Tie(y, e, le) + TiedWith(s, e, le)
  {
    assert ([y] + s)[1..] == s;
  }

  /** `x` and `y` cannot both be tied with `e` when `x` may not precede `y`. */
  lemma TiesExclusive<T(!new)>(x: T, y: T, e: T, le: (T, T) -> bool)
    requires TotalPreorder(le)
    requires !le(x, y)
    ensures Tie(x, e, le) == [] || Tie(y, e, le) == []
  {
  }

  lemma CommuteEmpty<T>(a: seq<T>, b: seq<T>, c: seq<T>)
    requires a == [] || b == []
    ensures a + (b + c) == b + (a + c)
  {
    if a == [] {
      assert a + (b + c) == b + c == b + (a + c);
    } else {
      assert a + (b + c) == a + c == b + (a + c);
    }
  }

  /** One step of `Insert` past a head `x` may not precede. */
  lemma InsertTiedStep<T>(x: T, s: seq<T>, e: T, le: (T, T) -> bool)
    requires s != [] && !le(x, s[0])
    requires TiedWith(Insert(x, s[1..], le), e, le) == TiedWith([x] + s[1..], e, le)
    requires Tie(x, e, le) == [] || Tie(s[0], e, le) == []
    ensures TiedWith(Insert(x, s, le), e, le) == TiedWith([x] + s, e, le)
  {
    var t := s[1..];
    var i := Insert(x, t, le);
    var a, b, c := Tie(x, e, le), Tie(s[0], e, le), TiedWith(t, e, le);
    assert Insert(x, s, le) == [s[0]] + i;
    TiedWithCons(s[0], i, e, le);
    TiedWithCons(x, t, e, le);
    assert TiedWith(Insert(x, s, le), e, le) == b + (a + c);
    assert s == [s[0]] + t;
    TiedWithCons(s[0], t, e, le);
    TiedWithCons(x, s, e, le);
    assert TiedWith([x] + s, e, le) == a + (b + c);
    CommuteEmpty(a, b, c);
  }

  lemma {:induction false} InsertTied<T(!new)>(x: T, s: seq<T>, e: T, le: (T, T) -> bool)
    requires TotalPreorder(le)
    requires Sorted(s, le)
    ensures TiedWith(Insert(x, s, le), e, le) == TiedWith([x] + s, e, le)
  {
    if s != [] && !le(x, s[0]) {
      assert Sorted(s[1..], le);
      InsertTied(x, s[1..], e, le);
      TiesExclusive(x, s[0], e, le);
      InsertTiedStep(x, s, e, le);
    }
  }

  /** Stability: the elements tied with any `e` keep their input order. */
  lemma {:induction false} SortByStable<T(!new)>(s: seq<T>, e: T, le: (T, T) -> bool)
    requires TotalPreorder(le)
    ensures TiedWith(SortBy(s, le), e, le) == TiedWith(s, e, le)
  {
    if s != [] {
      SortByStable(s[1..], e, le);
      SortBySorted(s[1..], le);
      InsertTied(s[0], SortBy(s[1..], le), e, le);
      var r := SortBy(s[1..], le);
      assert ([s[0]] + r)[1..] == r;
    }
  }

  /** Everything the sort promises, for a consistent comparator. */
  lemma SortBySpec<T(!new)>(s: seq<T>, le: (T, T) -> bool)
    requires TotalPreorder(le)
    ensures multiset(SortBy(s, le)) == multiset(s)
    ensures Sorted(SortBy(s, le), le)
    ensures forall e :: TiedWith(SortBy(s, le), e, le) == TiedWith(s, e, le)
  {
    SortBySorted(s, le);
    forall e ensures TiedWith(SortBy(s, le), e, le) == TiedWith(s, e, le) {
      SortByStable(s, e, le);
    }
  }

  // ---------------------------------------------------------------------
  // Ordinal string comparison

  /** `a <= b` for JavaScript strings: character by character, a proper
      prefix first. */
  predicate StrLe(a: string, b: string)
  {
    if a == [] then true
    else if b == [] then false
    else if a[0] != b[0] then a[0] < b[0]
    else StrLe(a[1..], b[1..])
  }

  lemma {:induction false} StrLeTotal(a: string, b: string)
    ensures StrLe(a, b) || StrLe(b, a)
  {
    if a != [] && b != [] && a[0] == b[0] {
      StrLeTotal(a[1..], b[1..]);
    }
  }

  lemma {:induction false} StrLeTransitive(a: string, b: string, c: string)
    requires StrLe(a, b) && StrLe(b, c)
    ensures StrLe(a, c)
  {
    if a != [] && b != [] && c != [] && a[0] == b[0] && b[0] == c[0] {
      StrLeTransitive(a[1..], b[1..], c[1..]);
    }
  }

  /** Two strings each `<=` the other are equal. */
  lemma {:induction false} StrLeAntisymmetric(a: string, b: string)
    requires StrLe(a, b) && StrLe(b, a)
    ensures a == b
  {
    if a != [] && b != [] {
      StrLeAntisymmetric(a[1..], b[1..]);
      assert a == [a[0]] + a[1..] && b == [b[0]] + b[1..];
    }
  }
}
