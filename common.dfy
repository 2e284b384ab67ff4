// Shared building blocks: optional values, the JavaScript number values the
// statistics can produce, and the sequence idioms the pipeline is written in
// (`Array.from(new Set(xs))`, `flatMap`, `filter`, summation).

module Common {

  datatype Option<+T> = None | Some(value: T)

  /** A JavaScript number as far as this program can produce one: a finite
      value, one of the two infinities, or NaN. */
  datatype JsNumber = NaN | NegInf | Fin(r: real) | PosInf

  /** An extended real: a JavaScript number that is never NaN. */
  datatype Ext = MinusInf | Finite(v: real) | PlusInf

  /** JavaScript's `a / b` on two integers. */
  function JsDiv(a: int, b: int): (r: JsNumber)
    ensures b != 0 ==> r == Fin(a as real / b as real)
    ensures b == 0 ==> (r == NaN <==> a == 0) && (r == PosInf <==> a > 0) && (r == NegInf <==> a < 0)
  {
    if b != 0 then Fin(a as real / b as real)
    else if a > 0 then PosInf
    else if a < 0 then NegInf
    else NaN
  }

  /** `x || 0`: NaN and 0 are falsy, so both become 0; every other number stays. */
  function OrZero(x: JsNumber): (r: Ext)
    ensures r == Finite(0.0) <==> x == NaN || x == Fin(0.0)
    ensures x.Fin? ==> r == Finite(x.r)
    ensures x == PosInf <==> r == PlusInf
    ensures x == NegInf <==> r == MinusInf
  {
    match x
    case NaN => Finite(0.0)
    case NegInf => MinusInf
    case Fin(v) => Finite(v)
    case PosInf => PlusInf
  }

  /** JavaScript's `>` on two numbers that are not NaN. */
  predicate ExtGt(a: Ext, b: Ext)
  {
    match (a, b)
    case (PlusInf, PlusInf) => false
    case (PlusInf, _) => true
    case (Finite(x), Finite(y)) => x > y
    case (Finite(_), MinusInf) => true
    case _ => false
  }

  lemma ExtTrichotomy(a: Ext, b: Ext)
    ensures ExtGt(a, b) || ExtGt(b, a) || a == b
    ensures !(ExtGt(a, b) && ExtGt(b, a))
  {
  }

  lemma ExtGtTransitive(a: Ext, b: Ext, c: Ext)
    requires ExtGt(a, b) && ExtGt(b, c)
    ensures ExtGt(a, c)
  {
  }

  predicate Distinct<T(==)>(s: seq<T>)
  {
    forall i, j :: 0 <= i < j < |s| ==> s[i] != s[j]
  }

  /** The index of the first occurrence of `x` in `s`. */
  function FirstIndex<T(==)>(s: seq<T>, x: T): (k: nat)
    requires x in s
    ensures k < |s| && s[k] == x
    ensures forall j :: 0 <= j < k ==> s[j] != x
  {
    if s[0] == x then 0 else 1 + FirstIndex(s[1..], x)
  }

  /** `Array.from(new Set(s))`: the distinct elements of `s`, each at its first occurrence. */
  function Dedup<T(==)>(s: seq<T>): (r: seq<T>)
    ensures forall i :: 0 <= i < |r| ==> r[i] in s
    ensures forall i :: 0 <= i < |s| ==> s[i] in r
    ensures Distinct(r)
    ensures |r| <= |s|
  {
    if s == [] then []
    else
      var d := Dedup(s[..|s| - 1]);
      var x := s[|s| - 1];
      assert s == s[..|s| - 1] + [x];
      if x in d then d else d + [x]
  }

  lemma FirstIndexPrefix<T>(s: seq<T>, x: T)
    requires |s| > 0 && x in s[..|s| - 1]
    ensures FirstIndex(s, x) == FirstIndex(s[..|s| - 1], x)
  {
    var p := s[..|s| - 1];
    assert forall j :: 0 <= j < |p| ==> s[j] == p[j];
  }

  /** `Dedup` keeps first-seen order: its elements appear in the order of
      their first occurrences in the input. */
  lemma {:induction false} DedupFirstSeen<T>(s: seq<T>)
    ensures forall i, j :: 0 <= i < j < |Dedup(s)| ==>
      FirstIndex(s, Dedup(s)[i]) < FirstIndex(s, Dedup(s)[j])
  {
    if s != [] {
      var p, x := s[..|s| - 1], s[|s| - 1];
      DedupFirstSeen(p);
      assert s == p + [x];
      var d, r := Dedup(p), Dedup(s);
      assert r == if x in d then d else d + [x];
      assert x !in d ==> x !in p;
      forall i, j | 0 <= i < j < |r|
        ensures FirstIndex(s, r[i]) < FirstIndex(s, r[j])
      {
        FirstIndexPrefix(s, d[i]);
        if j < |d| {
          FirstIndexPrefix(s, d[j]);
        } else {
          assert FirstIndex(s, x) == |s| - 1;
        }
      }
    }
  }

  /** A sequence without repetitions has as many elements as its set. */
  lemma {:induction false} DistinctCardinality<T>(s: seq<T>)
    requires Distinct(s)
    ensures |set x | x in s| == |s|
  {
    if s != [] {
      var p := s[..|s| - 1];
      var x := s[|s| - 1];
      assert Distinct(p);
      DistinctCardinality(p);
      assert s == p + [x];
      assert x !in p;
      assert (set y | y in s) == (set y | y in p) + {x};
    }
  }

  lemma {:induction false} DistinctCountAtMostOne<T>(s: seq<T>, x: T)
    requires Distinct(s)
    ensures multiset(s)[x] <= 1
  {
    if s != [] {
      var p := s[..|s| - 1];
      assert s == p + [s[|s| - 1]];
      assert Distinct(p);
      DistinctCountAtMostOne(p, x);
      if s[|s| - 1] == x {
        assert x !in p;
      }
    }
  }

  /** A rearrangement of a sequence without repetitions has none either. */
  lemma DistinctPermutation<T>(s: seq<T>, t: seq<T>)
    requires Distinct(s) && multiset(s) == multiset(t)
    ensures Distinct(t)
  {
    forall i, j | 0 <= i < j < |t| ensures t[i] != t[j] {
      if t[i] == t[j] {
        var x := t[j];
        assert t == t[..j] + [x] + t[j + 1..];
        assert t[..j][i] == x;
        assert multiset(t[..j])[x] >= 1;
        assert multiset(t)[x] >= 2;
        DistinctCountAtMostOne(s, x);
        assert false;
      }
    }
  }

  /** `flatMap` / `flat`: the concatenation of a sequence of sequences. */
  function Flatten<T>(ss: seq<seq<T>>): seq<T>
  {
    if ss == [] then [] else ss[0] + Flatten(ss[1..])
  }

  lemma {:induction false} FlattenAppend<T>(ss: seq<seq<T>>, t: seq<T>)
    ensures Flatten(ss + [t]) == Flatten(ss) + t
  {
    if ss != [] {
      assert (ss + [t])[1..] == ss[1..] + [t];
      FlattenAppend(ss[1..], t);
    }
  }

  lemma {:induction false} FlattenMultiset<T>(ss: seq<seq<T>>, x: T)
    ensures multiset(Flatten(ss))[x] == SumCountIn(ss, x)
  {
    if ss != [] {
      FlattenMultiset(ss[1..], x);
      assert multiset(ss[0] + Flatten(ss[1..])) == multiset(ss[0]) + multiset(Flatten(ss[1..]));
    }
  }

  /** The number of occurrences of `x` summed over all the sequences of `ss`. */
  function SumCountIn<T(==)>(ss: seq<seq<T>>, x: T): nat
  {
    if ss == [] then 0 else multiset(ss[0])[x] + SumCountIn(ss[1..], x)
  }

  /** The sum of a sequence of integers, added from the left like `reduce`. */
  function Sum(s: seq<int>): int
  {
    if s == [] then 0 else Sum(s[..|s| - 1]) + s[|s| - 1]
  }

  /** The first `n` elements, as `slice(0, n)` with `n >= 0`. */
  function Take<T>(s: seq<T>, n: nat): (r: seq<T>)
    ensures |r| == if n < |s| then n else |s|
    ensures r == s[..|r|]
  {
    if n < |s| then s[..n] else s
  }

  /** Removing every space, as `replaceAll(" ", "")`. */
  function RemoveSpaces(s: string): (r: string)
    ensures ' ' !in r
    ensures |r| <= |s|
  {
    if s == [] then []
    else
      assert s == [s[0]] + s[1..];
      if s[0] == ' ' then RemoveSpaces(s[1..]) else [s[0]] + RemoveSpaces(s[1..])
  }

  lemma {:induction false} RemoveSpacesIdempotent(s: string)
    ensures RemoveSpaces(RemoveSpaces(s)) == RemoveSpaces(s)
  {
    if s != [] {
      RemoveSpacesIdempotent(s[1..]);
      if s[0] != ' ' {
        assert ([s[0]] + RemoveSpaces(s[1..]))[1..] == RemoveSpaces(s[1..]);
      }
    }
  }

  lemma {:induction false} RemoveSpacesAppend(a: string, b: string)
    ensures RemoveSpaces(a + b) == RemoveSpaces(a) + RemoveSpaces(b)
  {
    if a != [] {
      assert (a + b)[1..] == a[1..] + b;
      RemoveSpacesAppend(a[1..], b);
    } else {
      assert a + b == b;
    }
  }

  lemma {:induction false} RemoveSpacesNoSpace(s: string)
    requires ' ' !in s
    ensures RemoveSpaces(s) == s
  {
    if s != [] {
      assert s == [s[0]] + s[1..];
      RemoveSpacesNoSpace(s[1..]);
    }
  }
}
