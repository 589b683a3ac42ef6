/**
 * Python's ordering of `str` values (code point by code point, a proper prefix
 * first), a length-first variant of it, and `sorted()` over a list of file
 * names under either order.
 */
module NameOrder {

  /** Python's `a <= b` on strings. */
  predicate LessEq(a: string, b: string) {
    if a == [] then true
    else if b == [] then false
    else if a[0] != b[0] then a[0] < b[0]
    else LessEq(a[1..], b[1..])
  }

  lemma {:induction false} LessEqReflexive(a: string)
    ensures LessEq(a, a)
  {
    if a != [] {
      LessEqReflexive(a[1..]);
    }
  }

  lemma {:induction false} LessEqTotal(a: string, b: string)
    ensures LessEq(a, b) || LessEq(b, a)
  {
    if a != [] && b != [] && a[0] == b[0] {
      LessEqTotal(a[1..], b[1..]);
    }
  }

  lemma {:induction false} LessEqAntisymmetric(a: string, b: string)
    requires LessEq(a, b) && LessEq(b, a)
    ensures a == b
  {
    if a != [] && b != [] {
      LessEqAntisymmetric(a[1..], b[1..]);
      assert a == [a[0]] + a[1..] && b == [b[0]] + b[1..];
    }
  }

  lemma {:induction false} LessEqTransitive(a: string, b: string, c: string)
    requires LessEq(a, b) && LessEq(b, c)
    ensures LessEq(a, c)
  {
    if a != [] && b != [] && c != [] && a[0] == b[0] == c[0] {
      LessEqTransitive(a[1..], b[1..], c[1..]);
    }
  }

  /** A common prefix does not change how two names compare. */
  lemma {:induction false} LessEqCommonPrefix(p: string, x: string, y: string)
    ensures LessEq(p + x, p + y) <==> LessEq(x, y)
  {
    if p != [] {
      assert (p + x)[1..] == p[1..] + x && (p + y)[1..] == p[1..] + y;
      LessEqCommonPrefix(p[1..], x, y);
    } else {
      assert p + x == x && p + y == y;
    }
  }

  /** Nor does a common suffix after names of one length. */
  lemma {:induction false} LessEqCommonSuffix(x: string, y: string, t: string)
    requires |x| == |y|
    ensures LessEq(x + t, y + t) <==> LessEq(x, y)
  {
    if x == [] {
      assert x + t == t && y + t == t;
      LessEqReflexive(t);
    } else {
      assert (x + t)[1..] == x[1..] + t && (y + t)[1..] == y[1..] + t;
      LessEqCommonSuffix(x[1..], y[1..], t);
    }
  }

  /** Shorter names first, names of equal length in Python's order: frame order for `frame_%04d.jpg` names. */
  predicate LengthFirstLessEq(a: string, b: string) {
    |a| < |b| || (|a| == |b| && LessEq(a, b))
  }

  /** Between names of one length that differ, the comparison is decided inside them, whatever follows. */
  lemma {:induction false} LessEqDecidedWithin(x: string, y: string, t: string, u: string)
    requires |x| == |y| && x != y && LessEq(x, y)
    ensures LessEq(x + t, y + u)
  {
    assert (x + t)[0] == x[0] && (y + u)[0] == y[0];
    if x[0] == y[0] {
      assert x == [x[0]] + x[1..] && y == [y[0]] + y[1..];
      assert (x + t)[1..] == x[1..] + t && (y + u)[1..] == y[1..] + u;
      LessEqDecidedWithin(x[1..], y[1..], t, u);
    }
  }

  /** The order a file list is sorted by. */
  datatype Order = Lexicographic | LengthFirst

  predicate Le(o: Order, a: string, b: string) {
    match o
    case Lexicographic => LessEq(a, b)
    case LengthFirst => LengthFirstLessEq(a, b)
  }

  lemma LeReflexive(o: Order, a: string)
    ensures Le(o, a, a)
  {
    LessEqReflexive(a);
  }

  lemma LeTotal(o: Order, a: string, b: string)
    ensures Le(o, a, b) || Le(o, b, a)
  {
    LessEqTotal(a, b);
  }

  lemma LeAntisymmetric(o: Order, a: string, b: string)
    requires Le(o, a, b) && Le(o, b, a)
    ensures a == b
  {
    LessEqAntisymmetric(a, b);
  }

  lemma LeTransitive(o: Order, a: string, b: string, c: string)
    requires Le(o, a, b) && Le(o, b, c)
    ensures Le(o, a, c)
  {
    if o.Lexicographic? || (|a| == |b| == |c|) {
      LessEqTransitive(a, b, c);
    }
  }

  /** On names of one length the two orders agree. */
  lemma OrdersAgreeOnEqualLengths(a: string, b: string)
    requires |a| == |b|
    ensures Le(LengthFirst, a, b) <==> Le(Lexicographic, a, b)
  {
  }

  /** Every name is `<=` every later one. */
  predicate Sorted(o: Order, s: seq<string>) {
    forall i, j :: 0 <= i < j < |s| ==> Le(o, s[i], s[j])
  }

  /** Places `x` before the first element it is `<=`. */
  function Insert(o: Order, x: string, s: seq<string>): (r: seq<string>)
    ensures |r| == |s| + 1
  {
    if s == [] then [x]
    else if Le(o, x, s[0]) then [x] + s
    else [s[0]] + Insert(o, x, s[1..])
  }

  /** `sorted(s)`, by insertion. Python's sort is a different algorithm; SortedUnique shows that the result is the same. */
  function Sort(o: Order, s: seq<string>): (r: seq<string>)
    ensures |r| == |s|
  {
    if s == [] then [] else Insert(o, s[0], Sort(o, s[1..]))
  }

  lemma {:induction false} InsertSorted(o: Order, x: string, s: seq<string>)
    requires Sorted(o, s)
    ensures Sorted(o, Insert(o, x, s))
    ensures multiset(Insert(o, x, s)) == multiset(s) + multiset{x}
  {
    if s == [] {
    } else if Le(o, x, s[0]) {
      forall j | 0 <= j < |s| ensures Le(o, x, s[j]) {
        if j > 0 {
          LeTransitive(o, x, s[0], s[j]);
        }
      }
      assert s == [s[0]] + s[1..];
    } else {
      var rest := Insert(o, x, s[1..]);
      InsertSorted(o, x, s[1..]);
      LeTotal(o, x, s[0]);
      BoundStaysBelow(o, s[0], x, s[1..], rest);
      assert Insert(o, x, s) == [s[0]] + rest;
      assert s == [s[0]] + s[1..];
    }
  }

  /** A name at or below `x` and every item of `t` is at or below every item of a list holding `t` and `x`. */
  lemma BoundStaysBelow(o: Order, y: string, x: string, t: seq<string>, r: seq<string>)
    requires Le(o, y, x) && forall k :: 0 <= k < |t| ==> Le(o, y, t[k])
    requires multiset(r) == multiset(t) + multiset{x}
    ensures forall j :: 0 <= j < |r| ==> Le(o, y, r[j])
  {
    forall j | 0 <= j < |r| ensures Le(o, y, r[j]) {
      assert r[j] in multiset(r);
      if r[j] != x {
        assert r[j] in multiset(t);
        var k :| 0 <= k < |t| && t[k] == r[j];
      }
    }
  }

  /** `sorted(s)` is in order and is a permutation of `s`. */
  lemma {:induction false} SortSortedPermutation(o: Order, s: seq<string>)
    ensures Sorted(o, Sort(o, s))
    ensures multiset(Sort(o, s)) == multiset(s)
  {
    if s != [] {
      SortSortedPermutation(o, s[1..]);
      InsertSorted(o, s[0], Sort(o, s[1..]));
      assert s == [s[0]] + s[1..];
    }
  }

  /** The first element of a sorted list is `<=` every element of it. */
  lemma SortedHeadLeast(o: Order, s: seq<string>, x: string)
    requires Sorted(o, s) && x in s
    ensures Le(o, s[0], x)
  {
    var k :| 0 <= k < |s| && s[k] == x;
    if k == 0 {
      LeReflexive(o, x);
    }
  }

  lemma TailMultiset(s: seq<string>)
    requires s != []
    ensures multiset(s[1..]) == multiset(s) - multiset{s[0]}
  {
    assert s == [s[0]] + s[1..];
  }

  /** There is only one sorted permutation of a list of names, so any sort algorithm returns Sort(o, s). */
  lemma {:induction false} SortedUnique(o: Order, s: seq<string>, t: seq<string>)
    requires Sorted(o, s) && Sorted(o, t)
    requires multiset(s) == multiset(t)
    ensures s == t
  {
    if s != [] {
      assert s[0] in multiset(t);
      SortedHeadLeast(o, t, s[0]);
      assert t[0] in multiset(s);
      SortedHeadLeast(o, s, t[0]);
      LeAntisymmetric(o, s[0], t[0]);
      TailMultiset(s);
      TailMultiset(t);
      SortedUnique(o, s[1..], t[1..]);
      assert s == [s[0]] + s[1..] && t == [t[0]] + t[1..];
    }
  }

  /** When all names have one length, sorting them length-first is sorting them as Python does. */
  lemma SortEqualLengths(s: seq<string>, n: nat)
    requires forall i :: 0 <= i < |s| ==> |s[i]| == n
    ensures Sort(LengthFirst, s) == Sort(Lexicographic, s)
  {
    var a, b := Sort(LengthFirst, s), Sort(Lexicographic, s);
    SortSortedPermutation(LengthFirst, s);
    SortSortedPermutation(Lexicographic, s);
    forall i, j | 0 <= i < j < |a| ensures Le(Lexicographic, a[i], a[j]) {
      assert a[i] in multiset(s) && a[j] in multiset(s);
      OrdersAgreeOnEqualLengths(a[i], a[j]);
    }
    SortedUnique(Lexicographic, a, b);
  }
}
