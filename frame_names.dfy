/**
 * The names the frame extractor gives its images (`frame_%04d.jpg`, counted
 * from 1) and how `sorted()` orders them.
 */
module FrameNames {
  import opened PyText
  import opened NameOrder

  /** `%04d`: the decimal digits of `n`, zero-padded on the left to at least four. */
  function Pad4(n: nat): (r: string)
    ensures AllDigits(r)
    ensures |r| == if |NatToString(n)| >= 4 then |NatToString(n)| else 4
  {
    var d := NatToString(n);
    if |d| >= 4 then d else seq(4 - |d|, _ => '0') + d
  }

  /** The padding reads back as the number it pads. */
  lemma Pad4Value(n: nat)
    ensures ParseDecimal(Pad4(n)) == n
  {
    var d := NatToString(n);
    ParseNatToString(n);
    if |d| < 4 {
      ParseDecimalLeadingZeros(seq(4 - |d|, _ => '0'), d);
    }
  }

  /** The name of the `n`-th image the extractor writes. */
  function ExtractedName(n: nat): string {
    "frame_" + Pad4(n) + ".jpg"
  }

  /** The names of a folder the extractor filled with `k` images, in extraction order. */
  function ExtractedNames(k: nat): (r: seq<string>)
    ensures |r| == k
  {
    seq(k, i requires 0 <= i < k => ExtractedName(i + 1))
  }

  /** The first `m` of `k` extracted names are the names of a folder filled with `m` images. */
  lemma ExtractedNamesPrefix(k: nat, m: nat)
    requires m <= k
    ensures ExtractedNames(k)[..m] == ExtractedNames(m)
  {
  }

  /** Of two numbers written with `|x|` digits, the one with the smaller leading digit is smaller. */
  lemma LeadingDigitDecides(dx: nat, dy: nat, p: nat, rx: nat, ry: nat)
    requires dx < dy && rx < p
    ensures dx * p + rx < dy * p + ry
  {
    assert (dy - dx) * p >= p by {
      assert dy - dx >= 1;
    }
    assert dy * p - dx * p == (dy - dx) * p;
  }

  /** Digit strings of one length compare as text exactly as their values compare. */
  lemma {:induction false} DigitTextOrder(x: string, y: string)
    requires AllDigits(x) && AllDigits(y) && |x| == |y|
    ensures LessEq(x, y) <==> ParseDecimal(x) <= ParseDecimal(y)
  {
    if x != [] {
      ParseDecimalFront(x);
      ParseDecimalFront(y);
      ParseDecimalBound(x[1..]);
      ParseDecimalBound(y[1..]);
      var p := Pow10(|x| - 1);
      var dx, dy := DigitValue(x[0]), DigitValue(y[0]);
      var rx, ry := ParseDecimal(x[1..]), ParseDecimal(y[1..]);
      if x[0] < y[0] {
        assert dx < dy;
        LeadingDigitDecides(dx, dy, p, rx, ry);
      } else if y[0] < x[0] {
        assert dy < dx;
        LeadingDigitDecides(dy, dx, p, ry, rx);
      } else {
        DigitTextOrder(x[1..], y[1..]);
      }
    }
  }

  /** Extracted names sort length-first exactly in extraction order. */
  lemma LengthFirstIsFrameOrder(a: nat, b: nat)
    ensures Le(LengthFirst, ExtractedName(a), ExtractedName(b)) <==> a <= b
  {
    var pa, pb := Pad4(a), Pad4(b);
    Pad4Value(a);
    Pad4Value(b);
    NatToStringLength(a);
    NatToStringLength(b);
    assert |ExtractedName(a)| == |pa| + 10 && |ExtractedName(b)| == |pb| + 10;
    if |pa| == |pb| {
      assert ExtractedName(a) == "frame_" + (pa + ".jpg") && ExtractedName(b) == "frame_" + (pb + ".jpg");
      LessEqCommonPrefix("frame_", pa + ".jpg", pb + ".jpg");
      LessEqCommonSuffix(pa, pb, ".jpg");
      DigitTextOrder(pa, pb);
    } else if |pa| < |pb| {
      Pow10Monotone(|NatToString(a)|, |pb| - 1);
    } else {
      Pow10Monotone(|NatToString(b)|, |pa| - 1);
    }
  }

  /** Sorting a freshly filled folder length-first lists its images in extraction order. */
  lemma SortLengthFirstExtracted(k: nat, listing: seq<string>)
    requires multiset(listing) == multiset(ExtractedNames(k))
    ensures Sort(LengthFirst, listing) == ExtractedNames(k)
  {
    ExtractedNamesSortedLengthFirst(k);
    SortSortedPermutation(LengthFirst, listing);
    SortedUnique(LengthFirst, Sort(LengthFirst, listing), ExtractedNames(k));
  }

  /** The names in extraction order are already in length-first order. */
  lemma ExtractedNamesSortedLengthFirst(k: nat)
    ensures Sorted(LengthFirst, ExtractedNames(k))
  {
    var names := ExtractedNames(k);
    forall i | 0 <= i < k ensures names[i] == ExtractedName(i + 1) {
    }
    forall a: nat, b: nat | a <= b ensures Le(LengthFirst, ExtractedName(a), ExtractedName(b)) {
      LengthFirstIsFrameOrder(a, b);
    }
  }

  /** Below 10000 the padded names all have fourteen characters. */
  lemma ExtractedNameLength(n: nat)
    requires n < 10000
    ensures |ExtractedName(n)| == 14
  {
    NatToStringLength(n);
    if |NatToString(n)| > 4 {
      Pow10Monotone(4, |NatToString(n)| - 1);
    }
  }

  /** With fewer than 10000 images every name has the same length, and Python's `sorted()` is extraction order too. */
  lemma SortPythonExtractedBelow10000(k: nat, listing: seq<string>)
    requires k < 10000
    requires multiset(listing) == multiset(ExtractedNames(k))
    ensures Sort(Lexicographic, listing) == ExtractedNames(k)
  {
    var names := ExtractedNames(k);
    forall i | 0 <= i < |listing| ensures |listing[i]| == 14 {
      assert listing[i] in multiset(names);
      assert listing[i] in names;
      var j :| 0 <= j < k && names[j] == listing[i];
      ExtractedNameLength(j + 1);
    }
    SortEqualLengths(listing, 14);
    SortLengthFirstExtracted(k, listing);
  }

  /** Python's `sorted()` places `frame_10000.jpg` before `frame_1001.jpg`. */
  lemma PythonSortMisordersFrame10000()
    ensures Sort(Lexicographic, [ExtractedName(1001), ExtractedName(10000)]) == [ExtractedName(10000), ExtractedName(1001)]
  {
    var a, b := ExtractedName(1001), ExtractedName(10000);
    Frame10000TextOrder(1001);
    assert [a, b][1..] == [b] && [b][1..] == [];
    assert Sort(Lexicographic, [b]) == Insert(Lexicographic, b, []) == [b];
    assert Insert(Lexicographic, a, [b]) == [b] + Insert(Lexicographic, a, []);
  }

  /** So, from 10000 images on, Python's `sorted()` no longer lists a folder in extraction order. */
  lemma SortPythonExtractedFrom10000(k: nat, listing: seq<string>)
    requires k >= 10000
    requires multiset(listing) == multiset(ExtractedNames(k))
    ensures Sort(Lexicographic, listing) != ExtractedNames(k)
  {
    var names := ExtractedNames(k);
    SortSortedPermutation(Lexicographic, listing);
    Frame10000TextOrder(1001);
    assert names[1000] == ExtractedName(1001) && names[9999] == ExtractedName(10000);
    assert !Sorted(Lexicographic, names);
  }

  /** As text, `frame_10000.jpg` follows the names of frames 1 to 1000 and precedes those of frames 1001 to 9999. */
  lemma Frame10000TextOrder(n: nat)
    requires 1 <= n < 10000
    ensures LessEq(ExtractedName(n), ExtractedName(10000)) <==> n <= 1000
    ensures LessEq(ExtractedName(10000), ExtractedName(n)) <==> n > 1000
  {
    var p, q := "1000", Pad4(n);
    assert NatToString(1000) == p && NatToString(10000) == p + "0";
    assert ExtractedName(n) == "frame_" + (q + ".jpg");
    assert ExtractedName(10000) == "frame_" + (p + "0.jpg");
    LessEqCommonPrefix("frame_", q + ".jpg", p + "0.jpg");
    LessEqCommonPrefix("frame_", p + "0.jpg", q + ".jpg");
    ExtractedNameLength(n);
    Pad4Value(n);
    Pad4Value(1000);
    DigitTextOrder(q, p);
    if n < 1000 {
      LessEqDecidedWithin(q, p, ".jpg", "0.jpg");
    } else if n == 1000 {
      assert q + ".jpg" == p + ".jpg" && p + "0.jpg" == p + "0.jpg";
      LessEqCommonPrefix(p, ".jpg", "0.jpg");
      LessEqCommonPrefix(p, "0.jpg", ".jpg");
      assert LessEq(".jpg", "0.jpg") && !LessEq("0.jpg", ".jpg");
    } else {
      DigitTextOrder(p, q);
      LessEqDecidedWithin(p, q, "0.jpg", ".jpg");
    }
    LessEqTotal(ExtractedName(n), ExtractedName(10000));
    if LessEq(ExtractedName(n), ExtractedName(10000)) && LessEq(ExtractedName(10000), ExtractedName(n)) {
      LessEqAntisymmetric(ExtractedName(n), ExtractedName(10000));
    }
  }

  /** The frame whose name is `i`-th in text order among the extractor's first 10000 names. */
  function FrameAtTextPosition(i: nat): nat {
    if i < 1000 then i + 1 else if i == 1000 then 10000 else i
  }

  /** The extractor's first 10000 names as Python's `sorted()` lists them: `frame_10000.jpg` right after `frame_1000.jpg`. */
  function PythonOrder10000(): (r: seq<string>)
    ensures |r| == 10000
  {
    seq(10000, i requires 0 <= i < 10000 => ExtractedName(FrameAtTextPosition(i)))
  }

  lemma PythonOrder10000Sorted()
    ensures Sorted(Lexicographic, PythonOrder10000())
  {
    var e := PythonOrder10000();
    forall i | 0 <= i < 10000 ensures e[i] == ExtractedName(FrameAtTextPosition(i)) {
    }
    forall a: nat, b: nat | 1 <= a <= b < 10000 ensures LessEq(ExtractedName(a), ExtractedName(b)) {
      LengthFirstIsFrameOrder(a, b);
      ExtractedNameLength(a);
      ExtractedNameLength(b);
    }
    forall n: nat | 1 <= n < 10000
      ensures LessEq(ExtractedName(n), ExtractedName(10000)) <==> n <= 1000
      ensures LessEq(ExtractedName(10000), ExtractedName(n)) <==> n > 1000
    {
      Frame10000TextOrder(n);
    }
  }

  /** The text order holds the same names as extraction order, with `frame_10000.jpg` moved from the end to position 1000. */
  lemma PythonOrder10000Permutation()
    ensures multiset(PythonOrder10000()) == multiset(ExtractedNames(10000))
  {
    var e, names := PythonOrder10000(), ExtractedNames(10000);
    forall i | 0 <= i < 1000 ensures e[i] == names[i] {
      SameFrameAt(i, i);
    }
    SameFrameAt(1000, 9999);
    forall i | 1000 <= i < 9999 ensures e[i + 1] == names[i] {
      SameFrameAt(i + 1, i);
    }
    MoveLastPermutation(names, e, 1000);
  }

  lemma SameFrameAt(i: nat, j: nat)
    requires i < 10000 && j < 10000 && FrameAtTextPosition(i) == j + 1
    ensures PythonOrder10000()[i] == ExtractedNames(10000)[j]
  {
  }

  /** Moving the last item of a list to position `k` keeps its items. */
  lemma MoveLastPermutation<T>(s: seq<T>, t: seq<T>, k: nat)
    requires k < |s| == |t|
    requires forall i :: 0 <= i < k ==> t[i] == s[i]
    requires t[k] == s[|s| - 1]
    requires forall i :: k <= i < |s| - 1 ==> t[i + 1] == s[i]
    ensures multiset(t) == multiset(s)
  {
    assert t[..k] == s[..k];
    assert t[k + 1..] == s[k..|s| - 1];
    assert t == t[..k] + [t[k]] + t[k + 1..];
    assert s == s[..k] + s[k..|s| - 1] + [s[|s| - 1]];
  }

  /** Any listing of the extractor's first 10000 names comes out of Python's `sorted()` in text order. */
  lemma SortPythonExtracted10000(listing: seq<string>)
    requires multiset(listing) == multiset(ExtractedNames(10000))
    ensures Sort(Lexicographic, listing) == PythonOrder10000()
  {
    PythonOrder10000Sorted();
    PythonOrder10000Permutation();
    SortSortedPermutation(Lexicographic, listing);
    SortedUnique(Lexicographic, Sort(Lexicographic, listing), PythonOrder10000());
  }
}
