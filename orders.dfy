/** Java comparators and what the collections library builds from them: the order of
    String.compareTo and Integer.compare, a stable sort (List.sort, Stream.sorted) and the
    contents of a TreeSet filled in encounter order. */
module Orders {

  /** The sign of a comparator result; a Java comparator promises nothing beyond the sign. */
  function Sign(x: int): int { if x < 0 then -1 else if x > 0 then 1 else 0 }

  /** The contract of java.util.Comparator (a comparator is total by its type): the sign of
      compare(a, b) is the opposite of that of compare(b, a), and "not greater" is transitive. */
  ghost predicate TotalPreorder<T(!new)>(cmp: (T, T) -> int) {
    && (forall a, b :: Antisymmetric(cmp, a, b))
    && (forall a, b, c :: Transitive(cmp, a, b, c))
  }

  /** The two halves of TotalPreorder for given elements; kept as predicates of their own so that
      the solver uses an instance only where a proof names it (see Flip and Chain). */
  ghost predicate Antisymmetric<T>(cmp: (T, T) -> int, a: T, b: T) {
    Sign(cmp(a, b)) == -Sign(cmp(b, a))
  }

  ghost predicate Transitive<T>(cmp: (T, T) -> int, a: T, b: T, c: T) {
    cmp(a, b) <= 0 && cmp(b, c) <= 0 ==> cmp(a, c) <= 0
  }

  lemma Flip<T(!new)>(cmp: (T, T) -> int, a: T, b: T)
    requires TotalPreorder(cmp)
    ensures Sign(cmp(a, b)) == -Sign(cmp(b, a))
    ensures cmp(a, a) == 0
  {
    assert Antisymmetric(cmp, a, b) && Antisymmetric(cmp, a, a);
  }

  lemma Chain<T(!new)>(cmp: (T, T) -> int, a: T, b: T, c: T)
    requires TotalPreorder(cmp)
    requires cmp(a, b) <= 0 && cmp(b, c) <= 0
    ensures cmp(a, c) <= 0
  {
    assert Transitive(cmp, a, b, c);
  }

  /** Collections.reverseOrder(cmp) and cmp.reversed(): the same comparator with its arguments swapped. */
  function Reverse<T>(cmp: (T, T) -> int): (T, T) -> int {
    (a, b) => cmp(b, a)
  }

  lemma ReversePreorder<T(!new)>(cmp: (T, T) -> int)
    requires TotalPreorder(cmp)
    ensures TotalPreorder(Reverse(cmp))
    ensures forall a, b :: Reverse(Reverse(cmp))(a, b) == cmp(a, b)
  {
    var rev := Reverse(cmp);
    forall a, b ensures Antisymmetric(rev, a, b) {
      Flip(cmp, a, b);
    }
    forall a, b, c ensures Transitive(rev, a, b, c) {
      if rev(a, b) <= 0 && rev(b, c) <= 0 {
        Chain(cmp, c, b, a);
      }
    }
  }

  lemma EquivTrans<T(!new)>(cmp: (T, T) -> int, a: T, b: T, c: T)
    requires TotalPreorder(cmp)
    requires cmp(a, b) == 0 && cmp(b, c) == 0
    ensures cmp(a, c) == 0 && cmp(c, a) == 0
  {
    Flip(cmp, a, b);
    Flip(cmp, b, c);
    Chain(cmp, a, b, c);
    Chain(cmp, c, b, a);
    Flip(cmp, a, c);
  }

  lemma StrictTrans<T(!new)>(cmp: (T, T) -> int, a: T, b: T, c: T)
    requires TotalPreorder(cmp)
    requires (cmp(a, b) < 0 && cmp(b, c) <= 0) || (cmp(a, b) <= 0 && cmp(b, c) < 0)
    ensures cmp(a, c) < 0
  {
    Flip(cmp, a, b);
    Flip(cmp, b, c);
    Flip(cmp, a, c);
    if cmp(a, c) >= 0 {
      if cmp(a, b) < 0 {
        Chain(cmp, b, c, a);
      } else {
        Chain(cmp, c, a, b);
      }
    }
  }

  /** Comparator.comparing(key, cmp), and comparingInt(key) with Integer.compare: compare the keys. */
  function Comparing<T, K>(key: T -> K, cmp: (K, K) -> int): (T, T) -> int {
    (a, b) => cmp(key(a), key(b))
  }

  /** first.thenComparing(second): the first comparator's result unless it is zero, then the
      second's. */
  function ThenComparing<T>(first: (T, T) -> int, second: (T, T) -> int): (T, T) -> int {
    (a, b) => if first(a, b) != 0 then first(a, b) else second(a, b)
  }

  /** What the combinators compute on two given elements: instances the solver does not find
      through the closures on its own. */
  lemma ComparingApply<T, K>(key: T -> K, cmp: (K, K) -> int, a: T, b: T)
    ensures Comparing(key, cmp)(a, b) == cmp(key(a), key(b))
  {
  }

  lemma ThenComparingApply<T>(first: (T, T) -> int, second: (T, T) -> int, a: T, b: T)
    ensures ThenComparing(first, second)(a, b) == if first(a, b) != 0 then first(a, b) else second(a, b)
  {
  }

  lemma ReverseApply<T>(cmp: (T, T) -> int, a: T, b: T)
    ensures Reverse(cmp)(a, b) == cmp(b, a)
  {
  }

  /** Comparing keys under a lawful order is lawful. */
  lemma ComparingPreorder<T(!new), K(!new)>(key: T -> K, cmp: (K, K) -> int)
    requires TotalPreorder(cmp)
    ensures TotalPreorder(Comparing(key, cmp))
  {
    var c := Comparing(key, cmp);
    forall a, b ensures Antisymmetric(c, a, b) {
      Flip(cmp, key(a), key(b));
    }
    forall a, b, d ensures Transitive(c, a, b, d) {
      if c(a, b) <= 0 && c(b, d) <= 0 {
        Chain(cmp, key(a), key(b), key(d));
      }
    }
  }

  /** The lexicographic combination of two lawful orders is lawful. */
  lemma ThenComparingPreorder<T(!new)>(first: (T, T) -> int, second: (T, T) -> int)
    requires TotalPreorder(first) && TotalPreorder(second)
    ensures TotalPreorder(ThenComparing(first, second))
  {
    var c := ThenComparing(first, second);
    forall a, b ensures Antisymmetric(c, a, b) {
      Flip(first, a, b);
      Flip(second, a, b);
    }
    forall a, b, d ensures Transitive(c, a, b, d) {
      if c(a, b) <= 0 && c(b, d) <= 0 {
        ThenComparingChain(first, second, a, b, d);
      }
    }
  }

  lemma ThenComparingChain<T(!new)>(first: (T, T) -> int, second: (T, T) -> int, a: T, b: T, d: T)
    requires TotalPreorder(first) && TotalPreorder(second)
    requires ThenComparing(first, second)(a, b) <= 0 && ThenComparing(first, second)(b, d) <= 0
    ensures ThenComparing(first, second)(a, d) <= 0
  {
    if first(a, b) == 0 && first(b, d) == 0 {
      EquivTrans(first, a, b, d);
      Chain(second, a, b, d);
    } else {
      StrictTrans(first, a, b, d);
    }
  }

  /** Integer.compare is a total order. */
  lemma IntOrder()
    ensures TotalPreorder(CompareInts)
  {
    forall a, b ensures Antisymmetric(CompareInts, a, b) {
    }
    forall a, b, c ensures Transitive(CompareInts, a, b, c) {
    }
  }

  /** Every element is not greater than every later one. */
  predicate Sorted<T>(cmp: (T, T) -> int, s: seq<T>) {
    forall i, j :: 0 <= i < j < |s| ==> cmp(s[i], s[j]) <= 0
  }

  /** Every element is less than every later one: ascending, with no two elements comparing equal. */
  predicate StrictlySorted<T>(cmp: (T, T) -> int, s: seq<T>) {
    forall i, j :: 0 <= i < j < |s| ==> cmp(s[i], s[j]) < 0
  }

  // ---------------------------------------------------------------------------------------------
  // Integer.compare and String.compareTo

  /** Integer.compare. */
  function CompareInts(x: int, y: int): (r: int)
    ensures r < 0 <==> x < y
    ensures r == 0 <==> x == y
  {
    if x < y then -1 else if x == y then 0 else 1
  }

  /** The UTF-16 code units of one character, as a Java char[] holds it: one unit below U+10000,
      otherwise a high surrogate followed by a low surrogate. */
  function CharUnits(c: char): (units: seq<int>)
    ensures forall k :: 0 <= k < |units| ==> 0 <= units[k] < 0x1_0000
    ensures 1 <= |units| <= 2
  {
    if c as int < 0x1_0000 then [c as int]
    else
      var v := c as int - 0x1_0000;
      [0xD800 + v / 0x400, 0xDC00 + v % 0x400]
  }

  /** The UTF-16 code units of a string: what String.toCharArray and String.charAt see. */
  function Utf16(s: string): (units: seq<int>)
    ensures forall k :: 0 <= k < |units| ==> 0 <= units[k] < 0x1_0000
    ensures (forall k :: 0 <= k < |s| ==> s[k] as int < 128) ==>
      |units| == |s| && forall k :: 0 <= k < |s| ==> units[k] == s[k] as int
    decreases |s|
  {
    if s == [] then [] else CharUnits(s[0]) + Utf16(s[1..])
  }

  /** A character is determined by its units, and its first unit tells how many there are: a
      high surrogate starts a pair and no character of one unit is a surrogate. */
  lemma CharUnitsInjective(c: char, d: char)
    requires CharUnits(c)[0] == CharUnits(d)[0]
    ensures |CharUnits(c)| == |CharUnits(d)|
    ensures |CharUnits(c)| == 2 && CharUnits(c)[1] == CharUnits(d)[1] ==> c == d
    ensures |CharUnits(c)| == 1 ==> c == d
  {
  }

  /** Different strings have different units. */
  lemma {:induction false} Utf16Injective(a: string, b: string)
    requires Utf16(a) == Utf16(b)
    ensures a == b
    decreases |a|
  {
    if a != [] && b != [] {
      var ua, ub := CharUnits(a[0]), CharUnits(b[0]);
      assert Utf16(a) == ua + Utf16(a[1..]) && Utf16(b) == ub + Utf16(b[1..]);
      assert ua[0] == Utf16(a)[0] == ub[0];
      CharUnitsInjective(a[0], b[0]);
      if |ua| == 2 {
        assert ua[1] == Utf16(a)[1] == ub[1];
      }
      assert Utf16(a)[|ua|..] == Utf16(a[1..]) && Utf16(b)[|ub|..] == Utf16(b[1..]);
      Utf16Injective(a[1..], b[1..]);
      assert a == [a[0]] + a[1..] && b == [b[0]] + b[1..];
    }
  }

  /** The loop of String.compareTo over two char arrays: the difference of the first pair of
      differing units, otherwise the difference of the lengths. */
  function CompareUnits(a: seq<int>, b: seq<int>): int {
    if a == [] || b == [] then |a| - |b|
    else if a[0] != b[0] then a[0] - b[0]
    else CompareUnits(a[1..], b[1..])
  }

  /** String.compareTo: the strings compared unit by unit in UTF-16, so a character above U+FFFF
      compares by its high surrogate and comes before U+E000 to U+FFFF. */
  function CompareStrings(a: string, b: string): int {
    CompareUnits(Utf16(a), Utf16(b))
  }

  lemma {:induction false} CompareUnitsZero(a: seq<int>, b: seq<int>)
    ensures CompareUnits(a, b) == 0 <==> a == b
  {
    if a != [] && b != [] && a[0] == b[0] {
      CompareUnitsZero(a[1..], b[1..]);
      assert a == [a[0]] + a[1..] && b == [b[0]] + b[1..];
    }
  }

  lemma {:induction false} CompareUnitsAntisymmetric(a: seq<int>, b: seq<int>)
    ensures Sign(CompareUnits(a, b)) == -Sign(CompareUnits(b, a))
  {
    if a != [] && b != [] && a[0] == b[0] {
      CompareUnitsAntisymmetric(a[1..], b[1..]);
    }
  }

  lemma {:induction false} CompareUnitsTransitive(a: seq<int>, b: seq<int>, c: seq<int>)
    requires CompareUnits(a, b) <= 0 && CompareUnits(b, c) <= 0
    ensures CompareUnits(a, c) <= 0
  {
    if a != [] && b != [] && c != [] && a[0] == b[0] && b[0] == c[0] {
      CompareUnitsTransitive(a[1..], b[1..], c[1..]);
    }
  }

  /** compareTo is zero exactly for equal strings. */
  lemma CompareStringsZero(a: string, b: string)
    ensures CompareStrings(a, b) == 0 <==> a == b
  {
    CompareUnitsZero(Utf16(a), Utf16(b));
    if Utf16(a) == Utf16(b) {
      Utf16Injective(a, b);
    }
  }

  /** String.compareTo is a total order: a total preorder whose ties are equal strings. */
  lemma StringOrder()
    ensures TotalPreorder(CompareStrings)
    ensures forall a, b :: CompareStrings(a, b) == 0 <==> a == b
  {
    forall a, b ensures Antisymmetric(CompareStrings, a, b) {
      CompareUnitsAntisymmetric(Utf16(a), Utf16(b));
    }
    forall a, b, c ensures Transitive(CompareStrings, a, b, c) {
      if CompareStrings(a, b) <= 0 && CompareStrings(b, c) <= 0 {
        CompareUnitsTransitive(Utf16(a), Utf16(b), Utf16(c));
      }
    }
    forall a, b ensures CompareStrings(a, b) == 0 <==> a == b {
      CompareStringsZero(a, b);
    }
  }

  /** The order is that of UTF-16 units, not of code points: U+FFFF comes after U+10000, whose
      first unit is the surrogate 0xD800. */
  lemma SurrogatesSortLow()
    ensures CompareStrings("\U{FFFF}", "\U{10000}") > 0
    ensures "\U{FFFF}"[0] as int < "\U{10000}"[0] as int
  {
    assert Utf16("\U{FFFF}") == [0xFFFF];
    assert Utf16("\U{10000}") == [0xD800, 0xDC00];
  }

  // ---------------------------------------------------------------------------------------------
  // Stable sorting

  /** Puts x in front of the first element it is not greater than. */
  function Insert<T>(cmp: (T, T) -> int, x: T, s: seq<T>): (r: seq<T>)
    ensures multiset(r) == multiset(s) + multiset{x}
    decreases |s|
  {
    if s == [] then [x]
    else if cmp(x, s[0]) <= 0 then [x] + s
    else
      assert s == [s[0]] + s[1..];
      [s[0]] + Insert(cmp, x, s[1..])
  }

  /** The stable sort of java.util.List.sort and Stream.sorted: each element is inserted in
      front of the later elements it is not greater than, so equal elements keep their order. */
  function Sort<T>(cmp: (T, T) -> int, s: seq<T>): (r: seq<T>)
    ensures multiset(r) == multiset(s)
    decreases |s|
  {
    if s == [] then []
    else
      assert s == [s[0]] + s[1..];
      Insert(cmp, s[0], Sort(cmp, s[1..]))
  }

  /** An element not greater than any element of a sorted sequence can go in front of it. */
  lemma PrependSorted<T>(cmp: (T, T) -> int, a: T, s: seq<T>)
    requires Sorted(cmp, s)
    requires forall k :: 0 <= k < |s| ==> cmp(a, s[k]) <= 0
    ensures Sorted(cmp, [a] + s)
  {
    var r := [a] + s;
    forall i, j | 0 <= i < j < |r| ensures cmp(r[i], r[j]) <= 0 {
      if i == 0 {
        assert r[j] == s[j - 1];
      } else {
        assert r[i] == s[i - 1] && r[j] == s[j - 1];
      }
    }
  }

  /** Below the head of a sorted sequence is below all of it. */
  lemma BelowHeadSorted<T(!new)>(cmp: (T, T) -> int, x: T, s: seq<T>)
    requires TotalPreorder(cmp) && Sorted(cmp, s)
    requires s != [] && cmp(x, s[0]) <= 0
    ensures forall k :: 0 <= k < |s| ==> cmp(x, s[k]) <= 0
  {
    forall k | 0 < k < |s| ensures cmp(x, s[k]) <= 0 {
      Chain(cmp, x, s[0], s[k]);
    }
  }

  lemma {:induction false} InsertSorted<T(!new)>(cmp: (T, T) -> int, x: T, s: seq<T>)
    requires TotalPreorder(cmp)
    requires Sorted(cmp, s)
    ensures Sorted(cmp, Insert(cmp, x, s))
    decreases |s|
  {
    if s == [] {
    } else if cmp(x, s[0]) <= 0 {
      BelowHeadSorted(cmp, x, s);
      PrependSorted(cmp, x, s);
    } else {
      InsertSorted(cmp, x, s[1..]);
      var tail := Insert(cmp, x, s[1..]);
      Flip(cmp, x, s[0]);
      forall k | 0 <= k < |tail| ensures cmp(s[0], tail[k]) <= 0 {
        assert tail[k] in multiset(tail);
        if tail[k] != x {
          assert tail[k] in multiset(s[1..]);
          var j :| 0 <= j < |s[1..]| && s[1..][j] == tail[k];
          assert s[j + 1] == tail[k];
        }
      }
      PrependSorted(cmp, s[0], tail);
    }
  }

  /** The sort's result is sorted; with the multiset ensures of Sort, it is a sorted permutation. */
  lemma {:induction false} SortSorted<T(!new)>(cmp: (T, T) -> int, s: seq<T>)
    requires TotalPreorder(cmp)
    ensures Sorted(cmp, Sort(cmp, s)) && multiset(Sort(cmp, s)) == multiset(s)
    decreases |s|
  {
    if s != [] {
      SortSorted(cmp, s[1..]);
      InsertSorted(cmp, s[0], Sort(cmp, s[1..]));
    }
  }

  /** The elements of s tied with e, in their order in s. */
  ghost function Ties<T>(cmp: (T, T) -> int, e: T, s: seq<T>): seq<T>
    decreases |s|
  {
    if s == [] then [] else (if cmp(s[0], e) == 0 then [s[0]] else []) + Ties(cmp, e, s[1..])
  }

  /** The ties of a sequence with a given head. */
  lemma TiesCons<T>(cmp: (T, T) -> int, e: T, y: T, t: seq<T>)
    ensures Ties(cmp, e, [y] + t) == (if cmp(y, e) == 0 then [y] else []) + Ties(cmp, e, t)
  {
    assert ([y] + t)[0] == y && ([y] + t)[1..] == t;
  }

  /** Two sequences of which one is empty commute in front of a third. */
  lemma SwapEmpty<T>(a: seq<T>, b: seq<T>, t: seq<T>)
    requires a == [] || b == []
    ensures b + (a + t) == a + (b + t)
  {
  }

  /** Two elements that are both tied with e are tied with each other. */
  lemma TiedBoth<T(!new)>(cmp: (T, T) -> int, e: T, x: T, y: T)
    requires TotalPreorder(cmp) && cmp(x, e) == 0 && cmp(y, e) == 0
    ensures cmp(x, y) <= 0
  {
    Flip(cmp, y, e);
    Chain(cmp, x, e, y);
  }

  /** Inserting x puts it in front of every element tied with it, so among the elements tied
      with any e it comes first when it is one of them. */
  lemma {:induction false} InsertTies<T(!new)>(cmp: (T, T) -> int, e: T, x: T, s: seq<T>)
    requires TotalPreorder(cmp)
    ensures Ties(cmp, e, Insert(cmp, x, s)) == (if cmp(x, e) == 0 then [x] else []) + Ties(cmp, e, s)
    decreases |s|
  {
    if s == [] {
      TiesCons(cmp, e, x, []);
    } else if cmp(x, s[0]) <= 0 {
      TiesCons(cmp, e, x, s);
    } else {
      var y, rest := s[0], s[1..];
      assert s == [y] + rest;
      assert Insert(cmp, x, s) == [y] + Insert(cmp, x, rest);
      InsertTies(cmp, e, x, rest);
      TiesCons(cmp, e, y, Insert(cmp, x, rest));
      TiesCons(cmp, e, y, rest);
      if cmp(x, e) == 0 && cmp(y, e) == 0 {
        TiedBoth(cmp, e, x, y);
      }
      SwapEmpty(if cmp(x, e) == 0 then [x] else [], if cmp(y, e) == 0 then [y] else [], Ties(cmp, e, rest));
    }
  }

  /** The sort is stable: the elements tied with any e keep their order. */
  lemma {:induction false} SortStable<T(!new)>(cmp: (T, T) -> int, e: T, s: seq<T>)
    requires TotalPreorder(cmp)
    ensures Ties(cmp, e, Sort(cmp, s)) == Ties(cmp, e, s)
    decreases |s|
  {
    if s != [] {
      SortStable(cmp, e, s[1..]);
      InsertTies(cmp, e, s[0], Sort(cmp, s[1..]));
    }
  }

  // ---------------------------------------------------------------------------------------------
  // TreeSet

  /** Some element of t compares equal to x. */
  predicate HasEquivalent<T>(cmp: (T, T) -> int, t: seq<T>, x: T) {
    exists k :: 0 <= k < |t| && cmp(x, t[k]) == 0
  }

  /** TreeSet.add on the ascending contents t: t unchanged when an element compares equal to x
      (the element already there is kept), otherwise x in its place. */
  function TreeAdd<T>(cmp: (T, T) -> int, t: seq<T>, x: T): (r: seq<T>)
    ensures r == t || multiset(r) == multiset(t) + multiset{x}
    decreases |t|
  {
    if t == [] then [x]
    else if cmp(x, t[0]) < 0 then [x] + t
    else if cmp(x, t[0]) == 0 then t
    else
      assert t == [t[0]] + t[1..];
      [t[0]] + TreeAdd(cmp, t[1..], x)
  }

  /** The ascending contents of a TreeSet to which the elements of s were added in order
      (Collectors.toCollection(() -> new TreeSet<>(cmp)) and new TreeSet<>(cmp) + addAll). */
  function TreeSetOf<T>(cmp: (T, T) -> int, s: seq<T>): seq<T>
    decreases |s|
  {
    if s == [] then [] else TreeAdd(cmp, TreeSetOf(cmp, s[..|s| - 1]), s[|s| - 1])
  }

  /** TreeSet.add leaves the set as it was exactly when an equal element is present. */
  lemma {:induction false} TreeAddKeeps<T(!new)>(cmp: (T, T) -> int, t: seq<T>, x: T)
    requires TotalPreorder(cmp)
    requires StrictlySorted(cmp, t)
    ensures HasEquivalent(cmp, t, x) <==> TreeAdd(cmp, t, x) == t
    decreases |t|
  {
    if t == [] {
    } else if cmp(x, t[0]) < 0 {
      assert |TreeAdd(cmp, t, x)| == |t| + 1;
      BelowHeadNoEquivalent(cmp, t, x);
    } else if cmp(x, t[0]) == 0 {
    } else {
      var tail := t[1..];
      TreeAddKeeps(cmp, tail, x);
      EquivalentInTail(cmp, t, x);
      var rt := TreeAdd(cmp, tail, x);
      assert TreeAdd(cmp, t, x) == [t[0]] + rt;
      if rt == tail {
        assert t == [t[0]] + tail;
      } else {
        assert ([t[0]] + rt)[1..] == rt;
      }
    }
  }

  /** Nothing in ascending contents compares equal to an element below the first. */
  lemma BelowHeadNoEquivalent<T(!new)>(cmp: (T, T) -> int, t: seq<T>, x: T)
    requires TotalPreorder(cmp) && StrictlySorted(cmp, t)
    requires t != [] && cmp(x, t[0]) < 0
    ensures !HasEquivalent(cmp, t, x)
  {
    forall k | 0 < k < |t| ensures cmp(x, t[k]) < 0 {
      StrictTrans(cmp, x, t[0], t[k]);
    }
  }

  lemma EquivalentInTail<T>(cmp: (T, T) -> int, t: seq<T>, x: T)
    requires t != [] && cmp(x, t[0]) != 0
    ensures HasEquivalent(cmp, t, x) <==> HasEquivalent(cmp, t[1..], x)
  {
    var tail := t[1..];
    if HasEquivalent(cmp, t, x) {
      var k :| 0 <= k < |t| && cmp(x, t[k]) == 0;
      assert tail[k - 1] == t[k];
    }
    if HasEquivalent(cmp, tail, x) {
      var k :| 0 <= k < |tail| && cmp(x, tail[k]) == 0;
      assert t[k + 1] == tail[k];
    }
  }

  /** TreeSet.add keeps the contents ascending and free of equal elements. */
  lemma {:induction false} TreeAddSorted<T(!new)>(cmp: (T, T) -> int, t: seq<T>, x: T)
    requires TotalPreorder(cmp)
    requires StrictlySorted(cmp, t)
    ensures StrictlySorted(cmp, TreeAdd(cmp, t, x))
    decreases |t|
  {
    if t == [] {
    } else if cmp(x, t[0]) < 0 {
      forall k | 0 <= k < |t| ensures cmp(x, t[k]) < 0 {
        if k > 0 {
          StrictTrans(cmp, x, t[0], t[k]);
        }
      }
      PrependStrictlySorted(cmp, x, t);
    } else if cmp(x, t[0]) == 0 {
    } else {
      var tail := t[1..];
      TreeAddSorted(cmp, tail, x);
      var rt := TreeAdd(cmp, tail, x);
      TreeAddFrom(cmp, tail, x);
      Flip(cmp, x, t[0]);
      forall k | 0 <= k < |rt| ensures cmp(t[0], rt[k]) < 0 {
        assert rt[k] in rt;
        if rt[k] != x {
          var j :| 0 <= j < |tail| && tail[j] == rt[k];
          assert t[j + 1] == rt[k];
        }
      }
      PrependStrictlySorted(cmp, t[0], rt);
    }
  }

  /** TreeSet.add brings in no element other than the one added. */
  lemma TreeAddFrom<T>(cmp: (T, T) -> int, t: seq<T>, x: T)
    ensures forall y :: y in TreeAdd(cmp, t, x) ==> y in t || y == x
  {
    var r := TreeAdd(cmp, t, x);
    forall y | y in r ensures y in t || y == x {
      assert y in multiset(r);
    }
  }

  lemma PrependStrictlySorted<T>(cmp: (T, T) -> int, a: T, s: seq<T>)
    requires StrictlySorted(cmp, s)
    requires forall k :: 0 <= k < |s| ==> cmp(a, s[k]) < 0
    ensures StrictlySorted(cmp, [a] + s)
  {
    var r := [a] + s;
    forall i, j | 0 <= i < j < |r| ensures cmp(r[i], r[j]) < 0 {
      if i == 0 {
        assert r[j] == s[j - 1];
      } else {
        assert r[i] == s[i - 1] && r[j] == s[j - 1];
      }
    }
  }

  /** s[i] is the first element of s in its class of equal elements. */
  predicate FirstOfClass<T>(cmp: (T, T) -> int, s: seq<T>, i: int)
    requires 0 <= i < |s|
  {
    forall j :: 0 <= j < i ==> cmp(s[j], s[i]) != 0
  }

  /** What TreeSet.add may and must contain afterwards. */
  lemma TreeAddMembers<T(!new)>(cmp: (T, T) -> int, t: seq<T>, x: T)
    requires TotalPreorder(cmp)
    requires StrictlySorted(cmp, t)
    ensures forall y :: y in TreeAdd(cmp, t, x) ==> y in t || y == x
    ensures forall y :: y in t ==> y in TreeAdd(cmp, t, x)
    ensures HasEquivalent(cmp, t, x) || x in TreeAdd(cmp, t, x)
  {
    TreeAddKeeps(cmp, t, x);
    TreeAddFrom(cmp, t, x);
    var r := TreeAdd(cmp, t, x);
    if r != t {
      forall y | y in t ensures y in r {
        assert y in multiset(t);
        assert y in multiset(r);
      }
      assert x in multiset(r);
    }
  }

  lemma {:induction false} TreeSetOfSorted<T(!new)>(cmp: (T, T) -> int, s: seq<T>)
    requires TotalPreorder(cmp)
    ensures StrictlySorted(cmp, TreeSetOf(cmp, s))
    decreases |s|
  {
    if s != [] {
      TreeSetOfSorted(cmp, s[..|s| - 1]);
      TreeAddSorted(cmp, TreeSetOf(cmp, s[..|s| - 1]), s[|s| - 1]);
    }
  }

  /** Every element added to the TreeSet has an equal element in it. */
  lemma {:induction false} TreeSetOfCovers<T(!new)>(cmp: (T, T) -> int, s: seq<T>)
    requires TotalPreorder(cmp)
    ensures forall i :: 0 <= i < |s| ==> HasEquivalent(cmp, TreeSetOf(cmp, s), s[i])
    decreases |s|
  {
    if s != [] {
      var p, x := s[..|s| - 1], s[|s| - 1];
      TreeSetOfCovers(cmp, p);
      TreeSetOfSorted(cmp, p);
      assert s == p + [x];
      CoversStep(cmp, p, x, TreeSetOf(cmp, p));
    }
  }

  /** One add of TreeSetOfCovers: the old elements keep their equal element, the new one has one. */
  lemma CoversStep<T(!new)>(cmp: (T, T) -> int, p: seq<T>, x: T, t: seq<T>)
    requires TotalPreorder(cmp) && StrictlySorted(cmp, t)
    requires forall i :: 0 <= i < |p| ==> HasEquivalent(cmp, t, p[i])
    ensures forall i :: 0 <= i < |p| + 1 ==> HasEquivalent(cmp, TreeAdd(cmp, t, x), (p + [x])[i])
  {
    TreeAddMembers(cmp, t, x);
    var s, r := p + [x], TreeAdd(cmp, t, x);
    forall i | 0 <= i < |s| ensures HasEquivalent(cmp, r, s[i]) {
      if i < |p| {
        assert s[i] == p[i];
        var k :| 0 <= k < |t| && cmp(p[i], t[k]) == 0;
        assert t[k] in r;
        var m :| 0 <= m < |r| && r[m] == t[k];
      } else if HasEquivalent(cmp, t, x) {
        TreeAddKeeps(cmp, t, x);
      } else {
        var m :| 0 <= m < |r| && r[m] == x;
        Flip(cmp, x, x);
      }
    }
  }

  /** Whether s[i] comes first in its class depends only on the elements up to it. */
  lemma FirstOfClassPrefix<T>(cmp: (T, T) -> int, p: seq<T>, x: T, i: int)
    requires 0 <= i < |p|
    ensures FirstOfClass(cmp, p + [x], i) <==> FirstOfClass(cmp, p, i)
  {
    var s := p + [x];
    assert forall j :: 0 <= j <= i ==> s[j] == p[j];
  }

  /** The TreeSet holds only elements that came first in their class of equal elements. */
  lemma {:induction false} TreeSetOfMembers<T(!new)>(cmp: (T, T) -> int, s: seq<T>)
    requires TotalPreorder(cmp)
    ensures forall y :: y in TreeSetOf(cmp, s) ==> exists i :: 0 <= i < |s| && s[i] == y && FirstOfClass(cmp, s, i)
    decreases |s|
  {
    if s != [] {
      var p, x := s[..|s| - 1], s[|s| - 1];
      TreeSetOfMembers(cmp, p);
      TreeSetOfCovers(cmp, p);
      TreeSetOfSorted(cmp, p);
      assert s == p + [x];
      MembersStep(cmp, p, x, TreeSetOf(cmp, p));
    }
  }

  /** One add of TreeSetOfMembers: an old member stays first of its class, and x is added only
      when nothing before it is equal to it. */
  lemma MembersStep<T(!new)>(cmp: (T, T) -> int, p: seq<T>, x: T, t: seq<T>)
    requires TotalPreorder(cmp) && StrictlySorted(cmp, t)
    requires forall i :: 0 <= i < |p| ==> HasEquivalent(cmp, t, p[i])
    requires forall y :: y in t ==> exists i :: 0 <= i < |p| && p[i] == y && FirstOfClass(cmp, p, i)
    ensures forall y :: y in TreeAdd(cmp, t, x) ==>
      exists i :: 0 <= i < |p| + 1 && (p + [x])[i] == y && FirstOfClass(cmp, p + [x], i)
  {
    TreeAddMembers(cmp, t, x);
    TreeAddKeeps(cmp, t, x);
    var s, r := p + [x], TreeAdd(cmp, t, x);
    forall y | y in r ensures exists i :: 0 <= i < |s| && s[i] == y && FirstOfClass(cmp, s, i) {
      if y in t {
        var i :| 0 <= i < |p| && p[i] == y && FirstOfClass(cmp, p, i);
        FirstOfClassPrefix(cmp, p, x, i);
        assert s[i] == y;
      } else {
        assert y == x && !HasEquivalent(cmp, t, x);
        NewFirstOfClass(cmp, p, x, t);
        assert s[|p|] == y;
      }
    }
  }

  /** x comes first in its class in p + [x] when the set, which has an element equal to every
      element of p, has none equal to x. */
  lemma NewFirstOfClass<T(!new)>(cmp: (T, T) -> int, p: seq<T>, x: T, t: seq<T>)
    requires TotalPreorder(cmp)
    requires forall i :: 0 <= i < |p| ==> HasEquivalent(cmp, t, p[i])
    requires !HasEquivalent(cmp, t, x)
    ensures FirstOfClass(cmp, p + [x], |p|)
  {
    var s := p + [x];
    forall j | 0 <= j < |p| ensures cmp(s[j], s[|p|]) != 0 {
      assert s[j] == p[j] && s[|p|] == x;
      var k :| 0 <= k < |t| && cmp(p[j], t[k]) == 0;
      if cmp(p[j], x) == 0 {
        Flip(cmp, p[j], x);
        EquivTrans(cmp, x, p[j], t[k]);
        assert false;
      }
    }
  }

  /** Every element that came first in its class of equal elements is in the TreeSet. */
  lemma {:induction false} TreeSetOfComplete<T(!new)>(cmp: (T, T) -> int, s: seq<T>)
    requires TotalPreorder(cmp)
    ensures forall i :: 0 <= i < |s| && FirstOfClass(cmp, s, i) ==> s[i] in TreeSetOf(cmp, s)
    decreases |s|
  {
    if s != [] {
      var p, x := s[..|s| - 1], s[|s| - 1];
      TreeSetOfComplete(cmp, p);
      TreeSetOfMembers(cmp, p);
      TreeSetOfSorted(cmp, p);
      assert s == p + [x];
      CompleteStep(cmp, p, x, TreeSetOf(cmp, p));
    }
  }

  /** One add of TreeSetOfComplete: old members stay, and x, when first of its class, has no
      equal element in the set and so is added. */
  lemma CompleteStep<T(!new)>(cmp: (T, T) -> int, p: seq<T>, x: T, t: seq<T>)
    requires TotalPreorder(cmp) && StrictlySorted(cmp, t)
    requires forall i :: 0 <= i < |p| && FirstOfClass(cmp, p, i) ==> p[i] in t
    requires forall y :: y in t ==> exists i :: 0 <= i < |p| && p[i] == y && FirstOfClass(cmp, p, i)
    ensures forall i :: 0 <= i < |p| + 1 && FirstOfClass(cmp, p + [x], i) ==> (p + [x])[i] in TreeAdd(cmp, t, x)
  {
    TreeAddMembers(cmp, t, x);
    var s, r := p + [x], TreeAdd(cmp, t, x);
    forall i | 0 <= i < |s| && FirstOfClass(cmp, s, i) ensures s[i] in r {
      if i < |p| {
        FirstOfClassPrefix(cmp, p, x, i);
        assert s[i] == p[i] && p[i] in t;
      } else if HasEquivalent(cmp, t, x) {
        var k :| 0 <= k < |t| && cmp(x, t[k]) == 0;
        assert t[k] in t;
        var i0 :| 0 <= i0 < |p| && p[i0] == t[k] && FirstOfClass(cmp, p, i0);
        assert s[i0] == p[i0] && s[i] == x;
        Flip(cmp, x, t[k]);
        assert false;
      }
    }
  }

  /** The contents of a TreeSet filled from s: ascending and free of equal elements, holding
      exactly the first element of s of every class of equal elements. A TreeSet never replaces
      an element when an equal one is added. */
  lemma TreeSetOfSpec<T(!new)>(cmp: (T, T) -> int, s: seq<T>)
    requires TotalPreorder(cmp)
    ensures StrictlySorted(cmp, TreeSetOf(cmp, s))
    ensures forall y :: y in TreeSetOf(cmp, s) ==> exists i :: 0 <= i < |s| && s[i] == y && FirstOfClass(cmp, s, i)
    ensures forall i :: 0 <= i < |s| && FirstOfClass(cmp, s, i) ==> s[i] in TreeSetOf(cmp, s)
    ensures forall i :: 0 <= i < |s| ==> HasEquivalent(cmp, TreeSetOf(cmp, s), s[i])
  {
    TreeSetOfSorted(cmp, s);
    TreeSetOfMembers(cmp, s);
    TreeSetOfComplete(cmp, s);
    TreeSetOfCovers(cmp, s);
  }
}
