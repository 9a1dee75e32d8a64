/** ArraySet: an immutable NavigableSet over a strictly ascending list, answered by binary search.
    Both versions of the class are modelled here; they differ only in `compare` and in
    `descendingSet`, whose earlier forms carry the suffix V1. */
module ArraySet {
  import opened Wrappers
  import opened Orders
  import ReversedListView

  /** The unchecked exceptions the class throws. */
  datatype Exception = IllegalArgument | NoSuchElement | UnsupportedOperation

  /** The two final fields, `storage` and `comparator` (None is null), and the elements' own
      compareTo, which the collections library uses when the comparator is null. */
  datatype ArraySet<!E> = ArraySet(storage: seq<E>, comparator: Option<(E, E) -> int>, natural: (E, E) -> int)

  /** One end of a sub-set: open (fromStart / toEnd), or an element and whether it is included. */
  datatype Bound<E> = Unbounded | Bounded(element: E, inclusive: bool)

  /** The order Collections.binarySearch and TreeSet apply: the comparator, or natural order for null. */
  function Order<E>(a: ArraySet<E>): (E, E) -> int {
    match a.comparator
    case Some(c) => c
    case None => a.natural
  }

  /** What the class relies on: a lawful order and storage strictly ascending under it. */
  ghost predicate Valid<E(!new)>(a: ArraySet<E>) {
    TotalPreorder(Order(a)) && StrictlySorted(Order(a), a.storage)
  }

  // ---------------------------------------------------------------------------------------------
  // Construction

  /** ArraySet(collection, comparator): the ascending contents of a TreeSet filled from collection. */
  function FromCollection<E>(collection: seq<E>, comparator: Option<(E, E) -> int>, natural: (E, E) -> int): ArraySet<E> {
    var order := match comparator case Some(c) => c case None => natural;
    ArraySet(TreeSetOf(order, collection), comparator, natural)
  }

  /** ArraySet(collection): the same with a null comparator. */
  function FromCollectionNatural<E>(collection: seq<E>, natural: (E, E) -> int): ArraySet<E> {
    FromCollection(collection, None, natural)
  }

  /** ArraySet(): the empty set in natural order. */
  function Empty<E>(natural: (E, E) -> int): ArraySet<E> {
    FromCollectionNatural([], natural)
  }

  /** The constructor yields a valid set without duplicates: every element of the collection has an
      equal element stored, and what is stored is the first of its class in encounter order. */
  lemma ConstructorSpec<E(!new)>(collection: seq<E>, comparator: Option<(E, E) -> int>, natural: (E, E) -> int)
    requires TotalPreorder(Order(FromCollection(collection, comparator, natural)))
    ensures var a := FromCollection(collection, comparator, natural);
      && Valid(a)
      && a.comparator == comparator
      && (forall i :: 0 <= i < |collection| ==> HasEquivalent(Order(a), a.storage, collection[i]))
      && (forall y :: y in a.storage <==>
            exists i :: 0 <= i < |collection| && collection[i] == y && FirstOfClass(Order(a), collection, i))
  {
    var a := FromCollection(collection, comparator, natural);
    TreeSetOfSpec(Order(a), collection);
  }

  /** The empty constructor yields the empty set. */
  lemma EmptySpec<E(!new)>(natural: (E, E) -> int)
    ensures Empty(natural).storage == [] && Empty(natural).comparator == None
  {
  }

  // ---------------------------------------------------------------------------------------------
  // Collections.binarySearch

  /** (low + high) >>> 1 on non-negative bounds: the midpoint, rounded down. */
  function Mid(low: int, high: int): (m: int)
    requires 0 <= low <= high
    ensures low <= m <= high
  {
    (low + high) / 2
  }

  /** The loop of Collections.binarySearch between low and high: mid = (low + high) >>> 1, compare
      list[mid] with the key, move low or high past mid, and return -(low + 1) when they cross. */
  function SearchRange<E>(cmp: (E, E) -> int, s: seq<E>, key: E, low: int, high: int): (r: int)
    requires 0 <= low <= high + 1 <= |s|
    ensures r >= 0 ==> low <= r <= high
    ensures r < 0 ==> low <= -(r + 1) <= high + 1
    decreases high + 1 - low
  {
    if low > high then -(low + 1)
    else
      var mid := Mid(low, high);
      var c := cmp(s[mid], key);
      if c < 0 then SearchRange(cmp, s, key, mid + 1, high)
      else if c > 0 then SearchRange(cmp, s, key, low, mid - 1)
      else mid
  }

  /** Collections.binarySearch(list, key, cmp). */
  function JavaBinarySearch<E>(cmp: (E, E) -> int, s: seq<E>, key: E): (r: int)
    ensures -(|s| + 1) <= r < |s|
  {
    SearchRange(cmp, s, key, 0, |s| - 1)
  }

  /** Everything before `low` is less than the key and everything after `high` greater. */
  ghost predicate Partitioned<E>(cmp: (E, E) -> int, s: seq<E>, key: E, low: int, high: int) {
    && (forall i :: 0 <= i < low && i < |s| ==> cmp(s[i], key) < 0)
    && (forall i :: 0 <= i && high < i < |s| ==> cmp(s[i], key) > 0)
  }

  /** Comparing with the key is monotone along s: less than the key only below an element less
      than it, greater than the key only above an element greater than it. */
  ghost predicate KeyAscending<E>(cmp: (E, E) -> int, s: seq<E>, key: E) {
    && (forall i, j :: 0 <= i < j < |s| && cmp(s[j], key) < 0 ==> cmp(s[i], key) < 0)
    && (forall i, j :: 0 <= i < j < |s| && cmp(s[i], key) > 0 ==> cmp(s[j], key) > 0)
  }

  /** Strictly ascending input is monotone towards any key. */
  lemma KeyAscendingOf<E(!new)>(cmp: (E, E) -> int, s: seq<E>, key: E)
    requires TotalPreorder(cmp) && StrictlySorted(cmp, s)
    ensures KeyAscending(cmp, s, key)
  {
    forall i, j | 0 <= i < j < |s| && cmp(s[j], key) < 0 ensures cmp(s[i], key) < 0 {
      StrictTrans(cmp, s[i], s[j], key);
    }
    forall i, j | 0 <= i < j < |s| && cmp(s[i], key) > 0 ensures cmp(s[j], key) > 0 {
      Flip(cmp, s[i], key);
      StrictTrans(cmp, key, s[i], s[j]);
      Flip(cmp, key, s[j]);
    }
  }

  /** What a search result promises: a non-negative result is the index of an element equal to
      the key; a negative one -(p + 1) names the insertion point p, with everything before p less
      than the key and everything from p on greater. */
  ghost predicate Found<E>(cmp: (E, E) -> int, s: seq<E>, key: E, r: int) {
    && (0 <= r < |s| ==> cmp(s[r], key) == 0)
    && (r < 0 ==> Partitioned(cmp, s, key, -(r + 1), -(r + 1) - 1))
  }

  /** On input monotone towards the key the search finds an equal element, or fails with the
      insertion point: everything before it is less than the key and everything from it on greater. */
  lemma {:induction false} SearchRangeSpec<E>(cmp: (E, E) -> int, s: seq<E>, key: E, low: int, high: int)
    requires KeyAscending(cmp, s, key)
    requires 0 <= low <= high + 1 <= |s|
    requires Partitioned(cmp, s, key, low, high)
    ensures Found(cmp, s, key, SearchRange(cmp, s, key, low, high))
    decreases high + 1 - low, 1
  {
    if low > high {
      assert SearchRange(cmp, s, key, low, high) == -(low + 1) && high == low - 1;
    } else if cmp(s[Mid(low, high)], key) < 0 {
      SearchAbove(cmp, s, key, low, high);
    } else if cmp(s[Mid(low, high)], key) > 0 {
      SearchBelow(cmp, s, key, low, high);
    } else {
      assert SearchRange(cmp, s, key, low, high) == Mid(low, high);
    }
  }

  /** The step past a middle element less than the key. */
  lemma {:induction false} SearchAbove<E>(cmp: (E, E) -> int, s: seq<E>, key: E, low: int, high: int)
    requires KeyAscending(cmp, s, key)
    requires 0 <= low <= high < |s| && cmp(s[Mid(low, high)], key) < 0
    requires Partitioned(cmp, s, key, low, high)
    ensures Found(cmp, s, key, SearchRange(cmp, s, key, low, high))
    decreases high + 1 - low, 0
  {
    var mid := Mid(low, high);
    assert SearchRange(cmp, s, key, low, high) == SearchRange(cmp, s, key, mid + 1, high);
    PartitionedAbove(cmp, s, key, low, high, mid);
    SearchRangeSpec(cmp, s, key, mid + 1, high);
  }

  /** The step below a middle element greater than the key. */
  lemma {:induction false} SearchBelow<E>(cmp: (E, E) -> int, s: seq<E>, key: E, low: int, high: int)
    requires KeyAscending(cmp, s, key)
    requires 0 <= low <= high < |s| && cmp(s[Mid(low, high)], key) > 0
    requires Partitioned(cmp, s, key, low, high)
    ensures Found(cmp, s, key, SearchRange(cmp, s, key, low, high))
    decreases high + 1 - low, 0
  {
    var mid := Mid(low, high);
    assert SearchRange(cmp, s, key, low, high) == SearchRange(cmp, s, key, low, mid - 1);
    PartitionedBelow(cmp, s, key, low, high, mid);
    SearchRangeSpec(cmp, s, key, low, mid - 1);
  }

  /** An element less than the key moves the lower end of the partition past it. */
  lemma PartitionedAbove<E>(cmp: (E, E) -> int, s: seq<E>, key: E, low: int, high: int, mid: int)
    requires KeyAscending(cmp, s, key)
    requires 0 <= low <= mid <= high < |s| && cmp(s[mid], key) < 0
    requires Partitioned(cmp, s, key, low, high)
    ensures Partitioned(cmp, s, key, mid + 1, high)
  {
    forall i | 0 <= i < mid ensures cmp(s[i], key) < 0 {
      assert cmp(s[mid], key) < 0;
    }
  }

  /** An element greater than the key moves the upper end of the partition below it. */
  lemma PartitionedBelow<E>(cmp: (E, E) -> int, s: seq<E>, key: E, low: int, high: int, mid: int)
    requires KeyAscending(cmp, s, key)
    requires 0 <= low <= mid <= high < |s| && cmp(s[mid], key) > 0
    requires Partitioned(cmp, s, key, low, high)
    ensures Partitioned(cmp, s, key, low, mid - 1)
  {
    forall i | mid < i < |s| ensures cmp(s[i], key) > 0 {
      assert cmp(s[mid], key) > 0;
    }
  }

  /** Collections.binarySearch on strictly ascending input: a non-negative result is the index of
      an equal element; a negative result -(p + 1) names the insertion point p. */
  lemma JavaBinarySearchSpec<E(!new)>(cmp: (E, E) -> int, s: seq<E>, key: E)
    requires TotalPreorder(cmp) && StrictlySorted(cmp, s)
    ensures var r := JavaBinarySearch(cmp, s, key);
      && (r >= 0 ==> cmp(s[r], key) == 0)
      && (r < 0 ==>
            && (forall i :: 0 <= i < -(r + 1) ==> cmp(s[i], key) < 0)
            && (forall i :: -(r + 1) <= i < |s| ==> cmp(s[i], key) > 0))
  {
    KeyAscendingOf(cmp, s, key);
    SearchRangeSpec(cmp, s, key, 0, |s| - 1);
  }

  // ---------------------------------------------------------------------------------------------
  // Index arithmetic

  /** The private binarySearch: the index of an equal element, otherwise the insertion point. */
  function BinarySearch<E>(a: ArraySet<E>, e: E): (r: int)
    ensures 0 <= r <= |a.storage|
  {
    var result := JavaBinarySearch(Order(a), a.storage, e);
    if result >= 0 then result else -1 - result
  }

  /** The new compare: Collections.reverseOrder(comparator).reversed(). */
  function Compare<E>(a: ArraySet<E>, e1: E, e2: E): int {
    Reverse(Reverse(Order(a)))(e1, e2)
  }

  /** The earlier compare: the elements' compareTo for a null comparator, else the comparator. The
      empty `if (e1 instanceof Comparable)` before it has no effect and has no counterpart. */
  function CompareV1<E>(a: ArraySet<E>, e1: E, e2: E): int {
    match a.comparator
    case None => a.natural(e1, e2)
    case Some(c) => c(e1, e2)
  }

  /** Both versions of compare are the order binary search uses. */
  lemma CompareVersionsAgree<E>(a: ArraySet<E>, e1: E, e2: E)
    ensures Compare(a, e1, e2) == Order(a)(e1, e2)
    ensures CompareV1(a, e1, e2) == Order(a)(e1, e2)
  {
  }

  function CeilingIndex<E>(a: ArraySet<E>, e: E): (r: int)
    ensures 0 <= r <= |a.storage|
  {
    BinarySearch(a, e)
  }

  function HigherIndex<E>(a: ArraySet<E>, e: E): (r: int)
    ensures 0 <= r <= |a.storage|
  {
    var result := BinarySearch(a, e);
    if result < |a.storage| && Compare(a, e, a.storage[result]) == 0 then result + 1 else result
  }

  function FloorIndex<E>(a: ArraySet<E>, e: E): (r: int)
    ensures -1 <= r < |a.storage|
  {
    var result := BinarySearch(a, e);
    if result < |a.storage| && Compare(a, e, a.storage[result]) == 0 then result else result - 1
  }

  function LowerIndex<E>(a: ArraySet<E>, e: E): (r: int)
    ensures -1 <= r < |a.storage|
  {
    BinarySearch(a, e) - 1
  }

  /** binarySearch returns the number of stored elements less than e: the element's index if
      present, otherwise the insertion point. */
  lemma BinarySearchSpec<E(!new)>(a: ArraySet<E>, e: E)
    requires Valid(a)
    ensures var r := BinarySearch(a, e);
      && (forall i :: 0 <= i < r ==> Order(a)(a.storage[i], e) < 0)
      && (forall i :: r <= i < |a.storage| ==> Order(a)(a.storage[i], e) >= 0)
      && ((exists i :: 0 <= i < |a.storage| && Order(a)(a.storage[i], e) == 0) <==>
            r < |a.storage| && Order(a)(a.storage[r], e) == 0)
  {
    var cmp, s := Order(a), a.storage;
    JavaBinarySearchSpec(cmp, s, e);
    var result := JavaBinarySearch(cmp, s, e);
    if result >= 0 {
      forall i | 0 <= i < |s| ensures (i < result ==> cmp(s[i], e) < 0) && (result <= i ==> cmp(s[i], e) >= 0) {
        if i < result {
          StrictTrans(cmp, s[i], s[result], e);
        } else if result < i {
          Flip(cmp, s[result], e);
          StrictTrans(cmp, e, s[result], s[i]);
          Flip(cmp, e, s[i]);
        }
      }
    }
  }

  /** ceilingIndex is the first index whose element is not less than e. */
  lemma CeilingIndexSpec<E(!new)>(a: ArraySet<E>, e: E)
    requires Valid(a)
    ensures var r := CeilingIndex(a, e);
      && (forall i :: 0 <= i < r ==> Order(a)(a.storage[i], e) < 0)
      && (forall i :: r <= i < |a.storage| ==> Order(a)(a.storage[i], e) >= 0)
  {
    BinarySearchSpec(a, e);
  }

  /** higherIndex is the first index whose element is greater than e. */
  lemma HigherIndexSpec<E(!new)>(a: ArraySet<E>, e: E)
    requires Valid(a)
    ensures var r := HigherIndex(a, e);
      && (forall i :: 0 <= i < r ==> Order(a)(a.storage[i], e) <= 0)
      && (forall i :: r <= i < |a.storage| ==> Order(a)(a.storage[i], e) > 0)
  {
    var cmp, s := Order(a), a.storage;
    BinarySearchSpec(a, e);
    var b := BinarySearch(a, e);
    if b < |s| {
      Flip(cmp, e, s[b]);
      forall i | b < i < |s| ensures cmp(s[i], e) > 0 {
        if cmp(s[i], e) <= 0 {
          StrictTrans(cmp, s[b], s[i], e);
        } else if cmp(e, s[b]) == 0 {
          StrictTrans(cmp, e, s[b], s[i]);
        }
      }
    }
  }

  /** floorIndex is the last index whose element is not greater than e: one before higherIndex. */
  lemma FloorIndexSpec<E(!new)>(a: ArraySet<E>, e: E)
    requires Valid(a)
    ensures FloorIndex(a, e) == HigherIndex(a, e) - 1
    ensures var r := FloorIndex(a, e);
      && (forall i :: 0 <= i <= r ==> Order(a)(a.storage[i], e) <= 0)
      && (forall i :: r < i < |a.storage| ==> Order(a)(a.storage[i], e) > 0)
  {
    HigherIndexSpec(a, e);
  }

  /** lowerIndex is the last index whose element is less than e: one before ceilingIndex. */
  lemma LowerIndexSpec<E(!new)>(a: ArraySet<E>, e: E)
    requires Valid(a)
    ensures LowerIndex(a, e) == CeilingIndex(a, e) - 1
    ensures var r := LowerIndex(a, e);
      && (forall i :: 0 <= i <= r ==> Order(a)(a.storage[i], e) < 0)
      && (forall i :: r < i < |a.storage| ==> Order(a)(a.storage[i], e) >= 0)
  {
    CeilingIndexSpec(a, e);
  }

  // ---------------------------------------------------------------------------------------------
  // Navigation

  /** getOrNull: the element at an index in [0, size), null elsewhere. */
  function GetOrNull<E>(a: ArraySet<E>, index: int): (r: Option<E>)
    ensures r.Some? <==> 0 <= index < |a.storage|
    ensures r.Some? ==> r.value == a.storage[index]
  {
    if 0 <= index < |a.storage| then Some(a.storage[index]) else None
  }

  function Lower<E>(a: ArraySet<E>, e: E): Option<E> { GetOrNull(a, LowerIndex(a, e)) }
  function Floor<E>(a: ArraySet<E>, e: E): Option<E> { GetOrNull(a, FloorIndex(a, e)) }
  function Ceiling<E>(a: ArraySet<E>, e: E): Option<E> { GetOrNull(a, CeilingIndex(a, e)) }
  function Higher<E>(a: ArraySet<E>, e: E): Option<E> { GetOrNull(a, HigherIndex(a, e)) }

  /** lower(e) is the greatest stored element less than e, and null exactly when there is none. */
  lemma LowerSpec<E(!new)>(a: ArraySet<E>, e: E)
    requires Valid(a)
    ensures Lower(a, e).None? <==> forall y :: y in a.storage ==> Order(a)(y, e) >= 0
    ensures Lower(a, e).Some? ==> var x := Lower(a, e).value;
      && x in a.storage && Order(a)(x, e) < 0
      && forall y :: y in a.storage && Order(a)(y, e) < 0 ==> Order(a)(y, x) <= 0
  {
    var cmp, s, r := Order(a), a.storage, LowerIndex(a, e);
    LowerIndexSpec(a, e);
    if 0 <= r {
      forall y | y in s && cmp(y, e) < 0 ensures cmp(y, s[r]) <= 0 {
        var j :| 0 <= j < |s| && s[j] == y;
        Flip(cmp, y, y);
      }
    } else {
      forall y | y in s ensures cmp(y, e) >= 0 {
        var j :| 0 <= j < |s| && s[j] == y;
      }
    }
  }

  /** floor(e) is the greatest stored element not greater than e, and null exactly when there is none. */
  lemma FloorSpec<E(!new)>(a: ArraySet<E>, e: E)
    requires Valid(a)
    ensures Floor(a, e).None? <==> forall y :: y in a.storage ==> Order(a)(y, e) > 0
    ensures Floor(a, e).Some? ==> var x := Floor(a, e).value;
      && x in a.storage && Order(a)(x, e) <= 0
      && forall y :: y in a.storage && Order(a)(y, e) <= 0 ==> Order(a)(y, x) <= 0
  {
    var cmp, s, r := Order(a), a.storage, FloorIndex(a, e);
    FloorIndexSpec(a, e);
    if 0 <= r {
      forall y | y in s && cmp(y, e) <= 0 ensures cmp(y, s[r]) <= 0 {
        var j :| 0 <= j < |s| && s[j] == y;
        Flip(cmp, y, y);
      }
    } else {
      forall y | y in s ensures cmp(y, e) > 0 {
        var j :| 0 <= j < |s| && s[j] == y;
      }
    }
  }

  /** ceiling(e) is the least stored element not less than e, and null exactly when there is none. */
  lemma CeilingSpec<E(!new)>(a: ArraySet<E>, e: E)
    requires Valid(a)
    ensures Ceiling(a, e).None? <==> forall y :: y in a.storage ==> Order(a)(y, e) < 0
    ensures Ceiling(a, e).Some? ==> var x := Ceiling(a, e).value;
      && x in a.storage && Order(a)(x, e) >= 0
      && forall y :: y in a.storage && Order(a)(y, e) >= 0 ==> Order(a)(x, y) <= 0
  {
    var cmp, s, r := Order(a), a.storage, CeilingIndex(a, e);
    CeilingIndexSpec(a, e);
    if r < |s| {
      forall y | y in s && cmp(y, e) >= 0 ensures cmp(s[r], y) <= 0 {
        var j :| 0 <= j < |s| && s[j] == y;
        Flip(cmp, y, y);
      }
    } else {
      forall y | y in s ensures cmp(y, e) < 0 {
        var j :| 0 <= j < |s| && s[j] == y;
      }
    }
  }

  /** higher(e) is the least stored element greater than e, and null exactly when there is none. */
  lemma HigherSpec<E(!new)>(a: ArraySet<E>, e: E)
    requires Valid(a)
    ensures Higher(a, e).None? <==> forall y :: y in a.storage ==> Order(a)(y, e) <= 0
    ensures Higher(a, e).Some? ==> var x := Higher(a, e).value;
      && x in a.storage && Order(a)(x, e) > 0
      && forall y :: y in a.storage && Order(a)(y, e) > 0 ==> Order(a)(x, y) <= 0
  {
    var cmp, s, r := Order(a), a.storage, HigherIndex(a, e);
    HigherIndexSpec(a, e);
    if r < |s| {
      forall y | y in s && cmp(y, e) > 0 ensures cmp(s[r], y) <= 0 {
        var j :| 0 <= j < |s| && s[j] == y;
        Flip(cmp, y, y);
      }
    } else {
      forall y | y in s ensures cmp(y, e) <= 0 {
        var j :| 0 <= j < |s| && s[j] == y;
      }
    }
  }

  // ---------------------------------------------------------------------------------------------
  // Membership, ends and polling

  /** contains(o): Collections.binarySearch finds o. */
  function Contains<E>(a: ArraySet<E>, o: E): bool {
    JavaBinarySearch(Order(a), a.storage, o) >= 0
  }

  /** contains(o) holds exactly when some stored element compares equal to o. */
  lemma ContainsSpec<E(!new)>(a: ArraySet<E>, o: E)
    requires Valid(a)
    ensures Contains(a, o) <==> exists i :: 0 <= i < |a.storage| && Order(a)(a.storage[i], o) == 0
  {
    JavaBinarySearchSpec(Order(a), a.storage, o);
  }

  function First<E>(a: ArraySet<E>): Result<E, Exception> {
    if |a.storage| == 0 then Failure(NoSuchElement) else Success(a.storage[0])
  }

  function Last<E>(a: ArraySet<E>): Result<E, Exception> {
    if |a.storage| == 0 then Failure(NoSuchElement) else Success(a.storage[|a.storage| - 1])
  }

  /** first() and last() throw NoSuchElementException exactly on the empty set, and otherwise
      return the least and the greatest stored element. */
  lemma FirstLastSpec<E(!new)>(a: ArraySet<E>)
    requires Valid(a)
    ensures First(a).Failure? <==> |a.storage| == 0
    ensures Last(a).Failure? <==> |a.storage| == 0
    ensures First(a).Failure? ==> First(a).error == NoSuchElement && Last(a).error == NoSuchElement
    ensures First(a).Success? ==>
      && First(a).value in a.storage
      && forall y :: y in a.storage ==> Order(a)(First(a).value, y) <= 0
    ensures Last(a).Success? ==>
      && Last(a).value in a.storage
      && forall y :: y in a.storage ==> Order(a)(y, Last(a).value) <= 0
  {
    var cmp, s := Order(a), a.storage;
    if |s| > 0 {
      forall y | y in s ensures cmp(s[0], y) <= 0 && cmp(y, s[|s| - 1]) <= 0 {
        Flip(cmp, y, y);
      }
    }
  }

  /** pollFirst() always throws: the set is never changed. */
  function PollFirst<E>(a: ArraySet<E>): (r: Result<E, Exception>)
    ensures r.Failure? && r.error == UnsupportedOperation
  {
    Failure(UnsupportedOperation)
  }

  /** pollLast() always throws: the set is never changed. */
  function PollLast<E>(a: ArraySet<E>): (r: Result<E, Exception>)
    ensures r.Failure? && r.error == UnsupportedOperation
  {
    Failure(UnsupportedOperation)
  }

  // ---------------------------------------------------------------------------------------------
  // Sub-sets

  function StartIndex<E>(a: ArraySet<E>, from: Bound<E>): (r: int)
    ensures 0 <= r <= |a.storage|
  {
    match from
    case Unbounded => 0
    case Bounded(lo, inclusive) => if inclusive then CeilingIndex(a, lo) else HigherIndex(a, lo)
  }

  function EndIndex<E>(a: ArraySet<E>, to: Bound<E>): (r: int)
    ensures 0 <= r <= |a.storage|
  {
    match to
    case Unbounded => |a.storage|
    case Bounded(hi, inclusive) => (if inclusive then FloorIndex(a, hi) else LowerIndex(a, hi)) + 1
  }

  /** getSubSet: checkBounds, then the slice [start, max(start, end)) with the same comparator. */
  function GetSubSet<E>(a: ArraySet<E>, from: Bound<E>, to: Bound<E>): Result<ArraySet<E>, Exception> {
    if from.Bounded? && to.Bounded? && Compare(a, from.element, to.element) > 0 then
      Failure(IllegalArgument)
    else
      var start := StartIndex(a, from);
      var end := EndIndex(a, to);
      Success(ArraySet(a.storage[start..if start < end then end else start], a.comparator, a.natural))
  }

  /** x lies within the bounds, inclusive or exclusive as each bound says. */
  ghost predicate WithinBounds<E>(cmp: (E, E) -> int, from: Bound<E>, to: Bound<E>, x: E) {
    AboveLower(cmp, from, x) && BelowUpper(cmp, to, x)
  }

  ghost predicate AboveLower<E>(cmp: (E, E) -> int, from: Bound<E>, x: E) {
    from.Bounded? ==> if from.inclusive then cmp(x, from.element) >= 0 else cmp(x, from.element) > 0
  }

  ghost predicate BelowUpper<E>(cmp: (E, E) -> int, to: Bound<E>, x: E) {
    to.Bounded? ==> if to.inclusive then cmp(x, to.element) <= 0 else cmp(x, to.element) < 0
  }

  /** Every index from start on lies above the lower bound, every index before it does not. */
  lemma StartIndexSpec<E(!new)>(a: ArraySet<E>, from: Bound<E>)
    requires Valid(a)
    ensures forall i :: 0 <= i < |a.storage| ==>
      (StartIndex(a, from) <= i <==> AboveLower(Order(a), from, a.storage[i]))
  {
    if from.Bounded? {
      CeilingIndexSpec(a, from.element);
      HigherIndexSpec(a, from.element);
    }
  }

  /** Every index before end lies below the upper bound, every index from it on does not. */
  lemma EndIndexSpec<E(!new)>(a: ArraySet<E>, to: Bound<E>)
    requires Valid(a)
    ensures forall i :: 0 <= i < |a.storage| ==>
      (i < EndIndex(a, to) <==> BelowUpper(Order(a), to, a.storage[i]))
  {
    if to.Bounded? {
      FloorIndexSpec(a, to.element);
      LowerIndexSpec(a, to.element);
    }
  }

  /** A slice of a strictly ascending sequence is strictly ascending. */
  lemma SliceStrictlySorted<E>(cmp: (E, E) -> int, s: seq<E>, i: int, j: int)
    requires 0 <= i <= j <= |s| && StrictlySorted(cmp, s)
    ensures StrictlySorted(cmp, s[i..j])
  {
    var t := s[i..j];
    forall k, l | 0 <= k < l < |t| ensures cmp(t[k], t[l]) < 0 {
      assert t[k] == s[i + k] && t[l] == s[i + l];
    }
  }

  /** The slice from the first index above the lower bound to the first index not below the upper
      bound holds exactly the elements within both bounds. */
  lemma SliceWithinBounds<E>(cmp: (E, E) -> int, s: seq<E>, from: Bound<E>, to: Bound<E>, start: int, end: int)
    requires 0 <= start <= |s| && 0 <= end <= |s|
    requires forall i :: 0 <= i < |s| ==> (start <= i <==> AboveLower(cmp, from, s[i]))
    requires forall i :: 0 <= i < |s| ==> (i < end <==> BelowUpper(cmp, to, s[i]))
    ensures forall x :: x in s[start..if start < end then end else start] <==> x in s && WithinBounds(cmp, from, to, x)
  {
    var stop := if start < end then end else start;
    var b := s[start..stop];
    forall x ensures x in b <==> x in s && WithinBounds(cmp, from, to, x) {
      if x in b {
        var k :| 0 <= k < |b| && b[k] == x;
        assert s[start + k] == x;
      }
      if x in s && WithinBounds(cmp, from, to, x) {
        var k :| 0 <= k < |s| && s[k] == x;
        assert b[k - start] == x;
      }
    }
  }

  /** The slice getSubSet returns holds exactly the stored elements within the bounds. */
  lemma GetSubSetMembers<E(!new)>(a: ArraySet<E>, from: Bound<E>, to: Bound<E>)
    requires Valid(a) && GetSubSet(a, from, to).Success?
    ensures forall x :: x in GetSubSet(a, from, to).value.storage <==>
      x in a.storage && WithinBounds(Order(a), from, to, x)
  {
    StartIndexSpec(a, from);
    EndIndexSpec(a, to);
    SliceWithinBounds(Order(a), a.storage, from, to, StartIndex(a, from), EndIndex(a, to));
  }

  /** getSubSet throws IllegalArgumentException exactly when both bounds are given and from > to;
      otherwise it is a valid set with the same comparator, a contiguous slice of the storage, that
      holds exactly the stored elements within the bounds. */
  lemma GetSubSetSpec<E(!new)>(a: ArraySet<E>, from: Bound<E>, to: Bound<E>)
    requires Valid(a)
    ensures GetSubSet(a, from, to).Failure? <==>
      from.Bounded? && to.Bounded? && Order(a)(from.element, to.element) > 0
    ensures GetSubSet(a, from, to).Failure? ==> GetSubSet(a, from, to).error == IllegalArgument
    ensures GetSubSet(a, from, to).Success? ==> var b := GetSubSet(a, from, to).value;
      && Valid(b) && b.comparator == a.comparator
      && (exists i, j :: 0 <= i <= j <= |a.storage| && b.storage == a.storage[i..j])
      && (forall x :: x in b.storage <==> x in a.storage && WithinBounds(Order(a), from, to, x))
  {
    if GetSubSet(a, from, to).Success? {
      var start, end := StartIndex(a, from), EndIndex(a, to);
      var stop := if start < end then end else start;
      SliceStrictlySorted(Order(a), a.storage, start, stop);
      GetSubSetMembers(a, from, to);
    }
  }

  /** subSet(from, fromInclusive, to, toInclusive). */
  function SubSet<E>(a: ArraySet<E>, from: E, fromInclusive: bool, to: E, toInclusive: bool): Result<ArraySet<E>, Exception> {
    GetSubSet(a, Bounded(from, fromInclusive), Bounded(to, toInclusive))
  }

  /** headSet(to, inclusive). */
  function HeadSet<E>(a: ArraySet<E>, to: E, inclusive: bool): Result<ArraySet<E>, Exception> {
    GetSubSet(a, Unbounded, Bounded(to, inclusive))
  }

  /** tailSet(from, inclusive). */
  function TailSet<E>(a: ArraySet<E>, from: E, inclusive: bool): Result<ArraySet<E>, Exception> {
    GetSubSet(a, Bounded(from, inclusive), Unbounded)
  }

  /** subSet(from, to): from included, to excluded. */
  function SubSetDefault<E>(a: ArraySet<E>, from: E, to: E): Result<ArraySet<E>, Exception> {
    SubSet(a, from, true, to, false)
  }

  /** headSet(to): to excluded. */
  function HeadSetDefault<E>(a: ArraySet<E>, to: E): Result<ArraySet<E>, Exception> {
    HeadSet(a, to, false)
  }

  /** tailSet(from): from included. */
  function TailSetDefault<E>(a: ArraySet<E>, from: E): Result<ArraySet<E>, Exception> {
    TailSet(a, from, true)
  }

  /** The one-argument overloads: subSet(x, y) is [x, y) and throws only when x > y; headSet(y)
      is everything below y and tailSet(x) everything from x on, and neither throws. */
  lemma DefaultBoundsSpec<E(!new)>(a: ArraySet<E>, x: E, y: E)
    requires Valid(a)
    ensures SubSetDefault(a, x, y).Failure? <==> Order(a)(x, y) > 0
    ensures SubSetDefault(a, x, y).Success? ==> forall z :: z in SubSetDefault(a, x, y).value.storage <==>
      z in a.storage && Order(a)(z, x) >= 0 && Order(a)(z, y) < 0
    ensures HeadSetDefault(a, y).Success?
    ensures forall z :: z in HeadSetDefault(a, y).value.storage <==> z in a.storage && Order(a)(z, y) < 0
    ensures TailSetDefault(a, x).Success?
    ensures forall z :: z in TailSetDefault(a, x).value.storage <==> z in a.storage && Order(a)(z, x) >= 0
  {
    GetSubSetSpec(a, Bounded(x, true), Bounded(y, false));
    GetSubSetSpec(a, Unbounded, Bounded(y, false));
    GetSubSetSpec(a, Bounded(x, true), Unbounded);
  }

  // ---------------------------------------------------------------------------------------------
  // Descending set

  /** The reversed storage: the elements of a ReversedListView over it. */
  function ReversedStorage<E>(s: seq<E>): (r: seq<E>)
    ensures |r| == |s|
    ensures forall i :: 0 <= i < |s| ==> r[i] == s[|s| - 1 - i]
  {
    ReversedListView.ReversedElements(s);
    ReversedListView.Elements(ReversedListView.MakeView(ReversedListView.Plain(s)))
  }

  /** The new descendingSet: reversed storage under Collections.reverseOrder(comparator), which is
      the reversed natural order when the comparator is null. */
  function DescendingSet<E>(a: ArraySet<E>): ArraySet<E> {
    ArraySet(ReversedStorage(a.storage), Some(Reverse(Order(a))), a.natural)
  }

  /** The earlier descendingSet: reversed storage, but a null comparator stays null. */
  function DescendingSetV1<E>(a: ArraySet<E>): ArraySet<E> {
    ArraySet(ReversedStorage(a.storage), match a.comparator case None => None case Some(c) => Some(Reverse(c)), a.natural)
  }

  /** Reversed storage is strictly ascending under the reversed order. */
  lemma ReversedStorageSorted<E(!new)>(cmp: (E, E) -> int, s: seq<E>)
    requires StrictlySorted(cmp, s)
    ensures StrictlySorted(Reverse(cmp), ReversedStorage(s))
  {
    var r := ReversedStorage(s);
    forall i, j | 0 <= i < j < |r| ensures Reverse(cmp)(r[i], r[j]) < 0 {
      assert r[i] == s[|s| - 1 - i] && r[j] == s[|s| - 1 - j];
    }
  }

  /** The descending set contains exactly what the set contains. */
  lemma DescendingSetContains<E(!new)>(a: ArraySet<E>, x: E)
    requires Valid(a) && Valid(DescendingSet(a))
    ensures Contains(DescendingSet(a), x) <==> Contains(a, x)
  {
    ContainsSpec(a, x);
    ContainsSpec(DescendingSet(a), x);
    ReversedEquivalent(Order(a), a.storage, DescendingSet(a).storage, x);
  }

  /** An element equal to x under an order is stored in a sequence exactly when one equal to x
      under the reversed order is stored in the reversed sequence. */
  lemma ReversedEquivalent<E(!new)>(cmp: (E, E) -> int, s: seq<E>, r: seq<E>, x: E)
    requires TotalPreorder(cmp)
    requires |r| == |s| && forall i :: 0 <= i < |s| ==> r[i] == s[|s| - 1 - i]
    ensures (exists i :: 0 <= i < |s| && cmp(s[i], x) == 0) <==>
            (exists i :: 0 <= i < |r| && Reverse(cmp)(r[i], x) == 0)
  {
    if exists i :: 0 <= i < |s| && cmp(s[i], x) == 0 {
      var i :| 0 <= i < |s| && cmp(s[i], x) == 0;
      Flip(cmp, s[i], x);
      assert r[|s| - 1 - i] == s[i];
      assert Reverse(cmp)(r[|s| - 1 - i], x) == 0;
    }
    if exists i :: 0 <= i < |r| && Reverse(cmp)(r[i], x) == 0 {
      var i :| 0 <= i < |r| && Reverse(cmp)(r[i], x) == 0;
      Flip(cmp, r[i], x);
      assert s[|s| - 1 - i] == r[i];
    }
  }

  /** The descending set is valid, holds the same elements in reverse order and contains exactly
      what the set contains; taking it twice gives back the storage and the order. */
  lemma DescendingSetSpec<E(!new)>(a: ArraySet<E>)
    requires Valid(a)
    ensures var d := DescendingSet(a);
      && Valid(d)
      && |d.storage| == |a.storage|
      && (forall i :: 0 <= i < |a.storage| ==> d.storage[i] == a.storage[|a.storage| - 1 - i])
      && (forall x :: Contains(d, x) <==> Contains(a, x))
    ensures DescendingSet(DescendingSet(a)).storage == a.storage
    ensures forall x, y :: Order(DescendingSet(DescendingSet(a)))(x, y) == Order(a)(x, y)
  {
    var s, d := a.storage, DescendingSet(a);
    ReversePreorder(Order(a));
    ReversedStorageSorted(Order(a), s);
    assert Valid(d);
    forall x ensures Contains(d, x) <==> Contains(a, x) {
      DescendingSetContains(a, x);
    }
    var dd := ReversedStorage(d.storage);
    assert |dd| == |s|;
    forall i | 0 <= i < |s| ensures dd[i] == s[i] {
      assert dd[i] == d.storage[|s| - 1 - i];
    }
  }

  /** With a non-null comparator the earlier descendingSet is valid as well. */
  lemma DescendingSetV1Spec<E(!new)>(a: ArraySet<E>)
    requires Valid(a) && a.comparator.Some?
    ensures Valid(DescendingSetV1(a))
    ensures forall x, y :: Order(DescendingSetV1(a))(x, y) == Order(DescendingSet(a))(x, y)
  {
    ReversePreorder(Order(a));
    ReversedStorageSorted(Order(a), a.storage);
  }

  /** Integer.compareTo, the natural order of the example below. */
  function NaturalInts(): (int, int) -> int {
    (x: int, y: int) => CompareInts(x, y)
  }

  /** The earlier descendingSet of {1, 2} in natural order keeps the ascending order on the
      reversed storage [2, 1], so binary search misses 1 although it is stored; the new
      descendingSet finds it. */
  lemma DescendingSetV1LosesElements()
    ensures var a := FromCollectionNatural([1, 2], NaturalInts());
      && a.storage == [1, 2]
      && DescendingSetV1(a).storage == [2, 1]
      && !Contains(DescendingSetV1(a), 1)
      && Contains(DescendingSet(a), 1)
  {
    var a := FromCollectionNatural([1, 2], NaturalInts());
    assert [1, 2][..1] == [1];
    assert TreeSetOf(NaturalInts(), [1]) == [1] by {
      assert [1][..0] == [];
    }
    assert a.storage == [1, 2];
    var d := DescendingSetV1(a);
    assert d.storage == [2, 1];
    assert SearchRange(NaturalInts(), [2, 1], 1, 0, 1) == -1 by {
      assert SearchRange(NaturalInts(), [2, 1], 1, 0, -1) == -1;
    }
    var d2 := DescendingSet(a);
    assert SearchRange(Order(d2), [2, 1], 1, 0, 1) == 1 by {
      assert Order(d2)(2, 1) < 0;
      assert SearchRange(Order(d2), [2, 1], 1, 1, 1) == 1;
    }
  }
}
