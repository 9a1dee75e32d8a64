/** StudentDB: queries over students written as stream pipelines: mapping, filtering, sorting,
    grouping by group name into TreeSets, and a maximum with explicit tie-breaks. The earlier and
    the later version compute the same functions; only the later one has getMostPopularName.

    The HashMap that Collectors.groupingBy fills is taken in first-appearance order of its keys;
    every query sorts it or takes a maximum under an order that separates distinct keys, so that
    order does not show in any result. Student's own compareTo is the parameter `natural`. */
module StudentDB {
  import opened Wrappers
  import opened Orders

  datatype Student = Student(id: int, firstName: string, lastName: string, group: string)

  /** A group: its name and its students, in the order of the TreeSet that collected them. */
  datatype Group = Group(name: string, students: seq<Student>)

  // ---------------------------------------------------------------------------------------------
  // Orders

  function IdOf(s: Student): int { s.id }
  function FirstNameOf(s: Student): string { s.firstName }
  function LastNameOf(s: Student): string { s.lastName }
  function NameOf(g: Group): string { g.name }

  /** NAME_COMPARATOR: comparing(lastName).thenComparing(firstName).thenComparingInt(id). */
  function NameOrder(): (Student, Student) -> int {
    ThenComparing(ThenComparing(Comparing(LastNameOf, CompareStrings), Comparing(FirstNameOf, CompareStrings)),
                  Comparing(IdOf, CompareInts))
  }

  /** Comparator.comparingInt(Student::getId). */
  function IdOrder(): (Student, Student) -> int {
    Comparing(IdOf, CompareInts)
  }

  /** Comparator.comparing(Group::getName). */
  function GroupNameOrder(): (Group, Group) -> int {
    Comparing(NameOf, CompareStrings)
  }

  /** NAME_COMPARATOR is a total preorder that orders by last name, then first name, then id, and
      ties exactly the students that agree on all three. */
  lemma NameOrderSpec()
    ensures TotalPreorder(NameOrder())
    ensures forall a, b :: NameOrder()(a, b) < 0 <==>
      || CompareStrings(a.lastName, b.lastName) < 0
      || (a.lastName == b.lastName && CompareStrings(a.firstName, b.firstName) < 0)
      || (a.lastName == b.lastName && a.firstName == b.firstName && a.id < b.id)
    ensures forall a, b :: NameOrder()(a, b) == 0 <==>
      a.lastName == b.lastName && a.firstName == b.firstName && a.id == b.id
  {
    NameOrderLawful();
    forall a, b ensures
      && (NameOrder()(a, b) < 0 <==>
          || CompareStrings(a.lastName, b.lastName) < 0
          || (a.lastName == b.lastName && CompareStrings(a.firstName, b.firstName) < 0)
          || (a.lastName == b.lastName && a.firstName == b.firstName && a.id < b.id))
      && (NameOrder()(a, b) == 0 <==> a.lastName == b.lastName && a.firstName == b.firstName && a.id == b.id)
    {
      NameOrderMeaning(a, b);
    }
  }

  lemma NameOrderLawful()
    ensures TotalPreorder(NameOrder())
  {
    StringOrder();
    IntOrder();
    ComparingPreorder(LastNameOf, CompareStrings);
    ComparingPreorder(FirstNameOf, CompareStrings);
    ComparingPreorder(IdOf, CompareInts);
    ThenComparingPreorder(Comparing(LastNameOf, CompareStrings), Comparing(FirstNameOf, CompareStrings));
    ThenComparingPreorder(ThenComparing(Comparing(LastNameOf, CompareStrings), Comparing(FirstNameOf, CompareStrings)),
                          Comparing(IdOf, CompareInts));
  }

  lemma NameOrderMeaning(a: Student, b: Student)
    ensures NameOrder()(a, b) < 0 <==>
      || CompareStrings(a.lastName, b.lastName) < 0
      || (a.lastName == b.lastName && CompareStrings(a.firstName, b.firstName) < 0)
      || (a.lastName == b.lastName && a.firstName == b.firstName && a.id < b.id)
    ensures NameOrder()(a, b) == 0 <==> a.lastName == b.lastName && a.firstName == b.firstName && a.id == b.id
  {
    var byLast, byFirst := Comparing(LastNameOf, CompareStrings), Comparing(FirstNameOf, CompareStrings);
    ThenComparingApply(ThenComparing(byLast, byFirst), Comparing(IdOf, CompareInts), a, b);
    ThenComparingApply(byLast, byFirst, a, b);
    ComparingApply(LastNameOf, CompareStrings, a, b);
    ComparingApply(FirstNameOf, CompareStrings, a, b);
    ComparingApply(IdOf, CompareInts, a, b);
    CompareStringsZero(a.lastName, b.lastName);
    CompareStringsZero(a.firstName, b.firstName);
  }

  /** The id order and the group-name order are total preorders. */
  lemma OrdersLawful()
    ensures TotalPreorder(IdOrder())
    ensures TotalPreorder(GroupNameOrder())
  {
    StringOrder();
    IntOrder();
    ComparingPreorder(IdOf, CompareInts);
    ComparingPreorder(NameOf, CompareStrings);
  }

  // ---------------------------------------------------------------------------------------------
  // Mapping

  /** The getters the mapping queries apply. */
  datatype Mapper = ToFirstName | ToLastName | ToGroup | ToFullName

  /** getStudentFullName: first name, a space, last name. */
  function FullName(s: Student): string {
    s.firstName + " " + s.lastName
  }

  function Mapped(s: Student, m: Mapper): string {
    match m
    case ToFirstName => s.firstName
    case ToLastName => s.lastName
    case ToGroup => s.group
    case ToFullName => FullName(s)
  }

  /** mapStudentList(list, mapper): the mapper applied to every student, in list order. */
  function MapStudents(list: seq<Student>, m: Mapper): (r: seq<string>)
    ensures |r| == |list|
    ensures forall i :: 0 <= i < |list| ==> r[i] == Mapped(list[i], m)
    decreases |list|
  {
    if list == [] then [] else [Mapped(list[0], m)] + MapStudents(list[1..], m)
  }

  function GetFirstNames(list: seq<Student>): seq<string> { MapStudents(list, ToFirstName) }
  function GetLastNames(list: seq<Student>): seq<string> { MapStudents(list, ToLastName) }
  function GetGroups(list: seq<Student>): seq<string> { MapStudents(list, ToGroup) }
  function GetFullNames(list: seq<Student>): seq<string> { MapStudents(list, ToFullName) }

  /** The four mapping queries keep length and order, and a full name is the first name, one
      space and the last name. */
  lemma MappingQueriesSpec(list: seq<Student>)
    ensures |GetFirstNames(list)| == |GetLastNames(list)| == |GetGroups(list)| == |GetFullNames(list)| == |list|
    ensures forall i :: 0 <= i < |list| ==>
      && GetFirstNames(list)[i] == list[i].firstName
      && GetLastNames(list)[i] == list[i].lastName
      && GetGroups(list)[i] == list[i].group
      && GetFullNames(list)[i] == list[i].firstName + " " + list[i].lastName
  {
  }

  /** A full name splits back into its parts at its first space after the first name. */
  lemma FullNameParts(s: Student)
    ensures |FullName(s)| == |s.firstName| + 1 + |s.lastName|
    ensures FullName(s)[..|s.firstName|] == s.firstName
    ensures FullName(s)[|s.firstName|] == ' '
    ensures FullName(s)[|s.firstName| + 1..] == s.lastName
  {
  }

  /** Mapping a concatenation maps each part. */
  lemma {:induction false} MapStudentsAppend(a: seq<Student>, b: seq<Student>, m: Mapper)
    ensures MapStudents(a + b, m) == MapStudents(a, m) + MapStudents(b, m)
  {
    var l, r := MapStudents(a + b, m), MapStudents(a, m) + MapStudents(b, m);
    forall i | 0 <= i < |l| ensures l[i] == r[i] {
      if i < |a| {
        assert (a + b)[i] == a[i];
      } else {
        assert (a + b)[i] == b[i - |a|];
      }
    }
  }

  /** getDistinctFirstNames: a TreeSet of the first names, iterated in ascending order. */
  function GetDistinctFirstNames(list: seq<Student>): seq<string> {
    TreeSetOf(CompareStrings, GetFirstNames(list))
  }

  /** The distinct first names are strictly ascending and are exactly the first names in the list. */
  lemma DistinctFirstNamesSpec(list: seq<Student>)
    ensures StrictlySorted(CompareStrings, GetDistinctFirstNames(list))
    ensures forall n :: n in GetDistinctFirstNames(list) <==> exists x :: x in list && x.firstName == n
  {
    StringOrder();
    var names, r := GetFirstNames(list), GetDistinctFirstNames(list);
    TreeSetOfSpec(CompareStrings, names);
    forall n | n in r ensures exists x :: x in list && x.firstName == n {
      var i :| 0 <= i < |names| && names[i] == n && FirstOfClass(CompareStrings, names, i);
      assert list[i] in list;
    }
    forall x | x in list ensures x.firstName in r {
      var i := IndexOf(list, x);
      FirstNameInTreeSet(r, names[i]);
    }
  }

  /** A position at which x occurs. */
  function IndexOf<T(==)>(s: seq<T>, x: T): (i: int)
    requires x in s
    ensures 0 <= i < |s| && s[i] == x
  {
    if s[0] == x then 0 else 1 + IndexOf(s[1..], x)
  }

  /** For strings, holding an equivalent element is holding the element. */
  lemma FirstNameInTreeSet(r: seq<string>, n: string)
    requires HasEquivalent(CompareStrings, r, n)
    ensures n in r
  {
    var k :| 0 <= k < |r| && CompareStrings(n, r[k]) == 0;
    CompareStringsZero(n, r[k]);
  }

  // ---------------------------------------------------------------------------------------------
  // Sorting and the minimum

  /** sortStudentsById: a stable sort in the students' natural order. */
  function SortStudentsById(collection: seq<Student>, natural: (Student, Student) -> int): seq<Student> {
    Sort(natural, collection)
  }

  /** sortStudentsByName: a stable sort by NAME_COMPARATOR. */
  function SortStudentsByName(collection: seq<Student>): seq<Student> {
    Sort(NameOrder(), collection)
  }

  /** Both sorts return a sorted permutation of the collection, and both are stable: the
      students tied under the order with any student e keep their order in the collection. */
  lemma SortQueriesSpec(collection: seq<Student>, natural: (Student, Student) -> int)
    requires TotalPreorder(natural)
    ensures Sorted(natural, SortStudentsById(collection, natural))
    ensures multiset(SortStudentsById(collection, natural)) == multiset(collection)
    ensures forall e :: Ties(natural, e, SortStudentsById(collection, natural)) == Ties(natural, e, collection)
    ensures Sorted(NameOrder(), SortStudentsByName(collection))
    ensures multiset(SortStudentsByName(collection)) == multiset(collection)
    ensures forall e :: Ties(NameOrder(), e, SortStudentsByName(collection)) == Ties(NameOrder(), e, collection)
  {
    NameOrderSpec();
    SortSorted(natural, collection);
    SortSorted(NameOrder(), collection);
    forall e
      ensures Ties(natural, e, SortStudentsById(collection, natural)) == Ties(natural, e, collection)
      ensures Ties(NameOrder(), e, SortStudentsByName(collection)) == Ties(NameOrder(), e, collection)
    {
      SortStable(natural, e, collection);
      SortStable(NameOrder(), e, collection);
    }
  }

  /** getMinStudentFirstName: the first name of the first student in natural order, "" when
      there is none. */
  function GetMinStudentFirstName(list: seq<Student>, natural: (Student, Student) -> int): string {
    var sorted := Sort(natural, list);
    if sorted == [] then "" else sorted[0].firstName
  }

  /** The result is "" on an empty list, and otherwise the first name of a student not greater
      than any other. */
  lemma MinStudentFirstNameSpec(list: seq<Student>, natural: (Student, Student) -> int)
    requires TotalPreorder(natural)
    ensures list == [] ==> GetMinStudentFirstName(list, natural) == ""
    ensures list != [] ==> exists x :: x in list && x.firstName == GetMinStudentFirstName(list, natural) &&
                                      forall y :: y in list ==> natural(x, y) <= 0
  {
    var sorted := Sort(natural, list);
    SortSorted(natural, list);
    if list != [] {
      assert list[0] in multiset(sorted);
      var m := sorted[0];
      assert m in list by {
        assert m in multiset(list);
      }
      forall y | y in list ensures natural(m, y) <= 0 {
        assert y in multiset(sorted);
        var k :| 0 <= k < |sorted| && sorted[k] == y;
        if k == 0 {
          Flip(natural, y, y);
        }
      }
      assert m.firstName == GetMinStudentFirstName(list, natural);
    }
  }

  // ---------------------------------------------------------------------------------------------
  // Filtering

  /** The getters the filters compare with the expected value. */
  datatype Field = FirstName | LastName | GroupName

  function Get(s: Student, f: Field): string {
    match f
    case FirstName => s.firstName
    case LastName => s.lastName
    case GroupName => s.group
  }

  /** filterStudents: the students whose field equals the expected value, in encounter order;
      each is kept as often as it occurs. */
  function Filter(collection: seq<Student>, f: Field, expected: string): (r: seq<Student>)
    ensures forall x :: multiset(r)[x] == if Get(x, f) == expected then multiset(collection)[x] else 0
    decreases |collection|
  {
    if collection == [] then []
    else
      assert collection == [collection[0]] + collection[1..];
      (if Get(collection[0], f) == expected then [collection[0]] else []) + Filter(collection[1..], f, expected)
  }

  /** A student is kept exactly when it occurs and its field matches. */
  lemma FilterMembers(collection: seq<Student>, f: Field, expected: string)
    ensures forall x :: x in Filter(collection, f, expected) <==> x in collection && Get(x, f) == expected
  {
    forall x ensures x in Filter(collection, f, expected) <==> x in collection && Get(x, f) == expected {
      assert x in Filter(collection, f, expected) <==> x in multiset(Filter(collection, f, expected));
      assert x in collection <==> x in multiset(collection);
    }
  }

  /** listSortedByNameFilteredStudents: the matching students sorted by NAME_COMPARATOR. */
  function FindStudentsBy(collection: seq<Student>, f: Field, expected: string): seq<Student> {
    Sort(NameOrder(), Filter(collection, f, expected))
  }

  function FindStudentsByFirstName(collection: seq<Student>, name: string): seq<Student> {
    FindStudentsBy(collection, FirstName, name)
  }

  function FindStudentsByLastName(collection: seq<Student>, name: string): seq<Student> {
    FindStudentsBy(collection, LastName, name)
  }

  function FindStudentsByGroup(collection: seq<Student>, group: string): seq<Student> {
    FindStudentsBy(collection, GroupName, group)
  }

  /** A find query returns every student whose field equals the argument, as often as it occurs in
      the collection, and no other, sorted by NAME_COMPARATOR. */
  lemma FindStudentsSpec(collection: seq<Student>, f: Field, expected: string)
    ensures Sorted(NameOrder(), FindStudentsBy(collection, f, expected))
    ensures forall x :: multiset(FindStudentsBy(collection, f, expected))[x] ==
                        (if Get(x, f) == expected then multiset(collection)[x] else 0)
  {
    NameOrderSpec();
    SortSorted(NameOrder(), Filter(collection, f, expected));
  }

  // ---------------------------------------------------------------------------------------------
  // findStudentNamesByGroup

  /** Stream.of(n1, n2).min(naturalOrder()): the first of the two unless the second is smaller. */
  function MinName(n1: string, n2: string): string {
    if CompareStrings(n1, n2) <= 0 then n1 else n2
  }

  /** One step of Collectors.toMap(lastName, firstName, merge): put the first name when the last
      name is new, otherwise merge it with the name already there. */
  function PutName(m: map<string, string>, s: Student): map<string, string> {
    if s.lastName in m then m[s.lastName := MinName(m[s.lastName], s.firstName)] else m[s.lastName := s.firstName]
  }

  /** The map toMap builds from the students in encounter order. */
  function NamesMap(students: seq<Student>): map<string, string>
    decreases |students|
  {
    if students == [] then map[] else PutName(NamesMap(students[..|students| - 1]), students[|students| - 1])
  }

  /** findStudentNamesByGroup: the map over the students of the group. */
  function FindStudentNamesByGroup(collection: seq<Student>, group: string): map<string, string> {
    NamesMap(Filter(collection, GroupName, group))
  }

  /** The keys are the last names of the students; each maps to a first name one of them has with
      that last name. */
  lemma {:induction false} NamesMapKeys(students: seq<Student>)
    ensures forall l :: l in NamesMap(students) <==> exists x :: x in students && x.lastName == l
    ensures forall l :: l in NamesMap(students) ==>
      exists x :: x in students && x.lastName == l && x.firstName == NamesMap(students)[l]
    decreases |students|
  {
    if students != [] {
      var n := |students| - 1;
      var p, y := students[..n], students[n];
      assert students == p + [y];
      NamesMapKeys(p);
      var m, m' := NamesMap(p), NamesMap(students);
      forall l | l in m' ensures exists x :: x in students && x.lastName == l && x.firstName == m'[l] {
        if l == y.lastName && m'[l] == y.firstName {
          assert y in students;
        } else {
          var x :| x in p && x.lastName == l && x.firstName == m[l];
          assert x in students;
        }
      }
    }
  }

  /** The first name a last name maps to is the least first name among the students with that
      last name. */
  lemma {:induction false} NamesMapLeast(students: seq<Student>)
    ensures forall x :: x in students ==>
      x.lastName in NamesMap(students) && CompareStrings(NamesMap(students)[x.lastName], x.firstName) <= 0
    decreases |students|
  {
    if students != [] {
      var n := |students| - 1;
      var p, y := students[..n], students[n];
      assert students == p + [y];
      NamesMapLeast(p);
      StringOrder();
      var m, m' := NamesMap(p), NamesMap(students);
      forall x | x in students ensures x.lastName in m' && CompareStrings(m'[x.lastName], x.firstName) <= 0 {
        if x == y {
          Flip(CompareStrings, y.firstName, y.firstName);
          if y.lastName in m && CompareStrings(m[y.lastName], y.firstName) > 0 {
            Flip(CompareStrings, m[y.lastName], y.firstName);
          }
        } else if x.lastName == y.lastName {
          assert x in p;
          if CompareStrings(m[y.lastName], y.firstName) > 0 {
            Flip(CompareStrings, m[y.lastName], y.firstName);
            Chain(CompareStrings, y.firstName, m[y.lastName], x.firstName);
          }
        } else {
          assert x in p;
        }
      }
    }
  }

  /** The keys are the last names of the students; each maps to a first name one of them has with
      that last name, the least such first name. */
  lemma NamesMapSpec(students: seq<Student>)
    ensures forall l :: l in NamesMap(students) <==> exists x :: x in students && x.lastName == l
    ensures forall l :: l in NamesMap(students) ==>
      exists x :: x in students && x.lastName == l && x.firstName == NamesMap(students)[l]
    ensures forall x :: x in students ==> CompareStrings(NamesMap(students)[x.lastName], x.firstName) <= 0
  {
    NamesMapKeys(students);
    NamesMapLeast(students);
  }

  /** findStudentNamesByGroup maps the last name of every student of the group to the least first
      name among that group's students with that last name, and has no other keys. */
  lemma FindStudentNamesByGroupSpec(collection: seq<Student>, group: string)
    ensures forall l :: l in FindStudentNamesByGroup(collection, group) <==>
      exists x :: x in collection && x.group == group && x.lastName == l
    ensures forall l :: l in FindStudentNamesByGroup(collection, group) ==>
      exists x :: x in collection && x.group == group && x.lastName == l &&
        x.firstName == FindStudentNamesByGroup(collection, group)[l]
    ensures forall x :: x in collection && x.group == group ==>
      CompareStrings(FindStudentNamesByGroup(collection, group)[x.lastName], x.firstName) <= 0
  {
    FilterMembers(collection, GroupName, group);
    NamesMapSpec(Filter(collection, GroupName, group));
  }

  // ---------------------------------------------------------------------------------------------
  // Groups

  /** No element occurs twice. */
  predicate NoDuplicates<T(==)>(s: seq<T>) {
    forall i, j :: 0 <= i < j < |s| ==> s[i] != s[j]
  }

  /** The distinct elements in order of first appearance: the keys of groupingBy's map. */
  function Distinct<T(==, !new)>(s: seq<T>): (r: seq<T>)
    ensures NoDuplicates(r)
    ensures forall x :: x in r <==> x in s
    decreases |s|
  {
    if s == [] then []
    else
      var d := Distinct(s[..|s| - 1]);
      assert s == s[..|s| - 1] + [s[|s| - 1]];
      if s[|s| - 1] in d then d else d + [s[|s| - 1]]
  }

  /** The group of one name: a TreeSet under studentOrder filled with that group's students. */
  function GroupOf(collection: seq<Student>, studentOrder: (Student, Student) -> int, name: string): Group {
    Group(name, TreeSetOf(studentOrder, Filter(collection, GroupName, name)))
  }

  /** getGroupStream: one group per distinct group name. */
  function GroupStream(collection: seq<Student>, studentOrder: (Student, Student) -> int): (r: seq<Group>)
    ensures |r| == |Distinct(GetGroups(collection))|
  {
    var names := Distinct(GetGroups(collection));
    seq(|names|, i requires 0 <= i < |names| => GroupOf(collection, studentOrder, names[i]))
  }

  /** getSortedGroupStream with the group order by name. */
  function SortedGroups(collection: seq<Student>, studentOrder: (Student, Student) -> int): seq<Group> {
    Sort(GroupNameOrder(), GroupStream(collection, studentOrder))
  }

  /** getGroupsByName: students in a group ordered by NAME_COMPARATOR. */
  function GetGroupsByName(collection: seq<Student>): seq<Group> {
    SortedGroups(collection, NameOrder())
  }

  /** getGroupsById: students in a group ordered by id. */
  function GetGroupsById(collection: seq<Student>): seq<Group> {
    SortedGroups(collection, IdOrder())
  }

  /** Every group of the stream is the group of some student's group name. */
  lemma GroupStreamSound(collection: seq<Student>, studentOrder: (Student, Student) -> int, g: Group)
    requires g in GroupStream(collection, studentOrder)
    ensures exists x :: x in collection && g == GroupOf(collection, studentOrder, x.group)
  {
    var names, r := Distinct(GetGroups(collection)), GroupStream(collection, studentOrder);
    var i :| 0 <= i < |r| && r[i] == g;
    assert names[i] in GetGroups(collection);
    var j :| 0 <= j < |collection| && GetGroups(collection)[j] == names[i];
    assert collection[j] in collection;
  }

  /** The group of every student's group name is in the stream. */
  lemma GroupStreamComplete(collection: seq<Student>, studentOrder: (Student, Student) -> int, x: Student)
    requires x in collection
    ensures GroupOf(collection, studentOrder, x.group) in GroupStream(collection, studentOrder)
  {
    var names, r := Distinct(GetGroups(collection)), GroupStream(collection, studentOrder);
    var j :| 0 <= j < |collection| && collection[j] == x;
    assert GetGroups(collection)[j] == x.group;
    assert x.group in names;
    var i :| 0 <= i < |names| && names[i] == x.group;
    assert r[i] == GroupOf(collection, studentOrder, x.group);
  }

  /** The group stream holds one group for each group name of the collection and nothing else. */
  lemma GroupStreamSpec(collection: seq<Student>, studentOrder: (Student, Student) -> int)
    ensures NoDuplicates(GroupStream(collection, studentOrder))
    ensures forall g :: g in GroupStream(collection, studentOrder) <==>
      exists x :: x in collection && g == GroupOf(collection, studentOrder, x.group)
  {
    forall g ensures g in GroupStream(collection, studentOrder) <==>
      exists x :: x in collection && g == GroupOf(collection, studentOrder, x.group)
    {
      if g in GroupStream(collection, studentOrder) {
        GroupStreamSound(collection, studentOrder, g);
      }
      if exists x :: x in collection && g == GroupOf(collection, studentOrder, x.group) {
        var x :| x in collection && g == GroupOf(collection, studentOrder, x.group);
        GroupStreamComplete(collection, studentOrder, x);
      }
    }
  }

  /** A group holds the students of its name, ascending and with no two equal under the student
      order, and an equal one for every student of that name. */
  lemma GroupOfSpec(collection: seq<Student>, studentOrder: (Student, Student) -> int, name: string)
    requires TotalPreorder(studentOrder)
    ensures var g := GroupOf(collection, studentOrder, name);
      && StrictlySorted(studentOrder, g.students)
      && (forall x :: x in g.students ==> x in collection && x.group == name)
      && (forall x :: x in collection && x.group == name ==> HasEquivalent(studentOrder, g.students, x))
  {
    var f := Filter(collection, GroupName, name);
    var t := TreeSetOf(studentOrder, f);
    FilterMembers(collection, GroupName, name);
    TreeSetOfSorted(studentOrder, f);
    TreeSetOfMembers(studentOrder, f);
    TreeSetOfCovers(studentOrder, f);
    forall x | x in t ensures x in collection && x.group == name {
      var i :| 0 <= i < |f| && f[i] == x && FirstOfClass(studentOrder, f, i);
    }
    forall x | x in collection && x.group == name ensures HasEquivalent(studentOrder, t, x) {
      var i :| 0 <= i < |f| && f[i] == x;
    }
  }

  /** Of the students of a name in encounter order, a group keeps exactly those that come first
      among the students equal to them under the student order: TreeSet.add keeps the element
      already there. */
  lemma GroupOfClasses(collection: seq<Student>, studentOrder: (Student, Student) -> int, name: string,
                        f: seq<Student>)
    requires TotalPreorder(studentOrder) && f == Filter(collection, GroupName, name)
    ensures forall x :: x in GroupOf(collection, studentOrder, name).students ==>
      exists i :: 0 <= i < |f| && f[i] == x && FirstOfClass(studentOrder, f, i)
    ensures forall i :: 0 <= i < |f| && FirstOfClass(studentOrder, f, i) ==>
      f[i] in GroupOf(collection, studentOrder, name).students
  {
    TreeSetOfMembers(studentOrder, f);
    TreeSetOfComplete(studentOrder, f);
  }

  /** An element occurring at two positions occurs at least twice. */
  lemma TwoPositions<T>(s: seq<T>, i: int, j: int)
    requires 0 <= i < j < |s| && s[i] == s[j]
    ensures multiset(s)[s[j]] >= 2
  {
    assert s == s[..j] + [s[j]] + s[j + 1..];
    assert s[i] in multiset(s[..j]) by {
      assert s[..j][i] == s[i];
    }
    assert multiset(s) == multiset(s[..j]) + multiset{s[j]} + multiset(s[j + 1..]);
  }

  /** In a sequence without duplicates nothing occurs twice. */
  lemma {:induction false} NoDuplicatesCount<T>(s: seq<T>, x: T)
    requires NoDuplicates(s)
    ensures multiset(s)[x] <= 1
    decreases |s|
  {
    if s != [] {
      assert s == [s[0]] + s[1..];
      NoDuplicatesCount(s[1..], x);
      if x == s[0] {
        forall k | 0 <= k < |s[1..]| ensures s[1..][k] != x {
          assert s[1..][k] == s[k + 1];
        }
      }
    }
  }

  /** A permutation of a sequence without duplicates has none. */
  lemma PermutationNoDuplicates<T>(s: seq<T>, r: seq<T>)
    requires NoDuplicates(s) && multiset(r) == multiset(s)
    ensures NoDuplicates(r)
  {
    forall i, j | 0 <= i < j < |r| ensures r[i] != r[j] {
      if r[i] == r[j] {
        TwoPositions(r, i, j);
        NoDuplicatesCount(s, r[j]);
      }
    }
  }

  /** The sorted groups have strictly ascending names, so one group per name; they are exactly
      the groups of the names in the collection. */
  lemma SortedGroupsSpec(collection: seq<Student>, studentOrder: (Student, Student) -> int)
    ensures var r := SortedGroups(collection, studentOrder);
      && (forall i, j :: 0 <= i < j < |r| ==> CompareStrings(r[i].name, r[j].name) < 0)
      && (forall g :: g in r <==> exists x :: x in collection && g == GroupOf(collection, studentOrder, x.group))
  {
    var s, r := GroupStream(collection, studentOrder), SortedGroups(collection, studentOrder);
    OrdersLawful();
    SortSorted(GroupNameOrder(), s);
    GroupStreamSpec(collection, studentOrder);
    PermutationNoDuplicates(s, r);
    forall g ensures g in r <==> g in s {
      assert g in r <==> g in multiset(r);
      assert g in s <==> g in multiset(s);
    }
    forall g, h | g in r && h in r && g.name == h.name ensures g == h {
      var x :| x in collection && g == GroupOf(collection, studentOrder, x.group);
      var y :| y in collection && h == GroupOf(collection, studentOrder, y.group);
    }
    NamesAscending(r);
  }

  /** Sorted by name, without duplicates, and with at most one group per name: the names ascend
      strictly. */
  lemma NamesAscending(r: seq<Group>)
    requires Sorted(GroupNameOrder(), r)
    requires NoDuplicates(r)
    requires forall g, h :: g in r && h in r && g.name == h.name ==> g == h
    ensures forall i, j :: 0 <= i < j < |r| ==> CompareStrings(r[i].name, r[j].name) < 0
  {
    forall i, j | 0 <= i < j < |r| ensures CompareStrings(r[i].name, r[j].name) < 0 {
      ComparingApply(NameOf, CompareStrings, r[i], r[j]);
      CompareStringsZero(r[i].name, r[j].name);
      assert r[i] in r && r[j] in r;
      assert r[i] != r[j];
    }
  }

  /** The sorted groups under a lawful student order: strictly ascending names, a group for every
      group name of the collection, each holding that group's students strictly ascending, with an
      equal one for every student of the group. */
  lemma SortedGroupsContents(collection: seq<Student>, studentOrder: (Student, Student) -> int)
    requires TotalPreorder(studentOrder)
    ensures var r := SortedGroups(collection, studentOrder);
      && (forall i, j :: 0 <= i < j < |r| ==> CompareStrings(r[i].name, r[j].name) < 0)
      && (forall x :: x in collection ==> exists g :: g in r && g.name == x.group)
      && (forall g :: g in r ==>
           && g == GroupOf(collection, studentOrder, g.name)
           && StrictlySorted(studentOrder, g.students)
           && (forall x :: x in g.students ==> x in collection && x.group == g.name)
           && (forall x :: x in collection && x.group == g.name ==> HasEquivalent(studentOrder, g.students, x)))
  {
    var r := SortedGroups(collection, studentOrder);
    SortedGroupsSpec(collection, studentOrder);
    forall x | x in collection ensures exists g :: g in r && g.name == x.group {
      assert GroupOf(collection, studentOrder, x.group) in r;
    }
    forall g | g in r ensures
      && g == GroupOf(collection, studentOrder, g.name)
      && StrictlySorted(studentOrder, g.students)
      && (forall x :: x in g.students ==> x in collection && x.group == g.name)
      && (forall x :: x in collection && x.group == g.name ==> HasEquivalent(studentOrder, g.students, x))
    {
      var x :| x in collection && g == GroupOf(collection, studentOrder, x.group);
      GroupOfSpec(collection, studentOrder, x.group);
    }
  }

  /** getGroupsByName and getGroupsById: groups sorted by strictly ascending name, one per group
      name of the collection, each holding that group's students ascending by name (by id), with
      students equal under that order collapsed to one. */
  lemma GroupQueriesSpec(collection: seq<Student>)
    ensures forall i, j :: 0 <= i < j < |GetGroupsByName(collection)| ==>
      CompareStrings(GetGroupsByName(collection)[i].name, GetGroupsByName(collection)[j].name) < 0
    ensures forall i, j :: 0 <= i < j < |GetGroupsById(collection)| ==>
      CompareStrings(GetGroupsById(collection)[i].name, GetGroupsById(collection)[j].name) < 0
    ensures forall x :: x in collection ==>
      && (exists g :: g in GetGroupsByName(collection) && g.name == x.group)
      && (exists g :: g in GetGroupsById(collection) && g.name == x.group)
    ensures forall g :: g in GetGroupsByName(collection) ==>
      && g == GroupOf(collection, NameOrder(), g.name)
      && StrictlySorted(NameOrder(), g.students)
      && (forall x :: x in g.students ==> x in collection && x.group == g.name)
      && (forall x :: x in collection && x.group == g.name ==> HasEquivalent(NameOrder(), g.students, x))
    ensures forall g :: g in GetGroupsById(collection) ==>
      && g == GroupOf(collection, IdOrder(), g.name)
      && StrictlySorted(IdOrder(), g.students)
      && (forall x :: x in g.students ==> x in collection && x.group == g.name)
      && (forall x :: x in collection && x.group == g.name ==> HasEquivalent(IdOrder(), g.students, x))
  {
    NameOrderLawful();
    OrdersLawful();
    SortedGroupsContents(collection, NameOrder());
    SortedGroupsContents(collection, IdOrder());
  }

  // ---------------------------------------------------------------------------------------------
  // Maxima

  /** Stream.max(cmp): the reduction with BinaryOperator.maxBy, which keeps the element so far
      unless the next one is greater. */
  function MaxFrom<T>(cmp: (T, T) -> int, acc: T, s: seq<T>): T
    decreases |s|
  {
    if s == [] then acc else MaxFrom(cmp, if cmp(acc, s[0]) >= 0 then acc else s[0], s[1..])
  }

  function Max<T>(cmp: (T, T) -> int, s: seq<T>): Option<T> {
    if s == [] then None else Some(MaxFrom(cmp, s[0], s[1..]))
  }

  /** The reduction ends with an element not less than the start and than every element. */
  lemma {:induction false} MaxFromSpec<T(!new)>(cmp: (T, T) -> int, acc: T, s: seq<T>)
    requires TotalPreorder(cmp)
    ensures MaxFrom(cmp, acc, s) == acc || MaxFrom(cmp, acc, s) in s
    ensures cmp(acc, MaxFrom(cmp, acc, s)) <= 0
    ensures forall x :: x in s ==> cmp(x, MaxFrom(cmp, acc, s)) <= 0
    decreases |s|
  {
    if s == [] {
      Flip(cmp, acc, acc);
    } else {
      var next := if cmp(acc, s[0]) >= 0 then acc else s[0];
      var r := MaxFrom(cmp, next, s[1..]);
      MaxFromSpec(cmp, next, s[1..]);
      Flip(cmp, acc, s[0]);
      Flip(cmp, acc, acc);
      Flip(cmp, s[0], s[0]);
      Chain(cmp, acc, next, r);
      Chain(cmp, s[0], next, r);
      assert s == [s[0]] + s[1..];
    }
  }

  /** max gives nothing exactly on an empty stream, and otherwise one of its elements not less
      than any of them. */
  lemma MaxSpec<T(!new)>(cmp: (T, T) -> int, s: seq<T>)
    requires TotalPreorder(cmp)
    ensures Max(cmp, s).None? <==> s == []
    ensures Max(cmp, s).Some? ==> Max(cmp, s).value in s && forall x :: x in s ==> cmp(x, Max(cmp, s).value) <= 0
  {
    if s != [] {
      MaxFromSpec(cmp, s[0], s[1..]);
      assert s == [s[0]] + s[1..];
    }
  }

  /** comparingInt(measure).thenComparing(Group::getName, reverseOrder()): the larger measure,
      and on equal measures the smaller name, is the greater group. */
  function LargestOrder(measure: Group -> int): (Group, Group) -> int {
    ThenComparing(Comparing(measure, CompareInts), Comparing(NameOf, Reverse(CompareStrings)))
  }

  /** getMaxGroupName: the name of the greatest group of getGroupStream, "" when there is none. */
  function MaxGroupName(collection: seq<Student>, studentOrder: (Student, Student) -> int, measure: Group -> int): string {
    match Max(LargestOrder(measure), GroupStream(collection, studentOrder))
    case Some(g) => g.name
    case None => ""
  }

  /** The number of students of a group. */
  function StudentCount(g: Group): int { |g.students| }

  /** The number of distinct first names of a group. */
  function FirstNameCount(g: Group): int { |GetDistinctFirstNames(g.students)| }

  /** getLargestGroup: the group with the most students (equal students collapsed in natural order). */
  function GetLargestGroup(collection: seq<Student>, natural: (Student, Student) -> int): string {
    MaxGroupName(collection, natural, StudentCount)
  }

  /** getLargestGroupFirstName: the group with the most distinct first names. */
  function GetLargestGroupFirstName(collection: seq<Student>, natural: (Student, Student) -> int): string {
    MaxGroupName(collection, natural, FirstNameCount)
  }

  /** The name getMaxGroupName returns: "" for an empty collection; otherwise the name of a group
      whose measure is the largest, and the smallest such name on a tie. */
  lemma MaxGroupNameSpec(collection: seq<Student>, studentOrder: (Student, Student) -> int, measure: Group -> int)
    ensures collection == [] ==> MaxGroupName(collection, studentOrder, measure) == ""
    ensures collection != [] ==> var n := MaxGroupName(collection, studentOrder, measure);
      && (exists x :: x in collection && x.group == n)
      && forall x :: x in collection ==>
           var g, best := GroupOf(collection, studentOrder, x.group), GroupOf(collection, studentOrder, n);
           measure(g) < measure(best) || (measure(g) == measure(best) && CompareStrings(n, x.group) <= 0)
  {
    var s := GroupStream(collection, studentOrder);
    var cmp := LargestOrder(measure);
    LargestOrderPreorder(measure);
    GroupStreamSpec(collection, studentOrder);
    MaxSpec(cmp, s);
    if collection != [] {
      assert GroupOf(collection, studentOrder, collection[0].group) in s;
      var best := Max(cmp, s).value;
      var y :| y in collection && best == GroupOf(collection, studentOrder, y.group);
      forall x | x in collection ensures
        var g := GroupOf(collection, studentOrder, x.group);
        measure(g) < measure(best) || (measure(g) == measure(best) && CompareStrings(best.name, x.group) <= 0)
      {
        var g := GroupOf(collection, studentOrder, x.group);
        assert g in s;
        LargestOrderMeaning(measure, g, best);
      }
    } else {
      assert s == [];
    }
  }

  lemma LargestOrderPreorder(measure: Group -> int)
    ensures TotalPreorder(LargestOrder(measure))
  {
    StringOrder();
    IntOrder();
    ReversePreorder(CompareStrings);
    ComparingPreorder(measure, CompareInts);
    ComparingPreorder(NameOf, Reverse(CompareStrings));
    ThenComparingPreorder(Comparing(measure, CompareInts), Comparing(NameOf, Reverse(CompareStrings)));
  }

  /** Not above best in the group order: a smaller measure, or the same one and a name not below. */
  lemma LargestOrderMeaning(measure: Group -> int, g: Group, best: Group)
    requires LargestOrder(measure)(g, best) <= 0
    ensures measure(g) < measure(best) || (measure(g) == measure(best) && CompareStrings(best.name, g.name) <= 0)
  {
    ThenComparingApply(Comparing(measure, CompareInts), Comparing(NameOf, Reverse(CompareStrings)), g, best);
    ComparingApply(measure, CompareInts, g, best);
    ComparingApply(NameOf, Reverse(CompareStrings), g, best);
    ReverseApply(CompareStrings, g.name, best.name);
  }

  /** getLargestGroup and getLargestGroupFirstName: "" on an empty collection, otherwise a group
      name of the collection whose group has the most students (the most distinct first names),
      ties going to the smallest name. */
  lemma LargestGroupSpec(collection: seq<Student>, natural: (Student, Student) -> int)
    ensures collection == [] ==> GetLargestGroup(collection, natural) == "" && GetLargestGroupFirstName(collection, natural) == ""
    ensures collection != [] ==> var n := GetLargestGroup(collection, natural);
      && (exists x :: x in collection && x.group == n)
      && forall x :: x in collection ==>
           var c, best := |GroupOf(collection, natural, x.group).students|, |GroupOf(collection, natural, n).students|;
           c < best || (c == best && CompareStrings(n, x.group) <= 0)
    ensures collection != [] ==> var n := GetLargestGroupFirstName(collection, natural);
      && (exists x :: x in collection && x.group == n)
      && forall x :: x in collection ==>
           var c := |GetDistinctFirstNames(GroupOf(collection, natural, x.group).students)|;
           var best := |GetDistinctFirstNames(GroupOf(collection, natural, n).students)|;
           c < best || (c == best && CompareStrings(n, x.group) <= 0)
  {
    MaxGroupNameSpec(collection, natural, StudentCount);
    MaxGroupNameSpec(collection, natural, FirstNameCount);
  }

  // ---------------------------------------------------------------------------------------------
  // getMostPopularName

  /** An entry of the map groupingBy(fullName, mapping(group, toSet, size)). */
  datatype Entry = Entry(key: string, value: int)

  /** The distinct groups of the students with a full name. */
  function GroupsWithName(collection: seq<Student>, name: string): set<string> {
    set x | x in collection && FullName(x) == name :: x.group
  }

  /** The entries: each distinct full name with the number of distinct groups it occurs in. */
  function NameEntries(collection: seq<Student>): (r: seq<Entry>)
    ensures |r| == |Distinct(GetFullNames(collection))|
  {
    var names := Distinct(GetFullNames(collection));
    seq(|names|, i requires 0 <= i < |names| => Entry(names[i], |GroupsWithName(collection, names[i])|))
  }

  function KeyOf(e: Entry): string { e.key }
  function ValueOf(e: Entry): int { e.value }

  /** comparingInt(Map.Entry::getValue).thenComparing(Map.Entry::getKey). */
  function PopularOrder(): (Entry, Entry) -> int {
    ThenComparing(Comparing(ValueOf, CompareInts), Comparing(KeyOf, CompareStrings))
  }

  /** getMostPopularName: the key of the greatest entry, "" when there is none. */
  function GetMostPopularName(collection: seq<Student>): string {
    match Max(PopularOrder(), NameEntries(collection))
    case Some(e) => e.key
    case None => ""
  }

  /** The entries are exactly the full names of the collection with their group counts. */
  lemma NameEntriesSpec(collection: seq<Student>)
    ensures forall e :: e in NameEntries(collection) <==>
      exists x :: x in collection && e == Entry(FullName(x), |GroupsWithName(collection, FullName(x))|)
  {
    var names, r := Distinct(GetFullNames(collection)), NameEntries(collection);
    forall e ensures e in r <==> exists x :: x in collection && e == Entry(FullName(x), |GroupsWithName(collection, FullName(x))|) {
      if e in r {
        var i :| 0 <= i < |r| && r[i] == e;
        assert names[i] in GetFullNames(collection);
        var j :| 0 <= j < |collection| && GetFullNames(collection)[j] == names[i];
        assert collection[j] in collection;
      }
      if exists x :: x in collection && e == Entry(FullName(x), |GroupsWithName(collection, FullName(x))|) {
        var x :| x in collection && e == Entry(FullName(x), |GroupsWithName(collection, FullName(x))|);
        var j :| 0 <= j < |collection| && collection[j] == x;
        assert GetFullNames(collection)[j] == FullName(x);
        assert FullName(x) in GetFullNames(collection);
        assert FullName(x) in names;
        var i :| 0 <= i < |names| && names[i] == FullName(x);
        assert r[i] == e;
      }
    }
  }

  /** An entry not above another under the popularity order has a smaller count, or the same
      count and a key not above. */
  lemma PopularOrderMeaning(e: Entry, best: Entry)
    requires PopularOrder()(e, best) <= 0
    ensures e.value < best.value || (e.value == best.value && CompareStrings(e.key, best.key) <= 0)
  {
    ThenComparingApply(Comparing(ValueOf, CompareInts), Comparing(KeyOf, CompareStrings), e, best);
    ComparingApply(ValueOf, CompareInts, e, best);
    ComparingApply(KeyOf, CompareStrings, e, best);
    IntOrder();
  }

  /** getMostPopularName is "" exactly for an empty collection (a full name always holds a
      space); otherwise it is the full name of a student whose name occurs in the most distinct
      groups, and the greatest such name on a tie. */
  lemma MostPopularNameSpec(collection: seq<Student>)
    ensures GetMostPopularName(collection) == "" <==> collection == []
    ensures collection != [] ==> var n := GetMostPopularName(collection);
      && (exists x :: x in collection && FullName(x) == n)
      && forall x :: x in collection ==>
           var c, best := |GroupsWithName(collection, FullName(x))|, |GroupsWithName(collection, n)|;
           c < best || (c == best && CompareStrings(FullName(x), n) <= 0)
  {
    var s := NameEntries(collection);
    var cmp := PopularOrder();
    StringOrder();
    IntOrder();
    ComparingPreorder(ValueOf, CompareInts);
    ComparingPreorder(KeyOf, CompareStrings);
    ThenComparingPreorder(Comparing(ValueOf, CompareInts), Comparing(KeyOf, CompareStrings));
    NameEntriesSpec(collection);
    MaxSpec(cmp, s);
    if collection != [] {
      var x0 := collection[0];
      assert Entry(FullName(x0), |GroupsWithName(collection, FullName(x0))|) in s;
      var best := Max(cmp, s).value;
      var y :| y in collection && best == Entry(FullName(y), |GroupsWithName(collection, FullName(y))|);
      assert FullName(y)[|y.firstName|] == ' ';
      forall x | x in collection ensures
        var c := |GroupsWithName(collection, FullName(x))|;
        c < best.value || (c == best.value && CompareStrings(FullName(x), best.key) <= 0)
      {
        var e := Entry(FullName(x), |GroupsWithName(collection, FullName(x))|);
        assert e in s;
        assert cmp(e, best) <= 0;
        PopularOrderMeaning(e, best);
      }
    } else {
      assert s == [];
    }
  }
}
