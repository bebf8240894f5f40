/** Sorting the linked rosters of a course (hw2/src/sort.c). */
module RosterSort {
  import opened Sequences
  import opened Gradebook
  import opened Quicksort

  // ----- comparators ------------------------------------------------------------------------------

  /** strcmp on strings without NUL characters: -1, 0 or 1. */
  function StrCmp(a: string, b: string): (r: int)
    ensures r == 0 <==> a == b
  {
    if a == [] && b == [] then 0
    else if a == [] then -1
    else if b == [] then 1
    else if a[0] < b[0] then -1
    else if b[0] < a[0] then 1
    else StrCmp(a[1..], b[1..])
  }

  lemma {:induction false} StrCmpFlip(a: string, b: string)
    ensures StrCmp(a, b) == -StrCmp(b, a)
  {
    if a != [] && b != [] && a[0] == b[0] { StrCmpFlip(a[1..], b[1..]); }
  }

  lemma {:induction false} StrCmpTransitive(a: string, b: string, c: string)
    requires StrCmp(a, b) <= 0 && StrCmp(b, c) <= 0
    ensures StrCmp(a, c) <= 0
    ensures StrCmp(a, c) == 0 ==> StrCmp(a, b) == 0 && StrCmp(b, c) == 0
  {
    if a != [] && b != [] && c != [] && a[0] == b[0] && b[0] == c[0] {
      StrCmpTransitive(a[1..], b[1..], c[1..]);
    }
  }

  function CompareName(s1: Student, s2: Student): int {
    var c := StrCmp(s1.surname, s2.surname);
    if c != 0 then c else StrCmp(s1.name, s2.name)
  }

  function CompareId(s1: Student, s2: Student): int {
    StrCmp(s1.id, s2.id)
  }

  function CompareScore(s1: Student, s2: Student): int {
    if s1.composite > s2.composite then -1
    else if s1.composite < s2.composite then 1
    else 0
  }

  /** Dictionary order: where the strings first differ a has the smaller character, or a ends there. */
  ghost predicate Precedes(a: string, b: string) {
    exists k: nat :: DifferAt(a, b, k) && (k == |a| || (k < |b| && a[k] < b[k]))
  }

  /** The strings agree before k and differ there. */
  ghost predicate DifferAt(a: string, b: string, k: nat) {
    k <= |a| && k <= |b| && a[..k] == b[..k] && (k < |a| || k < |b|) && (k < |a| && k < |b| ==> a[k] != b[k])
  }

  lemma SameStart(a: string, b: string, k: nat)
    requires DifferAt(a, b, k) && k > 0
    ensures a != [] && b != [] && a[0] == b[0]
  {
    assert a[..k][0] == b[..k][0];
  }

  lemma {:induction false} StrCmpIsOrder(a: string, b: string)
    ensures StrCmp(a, b) < 0 <==> Precedes(a, b)
  {
    if a != [] && b != [] && a[0] == b[0] {
      StrCmpIsOrder(a[1..], b[1..]);
      if Precedes(a[1..], b[1..]) {
        var k: nat :| DifferAt(a[1..], b[1..], k) && (k == |a[1..]| || (k < |b[1..]| && a[1..][k] < b[1..][k]));
        assert a[..k + 1] == [a[0]] + a[1..][..k] && b[..k + 1] == [b[0]] + b[1..][..k];
        assert DifferAt(a, b, k + 1);
      }
      if Precedes(a, b) {
        var k: nat :| DifferAt(a, b, k) && (k == |a| || (k < |b| && a[k] < b[k]));
        assert a[1..][..k - 1] == a[..k][1..] && b[1..][..k - 1] == b[..k][1..];
        assert DifferAt(a[1..], b[1..], k - 1);
      }
    } else {
      assert DifferAt(a, b, 0) <==> a != b;
      if Precedes(a, b) {
        var k: nat :| DifferAt(a, b, k) && (k == |a| || (k < |b| && a[k] < b[k]));
        if k > 0 { SameStart(a, b, k); }
      }
    }
  }

  /** By name: surname first, then name, in dictionary order. By id: in dictionary order. By score: the
      greatest first. */
  lemma ComparatorsMean(s1: Student, s2: Student)
    ensures CompareName(s1, s2) < 0 <==>
      Precedes(s1.surname, s2.surname) || (s1.surname == s2.surname && Precedes(s1.name, s2.name))
    ensures CompareName(s1, s2) == 0 <==> s1.surname == s2.surname && s1.name == s2.name
    ensures CompareId(s1, s2) < 0 <==> Precedes(s1.id, s2.id)
    ensures CompareId(s1, s2) == 0 <==> s1.id == s2.id
    ensures CompareScore(s1, s2) < 0 <==> s1.composite > s2.composite
    ensures CompareScore(s1, s2) == 0 <==> s1.composite == s2.composite
  {
    StrCmpIsOrder(s1.surname, s2.surname);
    StrCmpIsOrder(s1.name, s2.name);
    StrCmpIsOrder(s1.id, s2.id);
  }

  /** The three comparators are total preorders, so every roster sort below meets its requirement. */
  lemma ComparatorsArePreorders(M: multiset<Student>)
    ensures PreorderOn(CompareName, M) && PreorderOn(CompareId, M) && PreorderOn(CompareScore, M)
  {
    forall a, b | a in M && b in M
      ensures CompareName(a, b) < 0 <==> CompareName(b, a) > 0
      ensures CompareId(a, b) < 0 <==> CompareId(b, a) > 0
    {
      StrCmpFlip(a.surname, b.surname);
      StrCmpFlip(a.name, b.name);
      StrCmpFlip(a.id, b.id);
    }
    forall a, b, c | a in M && b in M && c in M && CompareName(a, b) <= 0 && CompareName(b, c) <= 0
      ensures CompareName(a, c) <= 0
    {
      StrCmpTransitive(a.surname, b.surname, c.surname);
      if a.surname == b.surname == c.surname { StrCmpTransitive(a.name, b.name, c.name); }
    }
    forall a, b, c | a in M && b in M && c in M && CompareId(a, b) <= 0 && CompareId(b, c) <= 0
      ensures CompareId(a, c) <= 0
    {
      StrCmpTransitive(a.id, b.id, c.id);
    }
  }

  // ----- linked rosters -----------------------------------------------------------------------------

  method Set(s: Student, n: Student?, c: Chain)
    modifies s
    ensures Get(s, c) == n
    ensures forall d :: d != c ==> Get(s, d) == old(Get(s, d))
  {
    if c.Next? { s.next := n; } else { s.cnext := n; }
  }

  ghost function Reversed(nodes: seq<Student>): seq<Student> {
    seq(|nodes|, i requires 0 <= i < |nodes| => nodes[|nodes| - 1 - i])
  }

  lemma {:induction false} ReversedMultiset(nodes: seq<Student>)
    ensures multiset(Reversed(nodes)) == multiset(nodes)
  {
    if nodes == [] {
      assert Reversed(nodes) == [];
    } else {
      var n := |nodes| - 1;
      assert Reversed(nodes) == [nodes[n]] + Reversed(nodes[..n]);
      ReversedMultiset(nodes[..n]);
      assert nodes == nodes[..n] + [nodes[n]];
    }
  }

  /** A permutation of distinct nodes is distinct. */
  lemma DistinctPermutation(s: seq<Student>, t: seq<Student>)
    requires Distinct(s) && multiset(s) == multiset(t)
    ensures Distinct(t) && |t| == |s| && forall x :: x in t <==> x in s
  {
    assert |t| == |multiset(t)| && |s| == |multiset(s)|;
    forall x | x in t ensures x in s { assert x in multiset(s); }
    forall x | x in s ensures x in t { assert x in multiset(t); }
    forall i, j | 0 <= i < j < |t| ensures t[i] != t[j] {
      if t[i] == t[j] {
        TwiceCounted(t, i, j);
        OnceCounted(s, t[i]);
      }
    }
  }

  lemma TwiceCounted(t: seq<Student>, i: nat, j: nat)
    requires i < j < |t| && t[i] == t[j]
    ensures multiset(t)[t[i]] >= 2
  {
    assert t == t[..i] + [t[i]] + t[i + 1..j] + [t[j]] + t[j + 1..];
    assert multiset(t) ==
      multiset(t[..i]) + multiset([t[i]]) + multiset(t[i + 1..j]) + multiset([t[j]]) + multiset(t[j + 1..]);
  }

  lemma {:induction false} OnceCounted(s: seq<Student>, x: Student)
    requires Distinct(s)
    ensures multiset(s)[x] <= 1
  {
    if s != [] {
      var n := |s| - 1;
      OnceCounted(s[..n], x);
      assert s == s[..n] + [s[n]];
      assert s[n] !in s[..n];
    }
  }

  /** Lines 56-70: count the students and put them in a table, last one first. */
  method Table(s: Student?, c: Chain, ghost nodes: seq<Student>) returns (stab: array<Student>)
    requires Roster(s, nodes, c)
    ensures fresh(stab) && stab[..] == Reversed(nodes)
  {
    var sp := s;
    var count := 0;
    while sp != null
      invariant 0 <= count <= |nodes| && sp == if count < |nodes| then nodes[count] else null
      decreases |nodes| - count
    {
      count := count + 1;
      sp := Get(sp, c);
    }
    if s == null {
      stab := new Student[0];
      return;
    }
    stab := new Student[count](_ => s);
    sp := s;
    var i := count;
    while i > 0
      invariant 0 <= i <= count && fresh(stab) && stab.Length == count
      invariant sp == if i > 0 then nodes[count - i] else null
      invariant forall j :: i <= j < count ==> stab[j] == nodes[count - 1 - j]
    {
      i := i - 1;
      stab[i] := sp;
      sp := Get(sp, c);
    }
  }

  /** Lines 72-80: link the students of the table in its order. */
  method Relink(stab: array<Student>, c: Chain, ghost nodes: seq<Student>) returns (r: Student)
    requires stab.Length > 0 && Distinct(stab[..]) && forall i :: 0 <= i < stab.Length ==> stab[i] in nodes
    modifies nodes
    ensures Roster(r, stab[..], c) && stab[..] == old(stab[..])
    ensures forall x, d :: x in nodes && d != c ==> Get(x, d) == old(Get(x, d))
  {
    ghost var t := stab[..];
    var sp := stab[0];
    var i := 1;
    while i < stab.Length
      invariant 1 <= i <= stab.Length && stab[..] == t && sp == t[i - 1]
      invariant forall j :: 0 <= j < i - 1 ==> Get(t[j], c) == t[j + 1]
      invariant forall x, d :: x in nodes && d != c ==> Get(x, d) == old(Get(x, d))
    {
      Set(sp, stab[i], c);
      sp := stab[i];
      i := i + 1;
    }
    Set(sp, null, c);
    r := stab[0];
  }

  /** Lines 47-81. The result is the same students in order, NULL-terminated; the other chain of
      every student is left alone. */
  method SortRoster(s: Student?, c: Chain, cmp: (Student, Student) -> int, ghost nodes: seq<Student>)
    returns (r: Student?, ghost sorted: seq<Student>)
    requires Roster(s, nodes, c) && PreorderOn(cmp, multiset(nodes))
    modifies nodes
    ensures Roster(r, sorted, c) && multiset(sorted) == multiset(nodes) && Sorted(cmp, sorted)
    ensures forall x, d :: x in nodes && d != c ==> Get(x, d) == old(Get(x, d))
  {
    hide PreorderOn, Sorted, Shuffled;
    var stab := Table(s, c, nodes);
    if stab.Length == 0 {
      EmptySorted(cmp);
      return null, [];
    }
    ReversedMultiset(nodes);
    SortTable(stab, 0, stab.Length, cmp);
    sorted := stab[..];
    ShuffledMultiset(Reversed(nodes), sorted, 0, stab.Length);
    assert stab[0..stab.Length] == stab[..];
    DistinctPermutation(nodes, sorted);
    assert forall i :: 0 <= i < stab.Length ==> stab[i] in sorted;
    r := Relink(stab, c, nodes);
  }

  lemma EmptySorted(cmp: (Student, Student) -> int)
    ensures Sorted(cmp, [])
  {
  }

  // ----- all rosters of a course ----------------------------------------------------------------------

  /** Rosters that share no student with each other and only have students of the course. */
  ghost predicate Apart(rosters: seq<seq<Student>>, all: seq<Student>) {
    && (forall i, x :: 0 <= i < |rosters| && x in rosters[i] ==> x in all)
    && (forall i, j, x :: 0 <= i < j < |rosters| && x in rosters[i] ==> x !in rosters[j])
  }

  lemma PreorderOnPart(cmp: (Student, Student) -> int, all: seq<Student>, part: seq<Student>)
    requires PreorderOn(cmp, multiset(all)) && forall x :: x in part ==> x in all
    ensures PreorderOn(cmp, multiset(part))
  {
    forall x | x in multiset(part) ensures x in multiset(all) {
      assert x in part && x in all;
    }
  }

  lemma SameElements(s: seq<Student>, t: seq<Student>)
    requires multiset(s) == multiset(t)
    ensures forall x :: x in t <==> x in s
  {
    forall x ensures x in t <==> x in s {
      assert x in multiset(s) <==> x in multiset(t);
    }
  }

  /** Section i's roster, sorted or still as it was. */
  ghost predicate SectionRoster(sec: Section, before: seq<Student>, now: seq<Student>)
    reads sec, now
  {
    Roster(sec.roster, now, Next) && multiset(now) == multiset(before)
  }

  /** Lines 43-44 for one section. */
  method SortSection(s: Section, cmp: (Student, Student) -> int,
                     ghost part: seq<Student>) returns (ghost now: seq<Student>)
    requires Roster(s.roster, part, Next) && PreorderOn(cmp, multiset(part))
    modifies s`roster, part
    ensures SectionRoster(s, part, now) && Sorted(cmp, now)
    ensures forall x :: x in part ==> x.cnext == old(x.cnext)
  {
    hide PreorderOn, Sorted;
    var r;
    r, now := SortRoster(s.roster, Next, cmp, part);
    assert forall x :: x in part ==> x.cnext == Get(x, CNext);
    s.roster := r;
  }

  /** Sorting one section leaves the course roster and the other sections alone. */
  method SortOne(c: Course, cmp: (Student, Student) -> int, ghost sortedAll: seq<Student>, ghost secs: seq<Section>,
                 ghost sorted: seq<seq<Student>>, ghost k: nat, s: Section)
    returns (ghost now: seq<Student>)
    requires k < |secs| == |sorted| && s == secs[k] && Distinct(secs)
    requires Roster(c.roster, sortedAll, CNext) && PreorderOn(cmp, multiset(sorted[k]))
    requires forall i :: 0 <= i < |secs| ==> Roster(secs[i].roster, sorted[i], Next)
    requires forall i :: 0 <= i < |secs| && i != k ==> forall x :: x in sorted[i] ==> x !in sorted[k]
    modifies s`roster, sorted[k]
    ensures SectionRoster(s, sorted[k], now) && Sorted(cmp, now)
    ensures Roster(c.roster, sortedAll, CNext)
    ensures forall i :: 0 <= i < |secs| && i != k ==> Roster(secs[i].roster, sorted[i], Next)
  {
    hide PreorderOn, Sorted;
    now := SortSection(s, cmp, sorted[k]);
    assert forall x :: x in sortedAll ==> x.cnext == old(x.cnext);
    assert forall x :: x in sortedAll ==> Get(x, CNext) == old(Get(x, CNext));
    forall i | 0 <= i < |secs| && i != k ensures Roster(secs[i].roster, sorted[i], Next) {
      assert old(Roster(secs[i].roster, sorted[i], Next)) && secs[i] != s;
      assert forall j :: 0 <= j < |sorted[i]| ==> sorted[i][j] !in sorted[k];
      assert forall j :: 0 <= j < |sorted[i]| ==> Get(sorted[i][j], Next) == old(Get(sorted[i][j], Next));
    }
  }

  /** Lines 37-45: the course roster by cnext, then every section roster by next. */
  method SortRosters(c: Course, cmp: (Student, Student) -> int, ghost all: seq<Student>,
                     ghost secs: seq<Section>, ghost rosters: seq<seq<Student>>)
    returns (ghost sortedAll: seq<Student>, ghost sorted: seq<seq<Student>>)
    requires Roster(c.roster, all, CNext) && SectionList(c.sections, secs) && Distinct(secs) &&
      PreorderOn(cmp, multiset(all))
    requires |rosters| == |secs| && Apart(rosters, all)
    requires forall i :: 0 <= i < |secs| ==> Roster(secs[i].roster, rosters[i], Next)
    modifies c, secs, all
    ensures Roster(c.roster, sortedAll, CNext) && multiset(sortedAll) == multiset(all) && Sorted(cmp, sortedAll)
    ensures |sorted| == |secs|
    ensures forall i :: 0 <= i < |secs| ==>
      Roster(secs[i].roster, sorted[i], Next) && multiset(sorted[i]) == multiset(rosters[i]) && Sorted(cmp, sorted[i])
  {
    hide PreorderOn, Sorted, Apart, Roster;
    PartsOf(cmp, all, rosters);
    sortedAll := SortCourse(c, cmp, all, secs, rosters);
    sorted := rosters;
    var s := c.sections;
    ghost var k := 0;
    while s != null
      invariant 0 <= k <= |secs| && SectionList(s, secs[k..]) && |sorted| == |secs|
      invariant Roster(c.roster, sortedAll, CNext)
      invariant forall i :: 0 <= i < k ==> Sorted(cmp, sorted[i])
      invariant forall i :: k <= i < |secs| ==> sorted[i] == rosters[i]
      invariant forall i :: 0 <= i < |secs| ==> Roster(secs[i].roster, sorted[i], Next)
      invariant forall i :: 0 <= i < |secs| ==> multiset(sorted[i]) == multiset(rosters[i])
      decreases |secs| - k
    {
      assert forall j :: 0 <= j < |sorted[k]| ==> sorted[k][j] in all;
      StillApart(rosters, sorted, all, k);
      ghost var now := SortOne(c, cmp, sortedAll, secs, sorted, k, s);
      sorted := sorted[k := now];
      s := s.next;
      k := k + 1;
    }
  }

  lemma StillApart(rosters: seq<seq<Student>>, sorted: seq<seq<Student>>, all: seq<Student>, k: nat)
    requires Apart(rosters, all) && |sorted| == |rosters| && k < |rosters| && sorted[k] == rosters[k]
    requires forall i :: 0 <= i < |sorted| ==> multiset(sorted[i]) == multiset(rosters[i])
    ensures forall i :: 0 <= i < |sorted| && i != k ==> forall x :: x in sorted[i] ==> x !in sorted[k]
  {
    forall i | 0 <= i < |sorted| && i != k ensures forall x :: x in sorted[i] ==> x !in sorted[k] {
      SameElements(rosters[i], sorted[i]);
      DifferentRosters(rosters, all, i, k);
    }
  }

  /** Line 42: the course roster; the section rosters keep their links. */
  method SortCourse(c: Course, cmp: (Student, Student) -> int, ghost all: seq<Student>,
                    ghost secs: seq<Section>, ghost rosters: seq<seq<Student>>) returns (ghost sorted: seq<Student>)
    requires Roster(c.roster, all, CNext) && PreorderOn(cmp, multiset(all))
    requires |rosters| == |secs| && forall i, x :: 0 <= i < |rosters| && x in rosters[i] ==> x in all
    requires forall i :: 0 <= i < |secs| ==> Roster(secs[i].roster, rosters[i], Next)
    modifies c`roster, all
    ensures Roster(c.roster, sorted, CNext) && multiset(sorted) == multiset(all) && Sorted(cmp, sorted)
    ensures forall i :: 0 <= i < |secs| ==> Roster(secs[i].roster, rosters[i], Next)
  {
    hide PreorderOn, Sorted;
    var r;
    r, sorted := SortRoster(c.roster, CNext, cmp, all);
    c.roster := r;
    forall i | 0 <= i < |secs| ensures Roster(secs[i].roster, rosters[i], Next) {
      assert old(Roster(secs[i].roster, rosters[i], Next));
      assert forall x :: x in rosters[i] ==> Get(x, Next) == old(Get(x, Next));
    }
  }

  lemma PartsOf(cmp: (Student, Student) -> int, all: seq<Student>, rosters: seq<seq<Student>>)
    requires PreorderOn(cmp, multiset(all)) && Apart(rosters, all)
    ensures forall i :: 0 <= i < |rosters| ==> PreorderOn(cmp, multiset(rosters[i]))
    ensures forall i, x :: 0 <= i < |rosters| && x in rosters[i] ==> x in all
  {
    forall i | 0 <= i < |rosters| ensures PreorderOn(cmp, multiset(rosters[i])) {
      PreorderOnPart(cmp, all, rosters[i]);
    }
  }

  lemma DifferentRosters(rosters: seq<seq<Student>>, all: seq<Student>, i: nat, k: nat)
    requires Apart(rosters, all) && i < |rosters| && k < |rosters| && i != k
    ensures forall x :: x in rosters[i] ==> x !in rosters[k]
  {
  }

  // ----- duplicate entries ---------------------------------------------------------------------------

  /** The different names among students. */
  ghost function Names(s: seq<Student>): set<(string, string)> {
    set x | x in s :: (x.surname, x.name)
  }

  /** In a name-sorted roster a student adds a new name unless the one before has the same name. */
  lemma NewName(s: seq<Student>, k: nat)
    requires Sorted(CompareName, s) && 0 < k < |s|
    ensures Names(s[..k + 1]) == Names(s[..k]) + {(s[k].surname, s[k].name)}
    ensures (s[k].surname, s[k].name) in Names(s[..k]) <==> CompareName(s[k - 1], s[k]) == 0
  {
    assert s[..k + 1] == s[..k] + [s[k]];
    var nm := (s[k].surname, s[k].name);
    if CompareName(s[k - 1], s[k]) == 0 {
      assert s[k - 1] in s[..k];
    }
    if nm in Names(s[..k]) {
      var x :| x in s[..k] && (x.surname, x.name) == nm;
      var j :| 0 <= j < k && s[..k][j] == x;
      NameAntisymmetric(s[j], s[k - 1], s[k]);
    }
  }

  lemma NameAntisymmetric(a: Student, b: Student, c: Student)
    requires CompareName(a, b) <= 0 && CompareName(b, c) <= 0 && CompareName(a, c) == 0
    ensures CompareName(b, c) == 0
  {
    StrCmpTransitive(a.surname, b.surname, c.surname);
    if a.surname == b.surname { StrCmpTransitive(a.name, b.name, c.name); }
  }

  /** Lines 152-161: one warning per student that repeats the name before it. */
  method CheckForDups(s: Student?, ghost nodes: seq<Student>) returns (warnings: nat)
    requires Roster(s, nodes, CNext)
    ensures Sorted(CompareName, nodes) ==> warnings == |nodes| - |Names(nodes)|
  {
    hide Sorted;
    if s == null {
      assert nodes == [] && Names(nodes) == {};
      return 0;
    }
    var sp := s;
    warnings := 0;
    ghost var k := 0;
    FirstName(nodes);
    assert Get(sp, CNext) == sp.cnext;
    while sp != null && sp.cnext != null
      invariant k < |nodes| && sp == nodes[k] && sp.cnext == if k + 1 < |nodes| then nodes[k + 1] else null
      invariant Sorted(CompareName, nodes) ==> warnings == k + 1 - |Names(nodes[..k + 1])|
      decreases |nodes| - k
    {
      assert Get(nodes[k + 1], CNext) == nodes[k + 1].cnext;
      if CompareName(sp, sp.cnext) == 0 {
        warnings := warnings + 1;
      }
      if Sorted(CompareName, nodes) { NewNameCount(nodes, k + 1); }
      sp := sp.cnext;
      k := k + 1;
    }
    assert nodes[..k + 1] == nodes;
  }

  lemma FirstName(s: seq<Student>)
    requires s != []
    ensures |Names(s[..1])| == 1
  {
    assert s[..1] == [s[0]];
    assert Names(s[..1]) == {(s[0].surname, s[0].name)};
  }

  lemma NewNameCount(s: seq<Student>, k: nat)
    requires Sorted(CompareName, s) && 0 < k < |s|
    ensures |Names(s[..k + 1])| == |Names(s[..k])| + if CompareName(s[k - 1], s[k]) == 0 then 0 else 1
  {
    NewName(s, k);
  }
}
