/**
 * The course: its assignments, people and grades, each kept sorted, and the
 * queries the handlers and reports run against it.
 */
module CourseModel {

  import opened Outcome
  import opened Text
  import opened Sorting
  import opened PersonModel
  import opened AssignmentModel
  import opened GradeModel

  datatype Course = Course(
    name: string,
    assignments: seq<Assignment>,
    people: seq<Person>,
    grades: seq<Grade>,
    robot: Person)

  /** The three lists are sorted by their elements' `__lt__`. */
  predicate Sorted(c: Course)
  {
    SortedBy(c.assignments, AssignmentLt) &&
    SortedBy(c.people, PersonLt) &&
    SortedBy(c.grades, GradeLt)
  }

  /** The constructor: a missing list is empty, and every list is stored sorted. */
  function NewCourse(name: string, assignments: Option<seq<Assignment>>, people: Option<seq<Person>>,
                     grades: Option<seq<Grade>>, robot: Person): (c: Course)
    ensures Sorted(c)
    ensures multiset(c.assignments) == multiset(assignments.GetOr([]))
    ensures multiset(c.people) == multiset(people.GetOr([]))
    ensures multiset(c.grades) == multiset(grades.GetOr([]))
    ensures c.name == name && c.robot == robot
  {
    AssignmentLtStrict();
    PersonLtStrict();
    GradeLtStrict();
    SortSorted(assignments.GetOr([]), AssignmentLt);
    SortSorted(people.GetOr([]), PersonLt);
    SortSorted(grades.GetOr([]), GradeLt);
    Course(name, Sort(assignments.GetOr([]), AssignmentLt), Sort(people.GetOr([]), PersonLt),
           Sort(grades.GetOr([]), GradeLt), robot)
  }

  /**
   * The constructor sorts people stably: people with the same name keep the
   * order they were given in, which is the order `find_people` returns them in.
   */
  lemma NewCoursePeopleStable(name: string, assignments: Option<seq<Assignment>>, people: Option<seq<Person>>,
                              grades: Option<seq<Grade>>, robot: Person, k: Person)
    ensures TiedWith(NewCourse(name, assignments, people, grades, robot).people, k, PersonLt) ==
            TiedWith(people.GetOr([]), k, PersonLt)
  {
    PersonStrictOrder();
    PersonTiesTransitive();
    SortStable(people.GetOr([]), k, PersonLt);
  }

  // ---------------------------------------------------------------- assignment(name)

  /** The first assignment called `name`; `None` is the `ValueError`. */
  function AssignmentNamed(assignments: seq<Assignment>, name: string): (r: Option<Assignment>)
    ensures r.None? <==> forall i :: 0 <= i < |assignments| ==> assignments[i].name != name
    ensures r.Some? ==> exists i :: 0 <= i < |assignments| && assignments[i] == r.value &&
                          r.value.name == name &&
                          forall j :: 0 <= j < i ==> assignments[j].name != name
  {
    if assignments == [] then None
    else if assignments[0].name == name then
      assert assignments[0] == assignments[0];
      Some(assignments[0])
    else
      var r := AssignmentNamed(assignments[1..], name);
      if r.Some? then
        var i :| 0 <= i < |assignments[1..]| && assignments[1..][i] == r.value &&
                 r.value.name == name && forall j :: 0 <= j < i ==> assignments[1..][j].name != name;
        assert assignments[i + 1] == r.value;
        r
      else r
  }

  // ---------------------------------------------------------------- find_people

  /** The keyword arguments of `find_people`; an absent one matches anybody. */
  datatype Query = Query(name: Option<string>, email: Option<string>, group: Option<string>)

  /** The addresses a person can be found by; a person without emails has none. */
  function Emails(p: Person): seq<string>
  {
    p.emails.GetOr([])
  }

  predicate Matches(p: Person, q: Query)
  {
    (q.name.None? || p.name == q.name.value || q.name.value in p.aliases) &&
    (q.email.None? || q.email.value in Emails(p)) &&
    (q.group.None? || q.group.value in p.groups)
  }

  /** The people matching the query, in course order. */
  function Matching(people: seq<Person>, q: Query): (r: seq<Person>)
    ensures |r| <= |people|
  {
    if people == [] then []
    else
      Matching(people[..|people| - 1], q) +
      (if Matches(people[|people| - 1], q) then [people[|people| - 1]] else [])
  }

  /** Exactly the matching people are returned. */
  lemma {:induction false} MatchingMembers(people: seq<Person>, q: Query)
    ensures forall p :: p in Matching(people, q) <==> p in people && Matches(p, q)
  {
    if people != [] {
      MatchingMembers(people[..|people| - 1], q);
      assert people == people[..|people| - 1] + [people[|people| - 1]];
    }
  }

  /** A query without keywords returns everybody, in order. */
  lemma {:induction false} MatchingEverybody(people: seq<Person>)
    ensures Matching(people, Query(None, None, None)) == people
  {
    if people != [] {
      MatchingEverybody(people[..|people| - 1]);
      assert people == people[..|people| - 1] + [people[|people| - 1]];
    }
  }

  /** Narrowing the result of one query by another is asking both at once. */
  lemma {:induction false} MatchingTwice(people: seq<Person>, q1: Query, q2: Query)
    ensures Matching(Matching(people, q1), q2) ==
            Both(people, q1, q2)
  {
    if people != [] {
      var init := people[..|people| - 1];
      var last := people[|people| - 1];
      MatchingTwice(init, q1, q2);
      var m1 := Matching(init, q1);
      if Matches(last, q1) {
        assert Matching(people, q1)[..|Matching(people, q1)| - 1] == m1;
      } else {
        assert Matching(people, q1) == m1;
      }
    }
  }

  /** The people matching both queries, in order. */
  function Both(people: seq<Person>, q1: Query, q2: Query): seq<Person>
  {
    if people == [] then []
    else
      Both(people[..|people| - 1], q1, q2) +
      (if Matches(people[|people| - 1], q1) && Matches(people[|people| - 1], q2)
       then [people[|people| - 1]] else [])
  }

  /** `find_people`: each person is checked against the keywords that were given. */
  method FindPeople(c: Course, q: Query) returns (r: seq<Person>)
    ensures r == Matching(c.people, q)
  {
    r := [];
    var i := 0;
    while i < |c.people|
      invariant 0 <= i <= |c.people|
      invariant r == Matching(c.people[..i], q)
    {
      var person := c.people[i];
      var nameMatch := q.name.Some? && (person.name == q.name.value || q.name.value in person.aliases);
      var emailMatch := q.email.Some? && q.email.value in Emails(person);
      var groupMatch := q.group.Some? && q.group.value in person.groups;
      var checks := [(q.name.Some?, nameMatch), (q.email.Some?, emailMatch), (q.group.Some?, groupMatch)];
      var matched := true;
      var k := 0;
      while k < |checks|
        invariant 0 <= k <= |checks|
        invariant matched <==> forall j :: 0 <= j < k ==> !checks[j].0 || checks[j].1
      {
        if checks[k].0 && !checks[k].1 {
          matched := false;
          break;
        }
        k := k + 1;
      }
      assert matched <==> (!checks[0].0 || checks[0].1) && (!checks[1].0 || checks[1].1) &&
                          (!checks[2].0 || checks[2].1);
      assert matched <==> Matches(person, q);
      assert c.people[..i + 1][..i] == c.people[..i];
      if matched {
        r := r + [person];
      }
      i := i + 1;
    }
    assert c.people[..|c.people|] == c.people;
  }

  /**
   * `find_people` as written: `email in person.emails` is evaluated for every
   * person, whatever the query, so one person without emails makes every query
   * raise `TypeError` (`None`).
   */
  function MatchingAsWritten(people: seq<Person>, q: Query): (r: Option<seq<Person>>)
    ensures r.None? <==> exists i :: 0 <= i < |people| && people[i].emails.None?
  {
    if people == [] then Some([])
    else
      var init := MatchingAsWritten(people[..|people| - 1], q);
      var last := people[|people| - 1];
      if init.None? then
        var i :| 0 <= i < |people[..|people| - 1]| && people[..|people| - 1][i].emails.None?;
        assert people[i].emails.None?;
        None
      else if last.emails.None? then None
      else Some(init.value + (if Matches(last, q) then [last] else []))
  }

  /** The two agree whenever everybody has an email list. */
  lemma {:induction false} MatchingAsWrittenAgrees(people: seq<Person>, q: Query)
    requires forall i :: 0 <= i < |people| ==> people[i].emails.Some?
    ensures MatchingAsWritten(people, q) == Some(Matching(people, q))
  {
    if people != [] {
      MatchingAsWrittenAgrees(people[..|people| - 1], q);
    }
  }

  /** A course member loaded without an `emails` entry makes any lookup fail as written. */
  lemma FindPeopleWithoutEmailsFails(bilbo: Person)
    requires bilbo.emails.Some?
    ensures MatchingAsWritten([bilbo, NewPerson("Gandalf")], Query(None, Some("bb@shire.org"), None)).None?
    ensures Matching([bilbo, NewPerson("Gandalf")], Query(None, Some("bb@shire.org"), None)) ==
            (if "bb@shire.org" in bilbo.emails.value then [bilbo] else [])
  {
    var ps := [bilbo, NewPerson("Gandalf")];
    assert ps[1].emails.None?;
    assert ps[..1] == [bilbo];
    assert [bilbo][..0] == [];
  }

  /** `person(**kw)`: the one person matching, or `None` for the failed assertion. */
  function UniquePerson(c: Course, q: Query): (r: Option<Person>)
    ensures r.Some? <==> |Matching(c.people, q)| == 1
    ensures r.Some? ==> r.value in c.people && Matches(r.value, q)
  {
    var ps := Matching(c.people, q);
    MatchingMembers(c.people, q);
    if |ps| == 1 then
      assert ps[0] in ps;
      Some(ps[0])
    else None
  }

  // ---------------------------------------------------------------- grade(student, assignment)

  /** `grade(student, assignment)`: the first matching grade; `None` is the `ValueError`. */
  function GradeOf(grades: seq<Grade>, s: Person, a: Assignment): (r: Option<Grade>)
    ensures r.Some? ==> r.value in grades && r.value.student == s && r.value.assignment == a
  {
    if grades == [] then None
    else if grades[0].student == s && grades[0].assignment == a then Some(grades[0])
    else GradeOf(grades[1..], s, a)
  }

  /** No grade is found exactly when no grade is for the pair. */
  lemma {:induction false} GradeOfNone(grades: seq<Grade>, s: Person, a: Assignment)
    ensures GradeOf(grades, s, a).None? <==>
            forall i :: 0 <= i < |grades| ==> grades[i].student != s || grades[i].assignment != a
    decreases |grades|
  {
    if grades != [] {
      GradeOfNone(grades[1..], s, a);
      assert forall i :: 1 <= i < |grades| ==> grades[i] == grades[1..][i - 1];
    }
  }

  /** The grade found is the earliest one for the pair. */
  lemma {:induction false} GradeOfFirst(grades: seq<Grade>, s: Person, a: Assignment, i: nat)
    requires i < |grades| && grades[i].student == s && grades[i].assignment == a
    requires forall j :: 0 <= j < i ==> grades[j].student != s || grades[j].assignment != a
    ensures GradeOf(grades, s, a) == Some(grades[i])
  {
    if i > 0 {
      GradeOfFirst(grades[1..], s, a, i - 1);
    }
  }

  // ---------------------------------------------------------------- total(student)

  /**
   * Grades the total can divide by, checked assignment by assignment as the
   * sum is taken: every graded assignment is worth some points.
   */
  predicate TotalDefined(assignments: seq<Assignment>, grades: seq<Grade>, s: Person)
  {
    assignments == [] ||
    (TotalDefined(assignments[..|assignments| - 1], grades, s) &&
     (GradeOf(grades, s, assignments[|assignments| - 1]).Some? ==> assignments[|assignments| - 1].points != 0))
  }

  /** The total is defined exactly when no graded assignment is worth zero points. */
  lemma {:induction false} TotalDefinedMeans(assignments: seq<Assignment>, grades: seq<Grade>, s: Person)
    ensures TotalDefined(assignments, grades, s) <==>
            forall i :: 0 <= i < |assignments| && GradeOf(grades, s, assignments[i]).Some? ==>
              assignments[i].points != 0
    decreases |assignments|
  {
    if assignments != [] {
      var n := |assignments| - 1;
      TotalDefinedMeans(assignments[..n], grades, s);
      assert forall i :: 0 <= i < n ==> assignments[..n][i] == assignments[i];
    }
  }

  /** The weighted sum of the graded fractions, assignment by assignment. */
  function WeightedSum(assignments: seq<Assignment>, grades: seq<Grade>, s: Person): real
    requires TotalDefined(assignments, grades, s)
  {
    if assignments == [] then 0.0
    else
      var a := assignments[|assignments| - 1];
      WeightedSum(assignments[..|assignments| - 1], grades, s) +
      (match GradeOf(grades, s, a)
       case None => 0.0
       case Some(g) => Share(g.points, a.points, a.weight))
  }

  /** What one grade contributes to the total: its fraction of the points, times the weight. */
  function Share(points: real, max: int, weight: real): real
    requires max != 0
  {
    points / (max as real) * weight
  }

  /**
   * `total(student)` as a value: the weighted sum taken assignment by
   * assignment, or `None` where a graded assignment worth zero points makes
   * the division fail.
   */
  function TotalOf(assignments: seq<Assignment>, grades: seq<Grade>, s: Person): Option<real>
  {
    if assignments == [] then Some(0.0)
    else
      var a := assignments[|assignments| - 1];
      match TotalOf(assignments[..|assignments| - 1], grades, s)
      case None => None
      case Some(t) =>
        match GradeOf(grades, s, a)
        case None => Some(t)
        case Some(g) => if a.points == 0 then None else Some(t + Share(g.points, a.points, a.weight))
  }

  /** The total is there exactly when it is defined, and it is the weighted sum. */
  lemma {:induction false} TotalOfMeans(assignments: seq<Assignment>, grades: seq<Grade>, s: Person)
    ensures TotalOf(assignments, grades, s).Some? <==> TotalDefined(assignments, grades, s)
    ensures TotalOf(assignments, grades, s).Some? ==>
            TotalOf(assignments, grades, s).value == WeightedSum(assignments, grades, s)
    decreases |assignments|
  {
    if assignments != [] {
      TotalOfMeans(assignments[..|assignments| - 1], grades, s);
    }
  }

  /** Once a prefix of the assignments makes the total fail, every longer prefix does too. */
  lemma {:induction false} TotalOfNoneStays(assignments: seq<Assignment>, grades: seq<Grade>, s: Person, n: nat)
    requires n <= |assignments|
    requires TotalOf(assignments[..n], grades, s).None?
    ensures TotalOf(assignments, grades, s).None?
    decreases |assignments| - n
  {
    if n < |assignments| {
      assert assignments[..n + 1][..n] == assignments[..n];
      TotalOfNoneStays(assignments, grades, s, n + 1);
    } else {
      assert assignments[..n] == assignments;
    }
  }

  /**
   * `total(student)`: ungraded assignments are skipped, and a graded
   * assignment worth zero points stops the loop with `ZeroDivisionError`,
   * which is `None` here.
   */
  method Total(c: Course, s: Person) returns (total: Option<real>)
    ensures total == TotalOf(c.assignments, c.grades, s)
    ensures total.Some? <==> TotalDefined(c.assignments, c.grades, s)
    ensures total.Some? ==> total.value == WeightedSum(c.assignments, c.grades, s)
  {
    TotalOfMeans(c.assignments, c.grades, s);
    var sum := 0.0;
    var i := 0;
    while i < |c.assignments|
      invariant 0 <= i <= |c.assignments|
      invariant TotalOf(c.assignments[..i], c.grades, s) == Some(sum)
    {
      var a := c.assignments[i];
      var g := GradeOf(c.grades, s, a);
      var prefix := c.assignments[..i + 1];
      assert prefix[..|prefix| - 1] == c.assignments[..i] && prefix[|prefix| - 1] == a;
      if g.Some? {
        if a.points == 0 {
          assert TotalOf(prefix, c.grades, s).None?;
          TotalOfNoneStays(c.assignments, c.grades, s, i + 1);
          return None;
        }
        assert TotalOf(prefix, c.grades, s) == Some(sum + Share(g.value.points, a.points, a.weight));
        sum := sum + Share(g.value.points, a.points, a.weight);
      } else {
        assert TotalOf(prefix, c.grades, s) == Some(sum);
      }
      i := i + 1;
    }
    assert c.assignments[..|c.assignments|] == c.assignments;
    return Some(sum);
  }

  /** Sum of the weights of the assignments the student has a grade for. */
  function GradedWeight(assignments: seq<Assignment>, grades: seq<Grade>, s: Person): real
  {
    if assignments == [] then 0.0
    else
      var a := assignments[|assignments| - 1];
      GradedWeight(assignments[..|assignments| - 1], grades, s) +
      (if GradeOf(grades, s, a).Some? then a.weight else 0.0)
  }

  /** Points never below zero nor above the maximum. */
  predicate PointsInRange(grades: seq<Grade>)
  {
    forall i :: 0 <= i < |grades| ==> 0.0 <= grades[i].points <= grades[i].assignment.points as real
  }

  /**
   * With grades between zero and the maximum and non-negative weights, the total
   * lies between zero and the weight of the graded assignments.
   */
  lemma {:induction false} TotalBounds(assignments: seq<Assignment>, grades: seq<Grade>, s: Person)
    requires forall i :: 0 <= i < |assignments| ==> assignments[i].points > 0 && assignments[i].weight >= 0.0
    requires PointsInRange(grades)
    ensures TotalDefined(assignments, grades, s)
    ensures 0.0 <= WeightedSum(assignments, grades, s) <= GradedWeight(assignments, grades, s)
  {
    if assignments != [] {
      var init := assignments[..|assignments| - 1];
      var a := assignments[|assignments| - 1];
      TotalBounds(init, grades, s);
      match GradeOf(grades, s, a)
      case None =>
      case Some(g) =>
        var i :| 0 <= i < |grades| && grades[i] == g;
        ShareBounds(g.points, a.points, a.weight);
        assert GradedWeight(assignments, grades, s) == GradedWeight(init, grades, s) + a.weight;
    }
  }

  lemma ShareBounds(p: real, max: int, w: real)
    requires 0.0 <= p <= max as real && max > 0 && w >= 0.0
    ensures 0.0 <= Share(p, max, w) <= w
  {
    var m := max as real;
    var f := p / m;
    assert f * m == p;
    assert 0.0 <= f <= 1.0;
    MulNonNegative(f, w);
    MulNonNegative(1.0 - f, w);
    assert (1.0 - f) * w == w - f * w;
  }

  lemma MulNonNegative(x: real, y: real)
    requires 0.0 <= x && 0.0 <= y
    ensures 0.0 <= x * y
  {
  }

  /** Five of ten points and one of three, each weighted one half, total 5/12. */
  lemma TotalExample(s: Person)
    ensures var a := NewAssignment("A", 10, 0.5);
            var b := NewAssignment("B", 3, 0.5);
            var grades := [NewGrade(s, a, 5.0), NewGrade(s, b, 1.0)];
            TotalDefined([a, b], grades, s) && WeightedSum([a, b], grades, s) == 5.0 / 12.0
  {
    var a := NewAssignment("A", 10, 0.5);
    var b := NewAssignment("B", 3, 0.5);
    var grades := [NewGrade(s, a, 5.0), NewGrade(s, b, 1.0)];
    assert GradeOf(grades, s, a) == Some(grades[0]);
    assert GradeOf(grades, s, b) == Some(grades[1]) by {
      assert grades[1..] == [grades[1]];
    }
    assert [a, b][..1] == [a];
    assert [a][..0] == [];
    assert Share(5.0, 10, 0.5) == 0.25;
    assert Share(1.0, 3, 0.5) == 1.0 / 6.0;
    assert WeightedSum([a], grades, s) == 0.25;
  }

  /** A student without grades totals zero. */
  lemma {:induction false} TotalWithoutGrades(assignments: seq<Assignment>, grades: seq<Grade>, s: Person)
    requires forall i :: 0 <= i < |grades| ==> grades[i].student != s
    ensures TotalDefined(assignments, grades, s)
    ensures WeightedSum(assignments, grades, s) == 0.0
  {
    if assignments != [] {
      TotalWithoutGrades(assignments[..|assignments| - 1], grades, s);
    }
  }

  // ---------------------------------------------------------------- active_assignments / active_groups

  /** The assignment of every grade, in grade order. */
  function GradedAssignments(grades: seq<Grade>): (r: seq<Assignment>)
    ensures |r| == |grades|
    ensures forall i :: 0 <= i < |grades| ==> r[i] == grades[i].assignment
  {
    seq(|grades|, i requires 0 <= i < |grades| => grades[i].assignment)
  }

  /** `active_assignments`: the assignments that have grades. */
  function ActiveAssignments(c: Course): seq<Assignment>
  {
    SortedSet(GradedAssignments(c.grades), AssignmentLt)
  }

  /** Each graded assignment appears once, in assignment order. */
  lemma ActiveAssignmentsSpec(c: Course)
    ensures SortedBy(ActiveAssignments(c), AssignmentLt) && NoDuplicates(ActiveAssignments(c))
    ensures forall a :: a in ActiveAssignments(c) <==> exists g :: g in c.grades && g.assignment == a
  {
    var graded := GradedAssignments(c.grades);
    AssignmentStrictOrder();
    SortedSetSpec(graded, AssignmentLt);
    forall a
      ensures a in graded <==> exists g :: g in c.grades && g.assignment == a
    {
      if a in graded {
        var i :| 0 <= i < |graded| && graded[i] == a;
        assert c.grades[i] in c.grades;
      }
    }
  }

  /** The student of every grade, in grade order. */
  function GradedPeople(grades: seq<Grade>): (r: seq<Person>)
    ensures |r| == |grades|
    ensures forall i :: 0 <= i < |grades| ==> r[i] == grades[i].student
  {
    seq(|grades|, i requires 0 <= i < |grades| => grades[i].student)
  }

  /** `sorted(set(grade.student for grade in course.grades))`. */
  function GradedStudents(c: Course): seq<Person>
  {
    SortedSet(GradedPeople(c.grades), PersonLt)
  }

  /** Each graded student appears once, in name order. */
  lemma GradedStudentsSpec(c: Course)
    ensures SortedBy(GradedStudents(c), PersonLt) && NoDuplicates(GradedStudents(c))
    ensures forall p :: p in GradedStudents(c) <==> exists g :: g in c.grades && g.student == p
  {
    var graded := GradedPeople(c.grades);
    PersonStrictOrder();
    SortedSetSpec(graded, PersonLt);
    forall p
      ensures p in graded <==> exists g :: g in c.grades && g.student == p
    {
      if p in graded {
        var i :| 0 <= i < |graded| && graded[i] == p;
        assert c.grades[i] in c.grades;
      }
    }
  }

  /** `active_groups`: every group anybody belongs to, once each, sorted. */
  method ActiveGroups(c: Course) returns (r: seq<string>)
    ensures SortedBy(r, StrLt) && NoDuplicates(r)
    ensures forall g :: g in r <==> exists p :: p in c.people && g in p.groups
  {
    var groups: set<string> := {};
    var i := 0;
    while i < |c.people|
      invariant 0 <= i <= |c.people|
      invariant forall g :: g in groups <==> exists j :: 0 <= j < i && g in c.people[j].groups
    {
      groups := groups + set g | g in c.people[i].groups;
      i := i + 1;
    }
    // `sorted(groups)`: list the set, then sort the list
    var rest := groups;
    var listed: seq<string> := [];
    while rest != {}
      decreases |rest|
      invariant rest !! set g | g in listed
      invariant forall g :: g in groups <==> g in rest || g in listed
      invariant NoDuplicates(listed)
    {
      var g :| g in rest;
      listed := listed + [g];
      rest := rest - {g};
    }
    StrLtStrictOrder();
    SortSorted(listed, StrLt);
    r := Sort(listed, StrLt);
    MultisetNoDuplicates(listed, r);
    forall g
      ensures g in r <==> g in listed
    {
      assert g in r <==> g in multiset(r);
    }
    forall g
      ensures g in groups <==> exists p :: p in c.people && g in p.groups
    {
      if g in groups {
        var j :| 0 <= j < |c.people| && g in c.people[j].groups;
        assert c.people[j] in c.people;
      }
    }
  }
}
