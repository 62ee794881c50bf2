/** One student's grade on one assignment. */
module GradeModel {

  import opened Outcome
  import opened Text
  import Sorting
  import opened PersonModel
  import opened AssignmentModel

  datatype Grade = Grade(
    student: Person,
    assignment: Assignment,
    points: real,
    comment: Option<string>,
    late: bool,
    notified: bool)

  /** The constructor with its defaults: no comment, not late, not yet notified. */
  function NewGrade(student: Person, assignment: Assignment, points: real, comment: Option<string> := None,
                    late: bool := false, notified: bool := false): (g: Grade)
    ensures g.student == student && g.assignment == assignment && g.points == points
    ensures g.comment == comment && g.late == late && g.notified == notified
  {
    Grade(student, assignment, points, comment, late, notified)
  }

  /** `str(grade)`: student name and assignment name around a colon. */
  function GradeString(g: Grade): (r: string)
    ensures |r| == |g.student.name| + |g.assignment.name| + 9
    ensures r[..7] == "<Grade " && r[|r| - 1] == '>'
    ensures r[7..|r| - 1] == g.student.name + ":" + g.assignment.name
  {
    "<Grade " + g.student.name + ":" + g.assignment.name + ">"
  }

  /** `grade < other`: by student, then by assignment. */
  predicate GradeLt(a: Grade, b: Grade)
  {
    if PersonLt(a.student, b.student) then true
    else if PersonLt(b.student, a.student) then false
    else AssignmentLt(a.assignment, b.assignment)
  }

  lemma GradeLtStrict()
    ensures forall a: Grade :: !GradeLt(a, a)
    ensures forall a: Grade, b: Grade, c: Grade :: GradeLt(a, b) && GradeLt(b, c) ==> GradeLt(a, c)
  {
    PersonLtStrict();
    AssignmentLtStrict();
    forall a: Grade, b: Grade, c: Grade | GradeLt(a, b) && GradeLt(b, c)
      ensures GradeLt(a, c)
    {
      PersonUnorderedIffSameName(a.student, b.student);
      PersonUnorderedIffSameName(b.student, c.student);
      PersonUnorderedIffSameName(a.student, c.student);
    }
  }

  lemma GradeStrictOrder()
    ensures Sorting.StrictOrder(GradeLt)
  {
    GradeLtStrict();
  }
}
