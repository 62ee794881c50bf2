/** An assignment: its maximum points, its weight in the total and its due time. */
module AssignmentModel {

  import opened Text
  import Sorting

  /**
   * `due` is seconds since the epoch. `submittable` says whether students may
   * hand the assignment in by email.
   */
  datatype Assignment = Assignment(name: string, points: int, weight: real, due: real, submittable: bool)

  /** The constructor with its defaults: one point, no weight, due at the epoch. */
  function NewAssignment(name: string, points: int := 1, weight: real := 0.0, due: real := 0.0,
                         submittable: bool := false): (a: Assignment)
    ensures a.name == name && a.points == points && a.weight == weight && a.due == due
    ensures a.submittable == submittable
  {
    Assignment(name, points, weight, due, submittable)
  }

  lemma NewAssignmentDefaults(name: string)
    ensures NewAssignment(name) == Assignment(name, 1, 0.0, 0.0, false)
  {
  }

  /** `str(assignment)`. */
  function AssignmentString(a: Assignment): (r: string)
    ensures |r| == |a.name| + 13
    ensures r[..12] == "<Assignment " && r[|r| - 1] == '>'
    ensures r[12..|r| - 1] == a.name
  {
    "<Assignment " + a.name + ">"
  }

  /** `assignment < other`: earlier due time first, then by name. */
  predicate AssignmentLt(a: Assignment, b: Assignment)
  {
    if a.due < b.due then true
    else if b.due < a.due then false
    else StrLt(a.name, b.name)
  }

  lemma AssignmentLtStrict()
    ensures forall a: Assignment :: !AssignmentLt(a, a)
    ensures forall a: Assignment, b: Assignment, c: Assignment ::
              AssignmentLt(a, b) && AssignmentLt(b, c) ==> AssignmentLt(a, c)
  {
    forall a: Assignment
      ensures !AssignmentLt(a, a)
    {
      StrLtIrreflexive(a.name);
    }
    forall a: Assignment, b: Assignment, c: Assignment | AssignmentLt(a, b) && AssignmentLt(b, c)
      ensures AssignmentLt(a, c)
    {
      if a.due == b.due == c.due {
        StrLtTransitive(a.name, b.name, c.name);
      }
    }
  }

  /** Two assignments are unordered exactly when they share due time and name. */
  lemma AssignmentUnorderedIff(a: Assignment, b: Assignment)
    ensures !AssignmentLt(a, b) && !AssignmentLt(b, a) <==> a.due == b.due && a.name == b.name
  {
    if a.due == b.due {
      if a.name == b.name {
        StrLtIrreflexive(a.name);
      } else {
        StrLtTotal(a.name, b.name);
      }
    }
  }

  lemma AssignmentStrictOrder()
    ensures Sorting.StrictOrder(AssignmentLt)
  {
    AssignmentLtStrict();
  }
}
