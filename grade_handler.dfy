/**
 * The grade handler: staff set a student's grade on an assignment by
 * email.  The request must be authenticated, the sender must be staff, the
 * payload is the last `text/plain` part, its first line the points and the
 * rest the comment; the stored grade keeps everything but those two.
 */
module GradeHandler {

  import opened Outcome
  import opened Text
  import opened PersonModel
  import opened AssignmentModel
  import opened GradeModel
  import opened CourseModel
  import opened Mail
  import opened Handler
  import Storage

  /** What the handler ends with that is not an `InvalidMessage`. */
  datatype Failure =
    | NameError     // the name of the missing-grade error is not defined where it is raised
    | ValueError    // the first payload line is not a number

  /** How `run` ends: it always raises, an `InvalidMessage`, a `Response`, or something else. */
  datatype Reaction =
    | Rejected(error: Invalid)
    | Responded(reply: Reply, complete: bool)
    | Crashed(failure: Failure)

  // ---------------------------------------------------------------- the guards

  /** A trusted mail system vouches for every message; otherwise only a verified message counts. */
  predicate Authenticated(message: Message, trust: bool)
  {
    trust || message.authenticated
  }

  /** The refusals before anything is read: unsigned first, then not staff. */
  function Guard(message: Message, person: Person, trust: bool): (r: Option<Invalid>)
    ensures r.None? <==> Authenticated(message, trust) && IsAdmin(person)
  {
    if !Authenticated(message, trust) then Some(Raise(UnsignedMessage, "unsigned message"))
    else if !IsAdmin(person) then
      Some(Raise(PermissionViolationMessage, "action not permitted").(person := Some(person)))
    else None
  }

  /** Without authentication the message is refused as unsigned, whoever sent it. */
  lemma GuardUnsigned(message: Message, person: Person, trust: bool)
    requires !Authenticated(message, trust)
    ensures Guard(message, person, trust) == Some(Raise(UnsignedMessage, "unsigned message"))
  {
  }

  /** An authenticated student is refused with "action not permitted", the error naming them. */
  lemma GuardDenied(message: Message, person: Person, trust: bool)
    requires Authenticated(message, trust) && !IsAdmin(person)
    ensures var e := Guard(message, person, trust);
            e.Some? && e.value.kind.PermissionViolationMessage? && e.value.error == "action not permitted" &&
            e.value.person == Some(person)
  {
  }

  // ---------------------------------------------------------------- the payload

  predicate IsPlain(part: Part)
  {
    part.contentType == "text/plain"
  }

  /** The text left by a walk that overwrites it at every `text/plain` part: the last one's. */
  function LastPlain(parts: seq<Part>): (r: Option<string>)
    ensures r.None? <==> forall i :: 0 <= i < |parts| ==> !IsPlain(parts[i])
  {
    if parts == [] then None
    else if IsPlain(parts[|parts| - 1]) then Some(parts[|parts| - 1].payload)
    else LastPlain(parts[..|parts| - 1])
  }

  /** The text found is the payload of a `text/plain` part after which no other comes. */
  lemma {:induction false} LastPlainIsLast(parts: seq<Part>) returns (i: nat)
    requires LastPlain(parts).Some?
    ensures i < |parts| && IsPlain(parts[i]) && parts[i].payload == LastPlain(parts).value
    ensures forall j :: i < j < |parts| ==> !IsPlain(parts[j])
  {
    var n := |parts|;
    if IsPlain(parts[n - 1]) {
      i := n - 1;
    } else {
      var init := parts[..n - 1];
      i := LastPlainIsLast(init);
      assert parts[i] == init[i];
      forall j | i < j < n ensures !IsPlain(parts[j]) {
        if j < n - 1 {
          assert parts[j] == init[j];
        }
      }
    }
  }

  /** The loop over the parts of the message, keeping the latest `text/plain` payload. */
  method LastPlainText(parts: seq<Part>) returns (text: Option<string>)
    ensures text == LastPlain(parts)
  {
    text := None;
    for i := 0 to |parts|
      invariant text == LastPlain(parts[..i])
    {
      assert parts[..i + 1][..i] == parts[..i];
      if IsPlain(parts[i]) {
        text := Some(parts[i].payload);
      }
    }
    assert parts[..|parts|] == parts;
  }

  /**
   * The stored grade with the new points and comment: all else (late,
   * notified, student, assignment) is kept; with no stored grade, a new
   * grade of 0 points.
   */
  function Merged(stored: Option<Grade>, parsed: Grade, student: Person, assignment: Assignment): (g: Grade)
    ensures g.points == parsed.points && g.comment == parsed.comment
    ensures stored.Some? ==> g == stored.value.(points := parsed.points, comment := parsed.comment)
    ensures stored.None? ==> g == NewGrade(student, assignment, parsed.points, parsed.comment)
  {
    var base := if stored.Some? then stored.value else NewGrade(student, assignment, 0.0);
    base.(points := parsed.points, comment := parsed.comment)
  }

  /** The error for a message without a `text/plain` part. */
  function MissingGrade(message: Message): (e: Invalid)
    ensures e.kind.MissingGradeMessage? && e.error == "missing grade" && e.message == Some(message)
  {
    Raise(MissingGradeMessage, "missing grade", message := Some(message))
  }

  /**
   * `_get_grade` as written: with no `text/plain` part it raises a name the
   * module never defines, so the failure escapes as a `NameError`.
   */
  function GradedAsWritten(message: Message, assignment: Assignment, student: Person, stored: Option<Grade>): Result<Grade, Reaction>
  {
    match LastPlain(message.parts)
    case None => Err(Crashed(NameError))
    case Some(text) =>
      match Storage.LoadGrade(text, assignment, student)
      case Err(_) => Err(Crashed(ValueError))
      case Ok(parsed) => Ok(Merged(stored, parsed, student, assignment))
  }

  /** `_get_grade` with the missing grade reported as the `MissingGradeMessage` the module defines. */
  function Graded(message: Message, assignment: Assignment, student: Person, stored: Option<Grade>): (r: Result<Grade, Reaction>)
    ensures r.Ok? ==> LastPlain(message.parts).Some? &&
                      Storage.LoadGrade(LastPlain(message.parts).value, assignment, student).Ok? &&
                      var parsed := Storage.LoadGrade(LastPlain(message.parts).value, assignment, student).value;
                      r.value == Merged(stored, parsed, student, assignment)
  {
    match LastPlain(message.parts)
    case None => Err(Rejected(MissingGrade(message)))
    case Some(text) =>
      match Storage.LoadGrade(text, assignment, student)
      case Err(_) => Err(Crashed(ValueError))
      case Ok(parsed) => Ok(Merged(stored, parsed, student, assignment))
  }

  /** As written, a message with no `text/plain` part ends in a `NameError`, which no handler loop catches. */
  lemma GradedAsWrittenCrashes(message: Message, assignment: Assignment, student: Person, stored: Option<Grade>)
    requires forall i :: 0 <= i < |message.parts| ==> !IsPlain(message.parts[i])
    ensures GradedAsWritten(message, assignment, student, stored) == Err(Crashed(NameError))
  {
  }

  /** A grade email with only an attachment, say: the case in which the two differ. */
  lemma GradedAsWrittenExample(assignment: Assignment, student: Person)
    ensures var m := Message([], [Part("application/pdf", Some("grade.pdf"), "9")], true);
            GradedAsWritten(m, assignment, student, None).Err? &&
            GradedAsWritten(m, assignment, student, None).error.Crashed? &&
            Graded(m, assignment, student, None) == Err(Rejected(MissingGrade(m)))
  {
    var m := Message([], [Part("application/pdf", Some("grade.pdf"), "9")], true);
    assert !IsPlain(m.parts[0]);
  }

  /** The corrected version reports the missing grade as an `InvalidMessage` and otherwise agrees. */
  lemma GradedCorrected(message: Message, assignment: Assignment, student: Person, stored: Option<Grade>)
    ensures LastPlain(message.parts).None? ==>
              Graded(message, assignment, student, stored) == Err(Rejected(MissingGrade(message)))
    ensures LastPlain(message.parts).Some? ==>
              Graded(message, assignment, student, stored) == GradedAsWritten(message, assignment, student, stored)
  {
  }

  /** The grade a message sets replaces only the points and the comment. */
  lemma GradedKeeps(message: Message, assignment: Assignment, student: Person, stored: Option<Grade>)
    requires Graded(message, assignment, student, stored).Ok?
    ensures var g := Graded(message, assignment, student, stored).value;
            if stored.Some? then
              g.student == stored.value.student && g.assignment == stored.value.assignment &&
              g.late == stored.value.late && g.notified == stored.value.notified
            else
              g.student == student && g.assignment == assignment && !g.late && !g.notified
  {
  }

  /** A body of bare points sets those points and no comment (`'10'` gives 10.0). */
  lemma PointsOnly(n: nat, body: string, assignment: Assignment, student: Person)
    requires body == NatToString(n)
    ensures var r := Storage.LoadGrade(body, assignment, student);
            r.Ok? && r.value.points == n as real && r.value.comment == None
  {
    Storage.NoPointInDigits(body);
    assert Storage.ReadLine(body) == (body, "");
    assert Trimmed(body) by {
      assert IsDigit(body[0]) && IsDigit(body[|body| - 1]);
    }
    assert body == Storage.IntString(n);
    Storage.ParseIntOfString(n);
    Storage.ParseFloatOfInt(body);
    Storage.LoadGradeOf(body, body, "", assignment, student);
  }

  /** Points on the first line, then the comment, which is stripped (`'9\n\nUnits!'` gives 9.0 and `Units!`). */
  lemma PointsAndComment(n: nat, rest: string, body: string, assignment: Assignment, student: Person)
    requires body == NatToString(n) + "\n" + rest
    ensures var r := Storage.LoadGrade(body, assignment, student);
            r.Ok? && r.value.points == n as real &&
            r.value.comment == if Strip(rest) == "" then None else Some(Strip(rest))
  {
    var whole := NatToString(n);
    Storage.NoPointInDigits(whole);
    Storage.ReadLineOf(whole, rest);
    Storage.WholeLine(n);
    Storage.LoadGradeOf(body, whole + "\n", rest, assignment, student);
  }

  /** A blank line before the comment is stripped away. */
  lemma LeadingNewline(t: string)
    requires t != [] && Trimmed(t)
    ensures Strip("\n" + t) == t
  {
    assert ("\n" + t)[1..] == t;
    assert LStrip("\n" + t) == LStrip(t);
    StripOfTrimmed(t);
  }

  /** The first body of the handler's own examples: 9 points and the comment `Units!`. */
  lemma NineUnits(body: string, assignment: Assignment, student: Person)
    requires body == "9\n\nUnits!"
    ensures var r := Storage.LoadGrade(body, assignment, student);
            r.Ok? && r.value.points == 9.0 && r.value.comment == Some("Units!")
  {
    var rest := "\nUnits!";
    assert NatToString(9) == "9";
    assert body == NatToString(9) + "\n" + rest;
    LeadingNewline("Units!");
    PointsAndComment(9, rest, body, assignment, student);
  }

  /** The second: 10 points and no comment. */
  lemma TenAlone(body: string, assignment: Assignment, student: Person)
    requires body == "10"
    ensures var r := Storage.LoadGrade(body, assignment, student);
            r.Ok? && r.value.points == 10.0 && r.value.comment == None
  {
    assert NatToString(10) == NatToString(1) + "0";
    PointsOnly(10, body, assignment, student);
  }

  // ---------------------------------------------------------------- run

  /** The student and the assignment the subject names, and the grade file, as `run` finds them. */
  function Decided(c: Course, message: Message, person: Person, subject: string, trust: bool,
                   basedir: string, grades: map<string, Grade>,
                   studentOf: string -> Result<Person, Invalid>,
                   assignmentOf: string -> Result<Assignment, Invalid>): (r: Result<Grade, Reaction>)
    ensures r.Ok? ==> Guard(message, person, trust).None? && studentOf(subject).Ok? && assignmentOf(subject).Ok?
  {
    match Guard(message, person, trust)
    case Some(e) => Err(Rejected(e))
    case None =>
      match studentOf(subject)
      case Err(e) => Err(Rejected(e))
      case Ok(student) =>
        match assignmentOf(subject)
        case Err(e) => Err(Rejected(e))
        case Ok(assignment) =>
          Graded(message, assignment, student, Stored(basedir, grades, student, assignment))
  }

  /**
   * `load_grade`: the grade in the file, read as the grade of `student` on
   * `assignment`, or none when the file cannot be read.
   */
  function Stored(basedir: string, grades: map<string, Grade>, student: Person, assignment: Assignment): (r: Option<Grade>)
    ensures r.Some? ==> r.value.student == student && r.value.assignment == assignment
  {
    var path := Storage.GradePath(basedir, NewGrade(student, assignment, 0.0));
    if path in grades then Some(grades[path].(student := student, assignment := assignment)) else None
  }

  /** The text of the confirmation: the comment, or `None` when there is none. */
  function CommentText(comment: Option<string>): string
  {
    "Set comment to:\n\n" + (if comment.Some? then comment.value else "None") + "\n"
  }

  /** The confirmation, from the robot to the staff member who set the grade. */
  function Confirmation(c: Course, person: Person, g: Grade, formatPoints: real -> string): (r: Reply)
    ensures r.author == c.robot && r.targets == [person] && r.original.None?
    ensures r.subject == Some("Set " + g.student.name + " grade on " + g.assignment.name + " to " + formatPoints(g.points))
  {
    Reply(c.robot, [person],
          Some("Set " + g.student.name + " grade on " + g.assignment.name + " to " + formatPoints(g.points)),
          CommentText(g.comment), None)
  }

  /** How `run` ends. */
  function Handled(c: Course, message: Message, person: Person, subject: string, trust: bool,
                   basedir: string, grades: map<string, Grade>,
                   studentOf: string -> Result<Person, Invalid>,
                   assignmentOf: string -> Result<Assignment, Invalid>,
                   formatPoints: real -> string): Reaction
  {
    match Decided(c, message, person, subject, trust, basedir, grades, studentOf, assignmentOf)
    case Err(r) => r
    case Ok(g) => Responded(Confirmation(c, person, g, formatPoints), true)
  }

  /** A run that gets past its checks always ends with a complete response, never by returning. */
  lemma HandledResponds(c: Course, message: Message, person: Person, subject: string, trust: bool,
                        basedir: string, grades: map<string, Grade>,
                        studentOf: string -> Result<Person, Invalid>,
                        assignmentOf: string -> Result<Assignment, Invalid>,
                        formatPoints: real -> string)
    ensures var r := Handled(c, message, person, subject, trust, basedir, grades, studentOf, assignmentOf, formatPoints);
            var d := Decided(c, message, person, subject, trust, basedir, grades, studentOf, assignmentOf);
            (r.Responded? <==> d.Ok?) && (r.Responded? ==> r.complete && r.reply.targets == [person])
    ensures !Authenticated(message, trust) ==>
              Handled(c, message, person, subject, trust, basedir, grades, studentOf, assignmentOf, formatPoints) ==
              Rejected(Raise(UnsignedMessage, "unsigned message"))
  {
  }

  /** The grade files: each grade under its path below the course directory. */
  class Gradebook {
    const basedir: string
    var grades: map<string, Grade>

    constructor (basedir: string, grades: map<string, Grade>)
      ensures this.basedir == basedir && this.grades == grades
    {
      this.basedir := basedir;
      this.grades := grades;
    }

    /** `save_grade`: the grade file is (over)written. */
    method Save(g: Grade)
      modifies this
      ensures grades == old(grades)[Storage.GradePath(basedir, g) := g]
    {
      grades := grades[Storage.GradePath(basedir, g) := g];
    }
  }

  /** Where the grade of `student` on `assignment` is kept. */
  lemma GradePathOfGrade(basedir: string, g: Grade)
    ensures Storage.GradePath(basedir, g) == Storage.GradePath(basedir, NewGrade(g.student, g.assignment, 0.0))
  {
  }

  /** `_get_grade`: the payload loop, then the merge with the stored grade. */
  method GetGrade(message: Message, assignment: Assignment, student: Person, book: Gradebook)
    returns (r: Result<Grade, Reaction>)
    ensures r == Graded(message, assignment, student, Stored(book.basedir, book.grades, student, assignment))
  {
    var text := LastPlainText(message.parts);
    if text.None? {
      return Err(Rejected(MissingGrade(message)));
    }
    var parsed := Storage.LoadGrade(text.value, assignment, student);
    if parsed.Err? {
      return Err(Crashed(ValueError));
    }
    r := Ok(Merged(Stored(book.basedir, book.grades, student, assignment), parsed.value, student, assignment));
  }

  /** `run`: the guards, the subject, the grade, the save unless dry, and the confirmation. */
  method Run(c: Course, message: Message, person: Person, subject: string, trust: bool, dryRun: bool,
             book: Gradebook, studentOf: string -> Result<Person, Invalid>,
             assignmentOf: string -> Result<Assignment, Invalid>, formatPoints: real -> string)
    returns (r: Reaction)
    modifies book
    ensures r == Handled(c, message, person, subject, trust, book.basedir, old(book.grades), studentOf, assignmentOf, formatPoints)
    ensures var d := Decided(c, message, person, subject, trust, book.basedir, old(book.grades), studentOf, assignmentOf);
            book.grades == if d.Ok? && !dryRun then old(book.grades)[Storage.GradePath(book.basedir, d.value) := d.value]
                           else old(book.grades)
  {
    var refused := Guard(message, person, trust);
    if refused.Some? {
      return Rejected(refused.value);
    }
    var student := studentOf(subject);
    if student.Err? {
      return Rejected(student.error);
    }
    var assignment := assignmentOf(subject);
    if assignment.Err? {
      return Rejected(assignment.error);
    }
    var grade := GetGrade(message, assignment.value, student.value, book);
    if grade.Err? {
      return grade.error;
    }
    if !dryRun {
      book.Save(grade.value);
    }
    r := Responded(Confirmation(c, person, grade.value, formatPoints), true);
  }

  /** Once the grade is saved, the same message decides the same grade again. */
  lemma GradedAgain(message: Message, assignment: Assignment, student: Person, basedir: string, grades: map<string, Grade>)
    requires Graded(message, assignment, student, Stored(basedir, grades, student, assignment)).Ok?
    ensures var g := Graded(message, assignment, student, Stored(basedir, grades, student, assignment)).value;
            Graded(message, assignment, student, Stored(basedir, grades[Storage.GradePath(basedir, g) := g], student, assignment)) == Ok(g)
  {
    var g := Graded(message, assignment, student, Stored(basedir, grades, student, assignment)).value;
    GradePathOfGrade(basedir, g);
    assert Stored(basedir, grades[Storage.GradePath(basedir, g) := g], student, assignment) == Some(g);
  }

  /** Writing a file again with what it holds leaves the files as they are. */
  lemma RewriteSame(files: map<string, Grade>, path: string, g: Grade)
    ensures files[path := g][path := g] == files[path := g]
  {
  }

  /**
   * Sending the same grade email again changes nothing more: the grade saved
   * the first time is the grade decided the second time.
   */
  lemma RegradeIdempotent(c: Course, message: Message, person: Person, subject: string, trust: bool,
                          basedir: string, grades: map<string, Grade>,
                          studentOf: string -> Result<Person, Invalid>,
                          assignmentOf: string -> Result<Assignment, Invalid>)
    requires Decided(c, message, person, subject, trust, basedir, grades, studentOf, assignmentOf).Ok?
    ensures var g := Decided(c, message, person, subject, trust, basedir, grades, studentOf, assignmentOf).value;
            var after := grades[Storage.GradePath(basedir, g) := g];
            Decided(c, message, person, subject, trust, basedir, after, studentOf, assignmentOf) == Ok(g) &&
            after[Storage.GradePath(basedir, g) := g] == after
  {
    var student := studentOf(subject).value;
    var assignment := assignmentOf(subject).value;
    var g := Decided(c, message, person, subject, trust, basedir, grades, studentOf, assignmentOf).value;
    var path := Storage.GradePath(basedir, g);
    var after := grades[path := g];
    assert Decided(c, message, person, subject, trust, basedir, grades, studentOf, assignmentOf) ==
           Graded(message, assignment, student, Stored(basedir, grades, student, assignment));
    GradedAgain(message, assignment, student, basedir, grades);
    assert Decided(c, message, person, subject, trust, basedir, after, studentOf, assignmentOf) ==
           Graded(message, assignment, student, Stored(basedir, after, student, assignment));
    RewriteSame(grades, path, g);
  }
}
