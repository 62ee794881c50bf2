/**
 * The `get` handler: a signed request for grade information. Students get
 * their own grade digest; staff get the whole table, one student's digest,
 * or one student's submissions, depending on which names the subject holds.
 */
module GetHandler {

  import opened Outcome
  import opened Text
  import opened PersonModel
  import opened AssignmentModel
  import opened GradeModel
  import opened CourseModel
  import opened Mail
  import opened Seqs
  import Handler
  import Storage
  import Template
  import SubmissionHandler
  import Tabulate
  import Color

  /** How a request fails, by the exception class `run` lets through. */
  datatype Failure =
    | ValueError(message: string)
      /** The `ValueError` whose text shows the subject and the matching people. */
    | MatchesMultiple(subject: string, students: seq<Person>)
      /** The `ValueError` of `course.grade` when the student has no grade on the assignment. */
    | NoGrade(student: Person, assignment: Assignment)
    | NameError
      /** `course.total` divides by zero while the table is written. */
    | ZeroDivisionError
    | NotImplementedError
      /** A call with a keyword argument the callee does not accept. */
    | TypeError

  /** A part of the submissions email: a text part, or a stored message forwarded whole. */
  datatype Attachment = Note(text: string) | Forward(message: Message)

  /** The email the request is answered with. */
  datatype Email =
      /** The grade table, whose text is the tabulated course. */
    | Table(author: Person, targets: seq<Person>, subject: string, text: string)
      /** A grade digest composed for one student; `asking` is the staff member who named the student. */
    | Digest(email: Template.Email, asking: Option<seq<Person>>)
    | Submissions(author: Person, targets: seq<Person>, subject: string, parts: seq<Attachment>)

  /** What the `respond` callback is handed: a framed response, or the answer itself. */
  datatype Sent = Framed(reply: Reply) | Mailed(email: Email)

  /** What a step hands to the callback, and the email it builds or how it fails. */
  datatype Answer = Answer(sent: seq<Sent>, result: Result<Email, Failure>)

  /** How `run` ends: what was handed to the callback, and the exception if one escaped. */
  datatype Ending = Ending(sent: seq<Sent>, failure: Option<Failure>)

  /** The `respond` callback: it records every call. */
  class Callback {
    var calls: seq<Sent>

    constructor ()
      ensures calls == []
    {
      calls := [];
    }

    method Send(s: Sent)
      modifies this
      ensures calls == old(calls) + [s]
    {
      calls := calls + [s];
    }
  }

  /** `_respond`: the salutation-framed text from the robot to the person, carrying the original. */
  function Frame(c: Course, person: Person, original: Message, subject: string, text: string): (r: Reply)
    ensures r.author == c.robot && r.targets == [person] && r.subject == Some(subject) && r.original == Some(original)
  {
    Reply(c.robot, [person], Some(subject), Handler.ResponseText(Alias(person), text, Alias(c.robot)), Some(original))
  }

  /** The framing comes off again: the reply's text gives back what was said. */
  lemma FrameText(c: Course, person: Person, original: Message, subject: string, text: string)
    ensures Handler.Unframe(Frame(c, person, original, subject, text).text, Alias(person), Alias(c.robot)) == Some(text)
  {
    Handler.UnframeResponse(Alias(person), text, Alias(c.robot));
  }

  // ---------------------------------------------------------------- authentication

  /** Trusting the mail infrastructure counts as authentication. */
  predicate Authenticated(message: Message, trust: bool)
  {
    trust || message.authenticated
  }

  const SignedSubject: string := "must request information in a signed email"

  /** Python's truth value of the key: `None` and `''` are false. */
  predicate HasKey(p: Person)
  {
    p.pgpKey.Some? && p.pgpKey.value != ""
  }

  const KeyHintLead: string := "Please resubmit your request in an OpenPGP-signed email\nusing your PGP key "
  const NoKeyHint: string := "We don't even have a PGP key on file for you.  Please talk\nto your professor or TA about getting one set up."

  /** The hint for an unsigned request: use the key on file, or get one set up. */
  function KeyHint(p: Person): string
  {
    if HasKey(p) then KeyHintLead + p.pgpKey.value + "." else NoKeyHint
  }

  const Lead: string := "We got an email from you with the following subject:\n  "
  const UnsignedTail: string := "\nbut we cannot provide the information unless we know it\nreally was you who asked for it.\n\n"

  function UnsignedText(subject: string, hint: string): string
  {
    Lead + Repr(subject) + UnsignedTail + hint
  }

  /** The refusal of an unsigned request, with the key hint built from `person`. */
  function Refusal(c: Course, original: Message, person: Person, subject: string, respond: bool): (a: Answer)
  {
    Answer(if respond then [Framed(Frame(c, person, original, SignedSubject, UnsignedText(subject, KeyHint(person))))]
           else [],
           Err(ValueError(SignedSubject)))
  }

  /** The refusal as written: the key hint names the undefined `persion`, so it fails before responding. */
  function RefusalAsWritten(c: Course, original: Message, person: Person, subject: string, respond: bool): Answer
  {
    if respond && HasKey(person) then Answer([], Err(NameError))
    else Refusal(c, original, person, subject, respond)
  }

  /**
   * An unsigned request always fails with the "signed email" error; with a
   * callback the person is told so once, by the robot, with a hint naming
   * the key on file when there is one.
   */
  lemma RefusalSays(c: Course, original: Message, person: Person, subject: string, respond: bool)
    ensures var a := Refusal(c, original, person, subject, respond);
            a.result == Err(ValueError(SignedSubject)) &&
            (respond <==> a.sent != []) &&
            (respond ==> |a.sent| == 1 && a.sent[0].Framed? && a.sent[0].reply.targets == [person] &&
                         a.sent[0].reply.subject == Some(SignedSubject) &&
                         Handler.Unframe(a.sent[0].reply.text, Alias(person), Alias(c.robot)) ==
                           Some(UnsignedText(subject, KeyHint(person))))
    ensures HasKey(person) ==> IsSubstring(person.pgpKey.value, KeyHint(person))
  {
    FrameText(c, person, original, SignedSubject, UnsignedText(subject, KeyHint(person)));
    if HasKey(person) {
      SubstringOfConcat(KeyHintLead, person.pgpKey.value, ".");
    }
  }

  /** As written, a person with a key who asks unsigned gets no answer and a `NameError`. */
  lemma RefusalAsWrittenCrashes(c: Course, original: Message, person: Person, subject: string)
    requires HasKey(person)
    ensures RefusalAsWritten(c, original, person, subject, true) == Answer([], Err(NameError))
    ensures Refusal(c, original, person, subject, true).sent != []
  {
  }

  /** Otherwise the code as written and the corrected refusal agree. */
  lemma RefusalCorrected(c: Course, original: Message, person: Person, subject: string, respond: bool)
    requires !respond || !HasKey(person)
    ensures RefusalAsWritten(c, original, person, subject, respond) == Refusal(c, original, person, subject, respond)
  {
  }

  // ---------------------------------------------------------------- _get_student_email

  const NoGradesLead: string := "We don't have any grades for "
  const NoGradesTail: string := " on file for this course."
  const NoOwnGrades: string := "We don't have any of your grades on file for this course."

  function NoGradesText(student: Person, named: bool): string
  {
    if named then NoGradesLead + student.name + NoGradesTail else NoOwnGrades
  }

  /**
   * `_get_student_email`: the digest composed for the student (the person
   * asking when no student is named). `compose` stands for the template's
   * `_student_email` with `old` set, given the student and the targets.
   */
  function StudentAnswer(c: Course, original: Message, person: Person, student: Option<Person>, respond: bool,
                         compose: (Person, Option<seq<Person>>) -> seq<Template.Email>): Answer
  {
    var s := student.GetOr(person);
    var targets := if student.Some? then Some([person]) else None;
    var emails := compose(s, targets);
    if |emails| == 0 then
      Answer(if respond then [Framed(Frame(c, person, original, "no grades for " + Alias(s), NoGradesText(s, student.Some?)))]
             else [],
             Err(ValueError("no grades for " + PersonString(s))))
    else if |emails| > 1 then Answer([], Err(NotImplementedError))
    else Answer([], Ok(Digest(emails[0], targets)))
  }

  /**
   * A student with nothing composed gets the "no grades" error naming them,
   * and, with a callback, one response addressed by alias; one composed
   * email is the answer, sent on to the staff member who named the student.
   */
  lemma StudentAnswerCases(c: Course, original: Message, person: Person, student: Option<Person>, respond: bool,
                           compose: (Person, Option<seq<Person>>) -> seq<Template.Email>)
    ensures var s := student.GetOr(person);
            var targets := if student.Some? then Some([person]) else None;
            var a := StudentAnswer(c, original, person, student, respond, compose);
            (compose(s, targets) == [] ==>
               a.result == Err(ValueError("no grades for <Person " + s.name + ">")) &&
               (respond <==> a.sent != []) &&
               (respond ==> |a.sent| == 1 && a.sent[0].Framed? && a.sent[0].reply.targets == [person] &&
                            a.sent[0].reply.subject == Some("no grades for " + Alias(s)) &&
                            Handler.Unframe(a.sent[0].reply.text, Alias(person), Alias(c.robot)) ==
                              Some(NoGradesText(s, student.Some?)))) &&
            (|compose(s, targets)| == 1 ==>
               a == Answer([], Ok(Digest(compose(s, targets)[0], targets)))) &&
            (|compose(s, targets)| > 1 ==> a == Answer([], Err(NotImplementedError))) &&
            (student.Some? ==> a.result.Ok? ==> a.result.value.asking == Some([person]))
  {
    var s := student.GetOr(person);
    FrameText(c, person, original, "no grades for " + Alias(s), NoGradesText(s, student.Some?));
    assert "no grades for " + PersonString(s) == "no grades for <Person " + s.name + ">";
  }

  /**
   * With the template's digests as the composition, one named student gets
   * at most one email, so the `NotImplementedError` branch cannot be taken.
   */
  lemma TemplateComposesOnce(c: Course, author: Person, s: Person)
    ensures |Template.StudentEmails(c, author, Some(s), true)| <= 1
  {
    assert [s][1..] == [];
    assert Template.Digests(c.grades, author, [], true) == [];
  }

  // `PersonString` of the doctest's student, checked apart from the larger
  // proofs that use it so that the literal concatenation stays cheap.
  lemma BilboString(bilbo: Person)
    requires bilbo.name == "Bilbo Baggins"
    ensures PersonString(bilbo) == "<Person Bilbo Baggins>"
  {
    assert "<Person " + "Bilbo Baggins" + ">" == "<Person Bilbo Baggins>";
  }

  /** The doctest's student without grades is answered by alias. */
  lemma StudentWithoutGrades(c: Course, original: Message, bilbo: Person,
                             compose: (Person, Option<seq<Person>>) -> seq<Template.Email>)
    requires bilbo == NewPerson("Bilbo Baggins", aliases := ["Billy"])
    requires compose(bilbo, None) == []
    ensures var a := StudentAnswer(c, original, bilbo, None, true, compose);
            a.sent[0].reply.subject == Some("no grades for Billy") &&
            Handler.Unframe(a.sent[0].reply.text, "Billy", Alias(c.robot)) ==
              Some("We don't have any of your grades on file for this course.")
  {
    assert Alias(bilbo) == "Billy";
    assert "no grades for " + "Billy" == "no grades for Billy";
    FrameText(c, bilbo, original, "no grades for Billy", NoGradesText(bilbo, false));
  }

  /** The same request fails naming the student. */
  lemma StudentWithoutGradesFails(c: Course, original: Message, bilbo: Person,
                                  compose: (Person, Option<seq<Person>>) -> seq<Template.Email>)
    requires bilbo == NewPerson("Bilbo Baggins", aliases := ["Billy"])
    requires compose(bilbo, None) == []
    ensures StudentAnswer(c, original, bilbo, None, true, compose).result ==
              Err(ValueError("no grades for <Person Bilbo Baggins>"))
  {
    BilboString(bilbo);
    assert "no grades for " + "<Person Bilbo Baggins>" == "no grades for <Person Bilbo Baggins>";
  }

  method StudentEmail(c: Course, original: Message, person: Person, student: Option<Person>, respond: bool,
                      compose: (Person, Option<seq<Person>>) -> seq<Template.Email>, callback: Callback)
    returns (r: Result<Email, Failure>)
    modifies callback
    ensures var a := StudentAnswer(c, original, person, student, respond, compose);
            callback.calls == old(callback.calls) + a.sent && r == a.result
  {
    var s := student.GetOr(person);
    var targets := if student.Some? then Some([person]) else None;
    var emails := compose(s, targets);
    if |emails| == 0 {
      if respond {
        callback.Send(Framed(Frame(c, person, original, "no grades for " + Alias(s), NoGradesText(s, student.Some?))));
      }
      return Err(ValueError("no grades for " + PersonString(s)));
    } else if |emails| > 1 {
      return Err(NotImplementedError);
    }
    r := Ok(Digest(emails[0], targets));
  }

  /**
   * `_get_student_email` as written: it calls the template's `_student_email`
   * with `targets=`, a keyword that function does not accept, so the call
   * raises `TypeError` before anything is composed or sent, whatever the
   * course, the person, the student or the callback.
   */
  function StudentAnswerAsWritten(c: Course, original: Message, person: Person, student: Option<Person>, respond: bool,
                                  compose: (Person, Option<seq<Person>>) -> seq<Template.Email>): Answer
  {
    Answer([], Err(TypeError))
  }

  /**
   * On every input the code as written and the corrected `StudentAnswer`
   * differ: the corrected answer never fails with `TypeError`, and as written
   * no "no grades" response is ever sent.
   */
  lemma StudentAnswerAsWrittenDiffers(c: Course, original: Message, person: Person, student: Option<Person>, respond: bool,
                                      compose: (Person, Option<seq<Person>>) -> seq<Template.Email>)
    ensures var w := StudentAnswerAsWritten(c, original, person, student, respond, compose);
            var a := StudentAnswer(c, original, person, student, respond, compose);
            w.result != a.result && w.sent == [] &&
            (respond && compose(student.GetOr(person), if student.Some? then Some([person]) else None) == [] ==>
               a.sent != [])
  {
    StudentAnswerCases(c, original, person, student, respond, compose);
  }

  /**
   * The doctest's student without grades: as written the request fails with
   * `TypeError` and nothing is sent; corrected, one "no grades" response goes
   * out and the error names the student.
   */
  lemma StudentWithoutGradesAsWritten(c: Course, original: Message, bilbo: Person,
                                      compose: (Person, Option<seq<Person>>) -> seq<Template.Email>)
    requires bilbo == NewPerson("Bilbo Baggins", aliases := ["Billy"])
    requires compose(bilbo, None) == []
    ensures StudentAnswerAsWritten(c, original, bilbo, None, true, compose) == Answer([], Err(TypeError))
    ensures |StudentAnswer(c, original, bilbo, None, true, compose).sent| == 1
    ensures StudentAnswer(c, original, bilbo, None, true, compose).result ==
              Err(ValueError("no grades for <Person Bilbo Baggins>"))
  {
    StudentAnswerCases(c, original, bilbo, None, true, compose);
    StudentWithoutGradesFails(c, original, bilbo, compose);
  }

  // ---------------------------------------------------------------- _get_student_submission_email

  const SubmissionsFor: string := " assignment submissions for "
  const Bullet: string := "\n  * "

  function SubmissionSubject(c: Course, student: Person): string
  {
    c.name + SubmissionsFor + student.name
  }

  function AssignmentNames(assignments: seq<Assignment>): (r: seq<string>)
    ensures |r| == |assignments| && forall i :: 0 <= i < |r| ==> r[i] == assignments[i].name
  {
    seq(|assignments|, i requires 0 <= i < |assignments| => assignments[i].name)
  }

  /** The first part: the subject, then one bullet per requested assignment. */
  function SubmissionSummary(subject: string, assignments: seq<Assignment>): string
  {
    subject + ":" + Bullet + Join(AssignmentNames(assignments), Bullet) + "\n"
  }

  /** The summary names every requested assignment. */
  lemma SummaryNamesEach(subject: string, assignments: seq<Assignment>, i: nat)
    requires i < |assignments|
    ensures IsSubstring(assignments[i].name, SubmissionSummary(subject, assignments))
  {
    var names := AssignmentNames(assignments);
    JoinContains(names, Bullet, i);
    SubstringWithin(names[i], subject + ":" + Bullet, Join(names, Bullet), "\n");
  }

  /** `'{} grade: {}\n\n{}\n'`: a missing comment prints as `None`. */
  function GradeNote(a: Assignment, g: Grade, formatPoints: real -> string): string
  {
    a.name + " grade: " + formatPoints(g.points) + "\n\n" + (if g.comment.Some? then g.comment.value else "None") + "\n"
  }

  /** The maildir a submission is saved to. */
  function MailPath(basedir: string, a: Assignment, student: Person): string
  {
    Storage.PathJoin(Storage.AssignmentPath(basedir, a, student), "mail")
  }

  /** Every stored message, forwarded whole, in maildir order. */
  function Forwarded(items: seq<Stored>): (r: seq<Attachment>)
    ensures |r| == |items| && forall i :: 0 <= i < |r| ==> r[i] == Forward(items[i].message)
  {
    seq(|items|, i requires 0 <= i < |items| => Forward(items[i].message))
  }

  /** A missing maildir forwards nothing. */
  function Forwards(boxes: map<string, seq<Stored>>, mpath: string): seq<Attachment>
  {
    if mpath in boxes then Forwarded(boxes[mpath]) else []
  }

  /** The grade note of a graded assignment; nothing for one without a grade. */
  function NoteOf(grades: seq<Grade>, student: Person, a: Assignment, formatPoints: real -> string): seq<Attachment>
  {
    match GradeOf(grades, student, a)
    case None => []
    case Some(g) => [Note(GradeNote(a, g, formatPoints))]
  }

  /** One assignment's parts: its grade note when it is graded, then its submissions. */
  function AssignmentParts(grades: seq<Grade>, basedir: string, boxes: map<string, seq<Stored>>, student: Person,
                           a: Assignment, formatPoints: real -> string): seq<Attachment>
  {
    NoteOf(grades, student, a, formatPoints) + Forwards(boxes, MailPath(basedir, a, student))
  }

  /** A graded assignment's parts open with its grade note. */
  lemma AssignmentPartsGraded(grades: seq<Grade>, basedir: string, boxes: map<string, seq<Stored>>, student: Person,
                              a: Assignment, formatPoints: real -> string)
    requires GradeOf(grades, student, a).Some?
    ensures var parts := AssignmentParts(grades, basedir, boxes, student, a, formatPoints);
            parts != [] && parts[0] == Note(GradeNote(a, GradeOf(grades, student, a).value, formatPoints))
  {
  }

  /** The parts of one requested assignment, as a function of the assignment. */
  function PartsFor(grades: seq<Grade>, basedir: string, boxes: map<string, seq<Stored>>, student: Person,
                    formatPoints: real -> string): Assignment -> seq<Attachment>
  {
    a => AssignmentParts(grades, basedir, boxes, student, a, formatPoints)
  }

  /** The parts after the summary, assignment by assignment, skipping a missing grade. */
  function SubmissionParts(grades: seq<Grade>, basedir: string, boxes: map<string, seq<Stored>>, student: Person,
                           assignments: seq<Assignment>, formatPoints: real -> string): seq<Attachment>
  {
    Flatten(MapSeq(assignments, PartsFor(grades, basedir, boxes, student, formatPoints)))
  }

  /** Asking for one assignment more appends that assignment's parts. */
  lemma SubmissionPartsSnoc(grades: seq<Grade>, basedir: string, boxes: map<string, seq<Stored>>, student: Person,
                            assignments: seq<Assignment>, a: Assignment, formatPoints: real -> string)
    ensures SubmissionParts(grades, basedir, boxes, student, assignments + [a], formatPoints) ==
            SubmissionParts(grades, basedir, boxes, student, assignments, formatPoints) +
            AssignmentParts(grades, basedir, boxes, student, a, formatPoints)
  {
    var f := PartsFor(grades, basedir, boxes, student, formatPoints);
    MapSeqSnoc(assignments, a, f);
    FlattenSnoc(MapSeq(assignments, f), f(a));
  }

  /**
   * The parts as written: `course.grade` raises on a missing grade instead of
   * returning `None`, so the first ungraded assignment fails the request.
   */
  function SubmissionPartsAsWritten(grades: seq<Grade>, basedir: string, boxes: map<string, seq<Stored>>,
                                    student: Person, assignments: seq<Assignment>, formatPoints: real -> string)
    : Result<seq<Attachment>, Failure>
  {
    if assignments == [] then Ok([])
    else
      var a := assignments[|assignments| - 1];
      match SubmissionPartsAsWritten(grades, basedir, boxes, student, assignments[..|assignments| - 1], formatPoints)
      case Err(f) => Err(f)
      case Ok(parts) =>
        match GradeOf(grades, student, a)
        case None => Err(NoGrade(student, a))
        case Some(g) => Ok(parts + AssignmentParts(grades, basedir, boxes, student, a, formatPoints))
  }

  /** As written, a failure names a requested assignment the student has no grade on. */
  lemma {:induction false} SubmissionPartsAsWrittenFails(grades: seq<Grade>, basedir: string,
                                                         boxes: map<string, seq<Stored>>, student: Person,
                                                         assignments: seq<Assignment>, formatPoints: real -> string)
    returns (i: nat)
    requires SubmissionPartsAsWritten(grades, basedir, boxes, student, assignments, formatPoints).Err?
    ensures i < |assignments| && GradeOf(grades, student, assignments[i]).None?
    ensures SubmissionPartsAsWritten(grades, basedir, boxes, student, assignments, formatPoints).error ==
            NoGrade(student, assignments[i])
  {
    var n := |assignments| - 1;
    var prefix := assignments[..n];
    if SubmissionPartsAsWritten(grades, basedir, boxes, student, prefix, formatPoints).Err? {
      i := SubmissionPartsAsWrittenFails(grades, basedir, boxes, student, prefix, formatPoints);
      assert prefix[i] == assignments[i];
    } else {
      i := n;
    }
  }

  /** One step of the as-written loop: a failure so far, or an ungraded last assignment, fails the request. */
  lemma SubmissionPartsAsWrittenStep(grades: seq<Grade>, basedir: string, boxes: map<string, seq<Stored>>,
                                     student: Person, assignments: seq<Assignment>, formatPoints: real -> string)
    requires assignments != []
    requires SubmissionPartsAsWritten(grades, basedir, boxes, student, assignments[..|assignments| - 1], formatPoints).Err?
             || GradeOf(grades, student, assignments[|assignments| - 1]).None?
    ensures SubmissionPartsAsWritten(grades, basedir, boxes, student, assignments, formatPoints).Err?
  {
  }

  /** As written, any ungraded requested assignment fails the request. */
  lemma {:induction false} SubmissionPartsAsWrittenUngraded(grades: seq<Grade>, basedir: string,
                                                            boxes: map<string, seq<Stored>>, student: Person,
                                                            assignments: seq<Assignment>,
                                                            formatPoints: real -> string, i: nat)
    requires i < |assignments| && GradeOf(grades, student, assignments[i]).None?
    ensures SubmissionPartsAsWritten(grades, basedir, boxes, student, assignments, formatPoints).Err?
  {
    var n := |assignments| - 1;
    var prefix := assignments[..n];
    if i < n {
      assert prefix[i] == assignments[i];
      SubmissionPartsAsWrittenUngraded(grades, basedir, boxes, student, prefix, formatPoints, i);
    } else {
      assert i == n;
    }
    SubmissionPartsAsWrittenStep(grades, basedir, boxes, student, assignments, formatPoints);
  }

  /** When the parts as written are built, they are the corrected parts. */
  lemma {:induction false} SubmissionPartsAsWrittenAgrees(grades: seq<Grade>, basedir: string,
                                                          boxes: map<string, seq<Stored>>, student: Person,
                                                          assignments: seq<Assignment>, formatPoints: real -> string)
    ensures var w := SubmissionPartsAsWritten(grades, basedir, boxes, student, assignments, formatPoints);
            w.Ok? ==> w.value == SubmissionParts(grades, basedir, boxes, student, assignments, formatPoints)
  {
    if assignments != [] {
      var n := |assignments| - 1;
      var prefix := assignments[..n];
      SubmissionPartsAsWrittenAgrees(grades, basedir, boxes, student, prefix, formatPoints);
      TakeSnoc(assignments, n);
      assert assignments[..n + 1] == assignments;
      SubmissionPartsSnoc(grades, basedir, boxes, student, prefix, assignments[n], formatPoints);
    }
  }

  /** A submission not yet graded: as written the request fails; corrected, the submission is forwarded. */
  lemma UngradedSubmission(basedir: string, student: Person, a: Assignment, m: Message, formatPoints: real -> string)
    ensures var boxes := map[MailPath(basedir, a, student) := [Stored(0, m, "S")]];
            SubmissionPartsAsWritten([], basedir, boxes, student, [a], formatPoints) == Err(NoGrade(student, a)) &&
            SubmissionParts([], basedir, boxes, student, [a], formatPoints) == [Forward(m)]
  {
    var boxes := map[MailPath(basedir, a, student) := [Stored(0, m, "S")]];
    assert [a][..0] == [];
    assert SubmissionPartsAsWritten([], basedir, boxes, student, [], formatPoints) == Ok([]);
    assert GradeOf([], student, a).None?;
    assert Forwards(boxes, MailPath(basedir, a, student)) == [Forward(m)];
    assert AssignmentParts([], basedir, boxes, student, a, formatPoints) == [Forward(m)];
    assert SubmissionParts([], basedir, boxes, student, [], formatPoints) == [];
    SubmissionPartsSnoc([], basedir, boxes, student, [], a, formatPoints);
    assert [] + [a] == [a];
  }

  /** Every graded requested assignment has its grade note among the parts. */
  lemma SubmissionPartsGraded(grades: seq<Grade>, basedir: string, boxes: map<string, seq<Stored>>,
                              student: Person, assignments: seq<Assignment>, formatPoints: real -> string, i: nat)
    requires i < |assignments| && GradeOf(grades, student, assignments[i]).Some?
    ensures var g := GradeOf(grades, student, assignments[i]).value;
            Note(GradeNote(assignments[i], g, formatPoints)) in
              SubmissionParts(grades, basedir, boxes, student, assignments, formatPoints)
  {
    var f := PartsFor(grades, basedir, boxes, student, formatPoints);
    MapSeqAt(assignments, f, i);
    AssignmentPartsGraded(grades, basedir, boxes, student, assignments[i], formatPoints);
    FlattenHas(MapSeq(assignments, f), i, 0);
  }

  /** Every part belongs to one of the requested assignments. */
  lemma SubmissionPartOrigin(grades: seq<Grade>, basedir: string, boxes: map<string, seq<Stored>>,
                             student: Person, assignments: seq<Assignment>, formatPoints: real -> string,
                             x: Attachment)
    returns (i: nat)
    requires x in SubmissionParts(grades, basedir, boxes, student, assignments, formatPoints)
    ensures i < |assignments| && x in AssignmentParts(grades, basedir, boxes, student, assignments[i], formatPoints)
  {
    var f := PartsFor(grades, basedir, boxes, student, formatPoints);
    i := FlattenOrigin(MapSeq(assignments, f), x);
    MapSeqAt(assignments, f, i);
  }

  /** The submissions email: from the robot to the staff member, the summary first. */
  function SubmissionEmailOf(c: Course, basedir: string, boxes: map<string, seq<Stored>>, person: Person,
                             student: Person, assignments: seq<Assignment>, formatPoints: real -> string): Email
  {
    var subject := SubmissionSubject(c, student);
    Submissions(c.robot, [person], subject,
                [Note(SubmissionSummary(subject, assignments))] +
                SubmissionParts(c.grades, basedir, boxes, student, assignments, formatPoints))
  }

  /** Attaching every stored message of a maildir, one at a time. */
  method ForwardAll(parts: seq<Attachment>, items: seq<Stored>) returns (r: seq<Attachment>)
    ensures r == parts + Forwarded(items)
  {
    r := parts;
    for i := 0 to |items|
      invariant r == parts + Forwarded(items[..i])
    {
      r := r + [Forward(items[i].message)];
      assert Forwarded(items[..i + 1]) == Forwarded(items[..i]) + [Forward(items[i].message)];
    }
    assert items[..|items|] == items;
  }

  /** One pass of the loop: the grade note when there is a grade, then the maildir's messages. */
  method AttachAssignment(parts: seq<Attachment>, grades: seq<Grade>, basedir: string, dirs: SubmissionHandler.Maildirs,
                          student: Person, a: Assignment, formatPoints: real -> string)
    returns (r: seq<Attachment>)
    ensures r == parts + AssignmentParts(grades, basedir, dirs.boxes, student, a, formatPoints)
  {
    r := parts;
    var grade := GradeOf(grades, student, a);
    if grade.Some? {
      r := r + [Note(GradeNote(a, grade.value, formatPoints))];
    }
    var note := NoteOf(grades, student, a, formatPoints);
    assert r == parts + note;
    var mpath := MailPath(basedir, a, student);
    var forwards := Forwards(dirs.boxes, mpath);
    if mpath in dirs.boxes {
      r := ForwardAll(r, dirs.boxes[mpath]);
    }
    assert r == parts + note + forwards;
    AppendAssoc(parts, note, forwards);
  }

  method SubmissionEmail(c: Course, basedir: string, dirs: SubmissionHandler.Maildirs, person: Person,
                         student: Person, assignments: seq<Assignment>, formatPoints: real -> string)
    returns (e: Email)
    ensures e == SubmissionEmailOf(c, basedir, dirs.boxes, person, student, assignments, formatPoints)
  {
    var subject := SubmissionSubject(c, student);
    var head := [Note(SubmissionSummary(subject, assignments))];
    var parts := head;
    for i := 0 to |assignments|
      invariant parts == head + SubmissionParts(c.grades, basedir, dirs.boxes, student, assignments[..i], formatPoints)
    {
      var before := SubmissionParts(c.grades, basedir, dirs.boxes, student, assignments[..i], formatPoints);
      parts := AttachAssignment(parts, c.grades, basedir, dirs, student, assignments[i], formatPoints);
      TakeSnoc(assignments, i);
      SubmissionPartsSnoc(c.grades, basedir, dirs.boxes, student, assignments[..i], assignments[i], formatPoints);
      AppendAssoc(head, before, AssignmentParts(c.grades, basedir, dirs.boxes, student, assignments[i], formatPoints));
    }
    assert assignments[..|assignments|] == assignments;
    e := Submissions(c.robot, [person], subject, parts);
  }

  // ---------------------------------------------------------------- _get_admin_email

  /** The people whose lowercased name occurs in the lowercased subject, in course order. */
  function Candidates(people: seq<Person>, lsubject: string): (r: seq<Person>)
    ensures forall p :: p in r <==> p in people && IsSubstring(Lower(p.name), lsubject)
    ensures |r| <= |people|
  {
    if people == [] then []
    else (if IsSubstring(Lower(people[0].name), lsubject) then [people[0]] else []) + Candidates(people[1..], lsubject)
  }

  /** The course assignments whose lowercased name occurs in the lowercased subject. */
  function Named(assignments: seq<Assignment>, lsubject: string): (r: seq<Assignment>)
    ensures forall a :: a in r <==> a in assignments && IsSubstring(Lower(a.name), lsubject)
    ensures |r| <= |assignments|
  {
    if assignments == [] then []
    else (if IsSubstring(Lower(assignments[0].name), lsubject) then [assignments[0]] else []) +
         Named(assignments[1..], lsubject)
  }

  /** Nobody is named when no person's name is in the subject. */
  lemma {:induction false} CandidatesNone(people: seq<Person>, lsubject: string)
    requires forall p :: p in people ==> !IsSubstring(Lower(p.name), lsubject)
    ensures Candidates(people, lsubject) == []
  {
    if people != [] {
      assert people[0] in people;
      CandidatesNone(people[1..], lsubject);
    }
  }

  /** Nothing is named when no assignment's name is in the subject. */
  lemma {:induction false} NamedNone(assignments: seq<Assignment>, lsubject: string)
    requires forall a :: a in assignments ==> !IsSubstring(Lower(a.name), lsubject)
    ensures Named(assignments, lsubject) == []
  {
    if assignments != [] {
      assert assignments[0] in assignments;
      NamedNone(assignments[1..], lsubject);
    }
  }

  function PersonNames(people: seq<Person>): (r: seq<string>)
    ensures |r| == |people| && forall i :: 0 <= i < |r| ==> r[i] == people[i].name
  {
    seq(|people|, i requires 0 <= i < |people| => people[i].name)
  }

  const SeveralTail: string := "\nbut it matches several students:" + Bullet
  const SeveralSubject: string := "subject matches multiple students"

  function SeveralText(subject: string, students: seq<Person>): string
  {
    Lead + Repr(subject) + SeveralTail + Join(PersonNames(students), Bullet)
  }

  /** `course.find_people()` with no criteria. */
  function Everybody(c: Course): seq<Person>
  {
    Matching(c.people, Query(None, None, None))
  }

  /**
   * The two statistics `tabulate` computes with numpy: a column's mean or
   * standard deviation to two decimals, and the Total column's.
   */
  datatype TableStats = TableStats(cell: (string, seq<real>) -> string, total: (string, seq<real>) -> string)

  /**
   * The table `_get_admin_email` writes to its string stream: statistics on,
   * colour left to its default, points and totals shown as `str` shows them.
   */
  function CourseTable(c: Course, stats: TableStats, formatPoints: real -> string): Tabulate.Layout
  {
    Tabulate.Table(c, true, None, formatPoints, formatPoints, stats.cell, stats.total)
  }

  /** The exception `tabulate` lets out of `run`. */
  function Escaped(f: Tabulate.Failure): (r: Failure)
    ensures r == NameError || r == ZeroDivisionError
    ensures r.NameError? <==> f.NameError?
  {
    match f
    case NameError => NameError
    case ZeroDivisionError => ZeroDivisionError
  }

  /** The table branch: the rendered table `t` mailed to `person`, or the exception that stopped it. */
  function TableAnswer(c: Course, person: Person, t: Tabulate.Layout): (r: Answer)
    ensures r.sent == []
    ensures t.failure.None? <==> r.result.Ok?
    ensures t.failure.None? ==> r.result.value == Table(c.robot, [person], "All grades for " + c.name, Tabulate.Render(t.pieces))
    ensures r.result == Err(NameError) <==> t.failure == Some(Tabulate.NameError)
    ensures r.result == Err(ZeroDivisionError) <==> t.failure == Some(Tabulate.ZeroDivisionError)
  {
    if t.failure.Some? then Answer([], Err(Escaped(t.failure.value)))
    else Answer([], Ok(Table(c.robot, [person], "All grades for " + c.name, Tabulate.Render(t.pieces))))
  }

  /**
   * The course table stops with `NameError` exactly when the course has no
   * assignments and no grades, and with `ZeroDivisionError` exactly when the
   * Total column is shown and some graded student's total divides by zero.
   */
  lemma CourseTableFailure(c: Course, stats: TableStats, formatPoints: real -> string)
    ensures var t := CourseTable(c, stats, formatPoints);
            (t.failure == Some(Tabulate.NameError) <==> c.assignments == [] && c.grades == []) &&
            (t.failure == Some(Tabulate.ZeroDivisionError) <==>
               Tabulate.TotalShown(c) &&
               exists g :: g in c.grades && TotalOf(c.assignments, c.grades, g.student).None?)
  {
    Tabulate.TableFailure(c, true, None, formatPoints, formatPoints, stats.cell, stats.total);
  }

  /** `_tabulate` into a string stream, then the email around its text. */
  method TableEmail(c: Course, person: Person, stats: TableStats, formatPoints: real -> string)
    returns (r: Result<Email, Failure>)
    ensures r == TableAnswer(c, person, CourseTable(c, stats, formatPoints)).result
  {
    ghost var t := CourseTable(c, stats, formatPoints);
    var stream := new Color.Stream();
    var failure := Tabulate.Tabulate(c, true, stream, None, formatPoints, formatPoints, stats.cell, stats.total);
    assert failure == t.failure;
    if failure.Some? {
      return Err(Escaped(failure.value));
    }
    assert stream.written == "" + Tabulate.Render(t.pieces);
    assert "" + Tabulate.Render(t.pieces) == Tabulate.Render(t.pieces);
    r := Ok(Table(c.robot, [person], "All grades for " + c.name, stream.written));
  }

  /**
   * `_get_admin_email`: no student named gives the table, or the exception
   * `tabulate` raises; one gives that student's digest or the named
   * assignments' submissions; more is an error.
   */
  function AdminAnswer(c: Course, original: Message, person: Person, subject: string, respond: bool, stats: TableStats,
                       compose: (Person, Option<seq<Person>>) -> seq<Template.Email>, basedir: string,
                       boxes: map<string, seq<Stored>>, formatPoints: real -> string): Answer
  {
    var lsubject := Lower(subject);
    var students := Candidates(Everybody(c), lsubject);
    if |students| == 0 then TableAnswer(c, person, CourseTable(c, stats, formatPoints))
    else if |students| == 1 then
      var assignments := Named(c.assignments, lsubject);
      if |assignments| == 0 then StudentAnswer(c, original, person, Some(students[0]), respond, compose)
      else Answer([], Ok(SubmissionEmailOf(c, basedir, boxes, person, students[0], assignments, formatPoints)))
    else
      Answer(if respond then [Framed(Frame(c, person, original, SeveralSubject,
                                            SeveralText(subject, students)))]
             else [],
             Err(MatchesMultiple(subject, students)))
  }

  /** A subject naming nobody in the course takes the table branch (`CourseTableFailure` says when it fails). */
  lemma AdminNobodyNamed(c: Course, original: Message, person: Person, subject: string, respond: bool, stats: TableStats,
                         compose: (Person, Option<seq<Person>>) -> seq<Template.Email>, basedir: string,
                         boxes: map<string, seq<Stored>>, formatPoints: real -> string)
    requires forall p :: p in c.people ==> !IsSubstring(Lower(p.name), Lower(subject))
    ensures AdminAnswer(c, original, person, subject, respond, stats, compose, basedir, boxes, formatPoints) ==
            TableAnswer(c, person, CourseTable(c, stats, formatPoints))
  {
    MatchingEverybody(c.people);
    CandidatesNone(c.people, Lower(subject));
  }

  /**
   * A subject naming exactly one person and no assignment gets that
   * person's digest, sent on to the staff member asking.
   */
  lemma AdminOneStudent(c: Course, original: Message, person: Person, subject: string, respond: bool, stats: TableStats,
                        compose: (Person, Option<seq<Person>>) -> seq<Template.Email>, basedir: string,
                        boxes: map<string, seq<Stored>>, formatPoints: real -> string, s: Person)
    requires Candidates(c.people, Lower(subject)) == [s]
    requires forall a :: a in c.assignments ==> !IsSubstring(Lower(a.name), Lower(subject))
    ensures s in c.people && IsSubstring(Lower(s.name), Lower(subject))
    ensures AdminAnswer(c, original, person, subject, respond, stats, compose, basedir, boxes, formatPoints) ==
            StudentAnswer(c, original, person, Some(s), respond, compose)
  {
    MatchingEverybody(c.people);
    assert s in Candidates(c.people, Lower(subject));
    NamedNone(c.assignments, Lower(subject));
  }

  /**
   * A subject naming one person and some assignments gets the submissions
   * of exactly the named assignments, each listed in the summary.
   */
  lemma AdminSubmissions(c: Course, original: Message, person: Person, subject: string, respond: bool, stats: TableStats,
                         compose: (Person, Option<seq<Person>>) -> seq<Template.Email>, basedir: string,
                         boxes: map<string, seq<Stored>>, formatPoints: real -> string, s: Person, a: Assignment)
    requires Candidates(c.people, Lower(subject)) == [s]
    requires a in c.assignments && IsSubstring(Lower(a.name), Lower(subject))
    ensures var r := AdminAnswer(c, original, person, subject, respond, stats, compose, basedir, boxes, formatPoints);
            var named := Named(c.assignments, Lower(subject));
            r.sent == [] && r.result.Ok? && r.result.value.Submissions? &&
            r.result.value == SubmissionEmailOf(c, basedir, boxes, person, s, named, formatPoints) &&
            r.result.value.subject == c.name + SubmissionsFor + s.name &&
            IsSubstring(a.name, r.result.value.parts[0].text)
  {
    MatchingEverybody(c.people);
    var named := Named(c.assignments, Lower(subject));
    assert a in named;
    var i :| 0 <= i < |named| && named[i] == a;
    SummaryNamesEach(SubmissionSubject(c, s), named, i);
  }

  /** A subject naming several people fails, listing them, after telling the staff member. */
  lemma AdminSeveralNamed(c: Course, original: Message, person: Person, subject: string, respond: bool, stats: TableStats,
                          compose: (Person, Option<seq<Person>>) -> seq<Template.Email>, basedir: string,
                          boxes: map<string, seq<Stored>>, formatPoints: real -> string)
    requires |Candidates(c.people, Lower(subject))| > 1
    ensures var students := Candidates(c.people, Lower(subject));
            var r := AdminAnswer(c, original, person, subject, respond, stats, compose, basedir, boxes, formatPoints);
            r.result == Err(MatchesMultiple(subject, students)) &&
            (respond ==> |r.sent| == 1 && r.sent[0].Framed? && r.sent[0].reply.targets == [person] &&
                         r.sent[0].reply.subject == Some(SeveralSubject) &&
                         Handler.Unframe(r.sent[0].reply.text, Alias(person), Alias(c.robot)) ==
                           Some(SeveralText(subject, students))) &&
            (!respond ==> r.sent == [])
  {
    MatchingEverybody(c.people);
    FrameText(c, person, original, SeveralSubject, SeveralText(subject, Candidates(c.people, Lower(subject))));
  }

  /** The text about several matches names every one of them. */
  lemma SeveralTextNamesEach(subject: string, students: seq<Person>, i: nat)
    requires i < |students|
    ensures IsSubstring(students[i].name, SeveralText(subject, students))
  {
    var names := PersonNames(students);
    JoinContains(names, Bullet, i);
    SubstringWithin(names[i], Lead + Repr(subject) + SeveralTail, Join(names, Bullet), "");
    assert Lead + Repr(subject) + SeveralTail + Join(names, Bullet) + "" == SeveralText(subject, students);
  }

  method AdminEmail(c: Course, original: Message, person: Person, subject: string, respond: bool, stats: TableStats,
                    compose: (Person, Option<seq<Person>>) -> seq<Template.Email>, basedir: string,
                    dirs: SubmissionHandler.Maildirs, formatPoints: real -> string, callback: Callback)
    returns (r: Result<Email, Failure>)
    modifies callback
    ensures var a := AdminAnswer(c, original, person, subject, respond, stats, compose, basedir, dirs.boxes, formatPoints);
            callback.calls == old(callback.calls) + a.sent && r == a.result
  {
    var lsubject := Lower(subject);
    var students := Candidates(Everybody(c), lsubject);
    if |students| == 0 {
      r := TableEmail(c, person, stats, formatPoints);
    } else if |students| == 1 {
      var assignments := Named(c.assignments, lsubject);
      if |assignments| == 0 {
        r := StudentEmail(c, original, person, Some(students[0]), respond, compose, callback);
      } else {
        var e := SubmissionEmail(c, basedir, dirs, person, students[0], assignments, formatPoints);
        r := Ok(e);
      }
    } else {
      if respond {
        callback.Send(Framed(Frame(c, person, original, SeveralSubject,
                                   SeveralText(subject, students))));
      }
      r := Err(MatchesMultiple(subject, students));
    }
  }

  // ---------------------------------------------------------------- run

  /** Staff take precedence over students; anyone else is not handled. */
  function Dispatched(c: Course, original: Message, person: Person, subject: string, respond: bool, stats: TableStats,
                      compose: (Person, Option<seq<Person>>) -> seq<Template.Email>, basedir: string,
                      boxes: map<string, seq<Stored>>, formatPoints: real -> string): Answer
  {
    if IsAdmin(person) then AdminAnswer(c, original, person, subject, respond, stats, compose, basedir, boxes, formatPoints)
    else if "students" in person.groups then StudentAnswer(c, original, person, None, respond, compose)
    else Answer([], Err(NotImplementedError))
  }

  /** At most one framed response goes out before an answer, and only on a failure with a callback. */
  predicate Quiet(a: Answer, respond: bool)
  {
    |a.sent| <= 1 && (forall x :: x in a.sent ==> x.Framed?) && ((!respond || a.result.Ok?) ==> a.sent == [])
  }

  lemma RefusalQuiet(c: Course, original: Message, person: Person, subject: string, respond: bool)
    ensures Quiet(Refusal(c, original, person, subject, respond), respond)
  {
  }

  lemma StudentAnswerQuiet(c: Course, original: Message, person: Person, student: Option<Person>, respond: bool,
                           compose: (Person, Option<seq<Person>>) -> seq<Template.Email>)
    ensures Quiet(StudentAnswer(c, original, person, student, respond, compose), respond)
  {
  }

  lemma DispatchedQuiet(c: Course, original: Message, person: Person, subject: string, respond: bool, stats: TableStats,
                        compose: (Person, Option<seq<Person>>) -> seq<Template.Email>, basedir: string,
                        boxes: map<string, seq<Stored>>, formatPoints: real -> string)
    ensures Quiet(Dispatched(c, original, person, subject, respond, stats, compose, basedir, boxes, formatPoints), respond)
  {
    var students := Candidates(Everybody(c), Lower(subject));
    if IsAdmin(person) && |students| == 1 && |Named(c.assignments, Lower(subject))| == 0 {
      StudentAnswerQuiet(c, original, person, Some(students[0]), respond, compose);
    } else if !IsAdmin(person) && "students" in person.groups {
      StudentAnswerQuiet(c, original, person, None, respond, compose);
    }
  }

  /** The answer, handed on to the callback when there is one. */
  function Delivered(a: Answer, respond: bool): Ending
  {
    match a.result
    case Err(f) => Ending(a.sent, Some(f))
    case Ok(e) => Ending(a.sent + (if respond then [Mailed(e)] else []), None)
  }

  /** `run`, with the refusal of an unsigned request corrected to name `person`. */
  function Handled(c: Course, original: Message, message: Message, person: Person, subject: string, trust: bool,
                   respond: bool, stats: TableStats, compose: (Person, Option<seq<Person>>) -> seq<Template.Email>,
                   basedir: string, boxes: map<string, seq<Stored>>, formatPoints: real -> string): Ending
  {
    if !Authenticated(message, trust) then Delivered(Refusal(c, original, person, subject, respond), respond)
    else Delivered(Dispatched(c, original, person, subject, respond, stats, compose, basedir, boxes, formatPoints), respond)
  }

  /**
   * `run` with the refusal as written. The dispatch is the corrected one: the
   * other discrepancies of get.py (the grade note of an ungraded assignment)
   * and of course.py (people without emails) have lemmas of their own.
   */
  function HandledAsWritten(c: Course, original: Message, message: Message, person: Person, subject: string,
                            trust: bool, respond: bool, stats: TableStats,
                            compose: (Person, Option<seq<Person>>) -> seq<Template.Email>, basedir: string,
                            boxes: map<string, seq<Stored>>, formatPoints: real -> string): Ending
  {
    if !Authenticated(message, trust) then Delivered(RefusalAsWritten(c, original, person, subject, respond), respond)
    else Delivered(Dispatched(c, original, person, subject, respond, stats, compose, basedir, boxes, formatPoints), respond)
  }

  /**
   * The refusal as written changes the outcome only on an unsigned request
   * from a person with a key and a callback: there it ends in a `NameError`
   * with nothing sent.
   */
  lemma HandledAsWrittenDiffers(c: Course, original: Message, message: Message, person: Person, subject: string,
                                trust: bool, respond: bool, stats: TableStats,
                                compose: (Person, Option<seq<Person>>) -> seq<Template.Email>, basedir: string,
                                boxes: map<string, seq<Stored>>, formatPoints: real -> string)
    ensures var w := HandledAsWritten(c, original, message, person, subject, trust, respond, stats, compose, basedir,
                                      boxes, formatPoints);
            var h := Handled(c, original, message, person, subject, trust, respond, stats, compose, basedir, boxes,
                             formatPoints);
            if !Authenticated(message, trust) && respond && HasKey(person)
            then w == Ending([], Some(NameError)) && h.failure == Some(ValueError(SignedSubject)) && |h.sent| == 1
            else w == h
  {
  }

  /**
   * An unsigned request is never answered with information: it fails with
   * the "signed email" error, and at most the refusal is sent.
   */
  lemma HandledUnsigned(c: Course, original: Message, message: Message, person: Person, subject: string,
                        trust: bool, respond: bool, stats: TableStats,
                        compose: (Person, Option<seq<Person>>) -> seq<Template.Email>, basedir: string,
                        boxes: map<string, seq<Stored>>, formatPoints: real -> string)
    requires !trust && !message.authenticated
    ensures var h := Handled(c, original, message, person, subject, trust, respond, stats, compose, basedir, boxes,
                             formatPoints);
            h.failure == Some(ValueError(SignedSubject)) &&
            h.sent == Refusal(c, original, person, subject, respond).sent &&
            forall x :: x in h.sent ==> x.Framed?
  {
  }

  /**
   * A signed request from staff gets the staff answer even when the person
   * is also a student; a student gets their own digest; anyone else fails
   * with nothing sent.
   */
  lemma HandledDispatch(c: Course, original: Message, message: Message, person: Person, subject: string,
                        trust: bool, respond: bool, stats: TableStats,
                        compose: (Person, Option<seq<Person>>) -> seq<Template.Email>, basedir: string,
                        boxes: map<string, seq<Stored>>, formatPoints: real -> string)
    requires Authenticated(message, trust)
    ensures var h := Handled(c, original, message, person, subject, trust, respond, stats, compose, basedir, boxes,
                             formatPoints);
            ("professors" in person.groups || "assistants" in person.groups ==>
               h == Delivered(AdminAnswer(c, original, person, subject, respond, stats, compose, basedir, boxes,
                                          formatPoints), respond)) &&
            (!IsAdmin(person) && "students" in person.groups ==>
               h == Delivered(StudentAnswer(c, original, person, None, respond, compose), respond)) &&
            (!IsAdmin(person) && "students" !in person.groups ==>
               h == Ending([], Some(NotImplementedError)))
  {
  }

  /**
   * A signed staff request naming nobody, on a course with no assignments
   * and no grades, ends in the `NameError` of `tabulate` with nothing sent.
   */
  lemma HandledEmptyCourse(c: Course, original: Message, message: Message, person: Person, subject: string,
                           trust: bool, respond: bool, stats: TableStats,
                           compose: (Person, Option<seq<Person>>) -> seq<Template.Email>, basedir: string,
                           boxes: map<string, seq<Stored>>, formatPoints: real -> string)
    requires Authenticated(message, trust) && IsAdmin(person)
    requires c.assignments == [] && c.grades == []
    requires forall p :: p in c.people ==> !IsSubstring(Lower(p.name), Lower(subject))
    ensures Handled(c, original, message, person, subject, trust, respond, stats, compose, basedir, boxes, formatPoints) ==
            Ending([], Some(NameError))
  {
    AdminNobodyNamed(c, original, person, subject, respond, stats, compose, basedir, boxes, formatPoints);
    CourseTableFailure(c, stats, formatPoints);
  }

  /**
   * Without a callback nothing is ever sent; with one, a request that
   * succeeds ends by handing over its email, and a request that fails hands
   * over at most one framed response.
   */
  lemma HandledSends(c: Course, original: Message, message: Message, person: Person, subject: string,
                     trust: bool, respond: bool, stats: TableStats,
                     compose: (Person, Option<seq<Person>>) -> seq<Template.Email>, basedir: string,
                     boxes: map<string, seq<Stored>>, formatPoints: real -> string)
    ensures var h := Handled(c, original, message, person, subject, trust, respond, stats, compose, basedir, boxes,
                             formatPoints);
            (!respond ==> h.sent == []) &&
            (respond && h.failure.None? ==> |h.sent| == 1 && h.sent[0].Mailed?) &&
            (h.failure.Some? ==> |h.sent| <= 1 && forall x :: x in h.sent ==> x.Framed?)
  {
    if !Authenticated(message, trust) {
      RefusalQuiet(c, original, person, subject, respond);
    } else {
      DispatchedQuiet(c, original, person, subject, respond, stats, compose, basedir, boxes, formatPoints);
    }
  }

  method Run(c: Course, original: Message, message: Message, person: Person, subject: string, trust: bool,
             respond: bool, stats: TableStats, compose: (Person, Option<seq<Person>>) -> seq<Template.Email>,
             basedir: string, dirs: SubmissionHandler.Maildirs, formatPoints: real -> string, callback: Callback)
    returns (failure: Option<Failure>)
    modifies callback
    ensures var h := Handled(c, original, message, person, subject, trust, respond, stats, compose, basedir,
                             dirs.boxes, formatPoints);
            callback.calls == old(callback.calls) + h.sent && failure == h.failure
  {
    if !Authenticated(message, trust) {
      if respond {
        callback.Send(Framed(Frame(c, person, original, SignedSubject, UnsignedText(subject, KeyHint(person)))));
      }
      return Some(ValueError(SignedSubject));
    }
    var r: Result<Email, Failure>;
    if IsAdmin(person) {
      r := AdminEmail(c, original, person, subject, respond, stats, compose, basedir, dirs, formatPoints, callback);
    } else if "students" in person.groups {
      r := StudentEmail(c, original, person, None, respond, compose, callback);
    } else {
      return Some(NotImplementedError);
    }
    match r
    case Err(f) =>
      failure := Some(f);
    case Ok(e) =>
      if respond {
        callback.Send(Mailed(e));
      }
      failure := None;
  }
}
