/**
 * What the handlers share: the salutation every response is framed in, the
 * `respond` helper, and the family of errors a message can be rejected with.
 */
module Handler {

  import opened Outcome
  import opened Text
  import opened PersonModel
  import opened AssignmentModel
  import opened CourseModel
  import opened Mail

  const Opening: string := ",\n\n"
  const Closing: string := "\n\nYours,\n"

  /** The response text: the alias, a blank line, the text, a blank line, and the robot's signature. */
  function ResponseText(alias: string, text: string, robotAlias: string): string
  {
    alias + Opening + text + Closing + robotAlias
  }

  /** The text inside a salutation to `alias` signed by `robotAlias`, when `body` is framed that way. */
  function Unframe(body: string, alias: string, robotAlias: string): Option<string>
  {
    var head := alias + Opening;
    var tail := Closing + robotAlias;
    if |body| >= |head| + |tail| && body[..|head|] == head && body[|body| - |tail|..] == tail then
      Some(body[|head|..|body| - |tail|])
    else None
  }

  /** The framing can be taken off again: the response text gives back the text. */
  lemma UnframeResponse(alias: string, text: string, robotAlias: string)
    ensures Unframe(ResponseText(alias, text, robotAlias), alias, robotAlias) == Some(text)
  {
    var body := ResponseText(alias, text, robotAlias);
    var head := alias + Opening;
    var tail := Closing + robotAlias;
    assert body == head + text + tail;
  }

  /** Different texts give different responses to the same person. */
  lemma ResponseTextInjective(alias: string, t1: string, t2: string, robotAlias: string)
    requires ResponseText(alias, t1, robotAlias) == ResponseText(alias, t2, robotAlias)
    ensures t1 == t2
  {
    UnframeResponse(alias, t1, robotAlias);
    UnframeResponse(alias, t2, robotAlias);
  }

  /** The response starts with the alias and ends with the robot's alias: no newline is added after it. */
  lemma ResponseTextEnds(alias: string, text: string, robotAlias: string)
    ensures var r := ResponseText(alias, text, robotAlias);
            r[..|alias|] == alias && EndsWith(r, "Yours,\n" + robotAlias) &&
            |r| == |alias| + |text| + |robotAlias| + 12
  {
    var r := ResponseText(alias, text, robotAlias);
    assert r == alias + (Opening + text + "\n\n" + ("Yours,\n" + robotAlias));
  }

  /**
   * `respond`: one response, from the course robot to exactly the person,
   * carrying the original message, handed to the callback once.
   */
  method Respond(course: Course, person: Person, original: Message, subject: string, text: string,
                 respond: Outbox)
    modifies respond
    ensures respond.calls == old(respond.calls) +
            [Some(Reply(course.robot, [person], Some(subject),
                        ResponseText(Alias(person), text, Alias(course.robot)), Some(original)))]
  {
    var responseText := ResponseText(Alias(person), text, Alias(course.robot));
    var response := Reply(course.robot, [person], Some(subject), responseText, Some(original));
    respond.Send(Some(response));
  }

  // ---------------------------------------------------------------- rejected messages

  /** The classes of the `InvalidMessage` family, with the attributes each constructor records. */
  datatype Kind =
    | NoReturnPath
    | UnregisteredAddress(address: string)
    | AmbiguousAddress(address: string, people: seq<Person>)
    | SubjectlessMessage
    | InvalidHandlerMessage(handlers: seq<string>)
    | InvalidSubjectMessage
    | UnsignedMessage
    | InvalidAssignment(assignment: Assignment)
    | InvalidStudent(students: seq<Person>)
    | PermissionViolationMessage
    | MissingGradeMessage
    | InvalidMessage

  /**
   * A rejected message: its class, its text (`str(error)`), and the
   * attributes set on it, `None` where an attribute is absent.
   */
  datatype Invalid = Invalid(kind: Kind, error: string, course: Option<Course>, message: Option<Message>,
                             person: Option<Person>, subject: Option<string>, target: Option<string>)

  /** A fresh error carrying only its class, its text and the attributes its constructor was given. */
  function Raise(kind: Kind, error: string, subject: Option<string> := None, target: Option<string> := None,
                 message: Option<Message> := None): (e: Invalid)
    ensures e.kind == kind && e.error == error && e.subject == subject && e.target == target
    ensures e.message == message && e.course.None? && e.person.None?
  {
    Invalid(kind, error, None, message, None, subject, target)
  }

  /**
   * The attributes the mail pipeline sets on an error it catches: the course
   * and the original message always, and each of person, subject and target
   * when it is known and the error does not carry it yet. The source asks
   * `hasattr(error, ...)`; an attribute that is not set is `None` here.
   */
  function Annotate(e: Invalid, course: Course, original: Message, person: Option<Person>,
                    subject: Option<string>, target: Option<string>): (r: Invalid)
    ensures r.kind == e.kind && r.error == e.error
    ensures r.course == Some(course) && r.message == Some(original)
    ensures r.person == (if e.person.Some? then e.person else person)
    ensures r.subject == (if e.subject.Some? then e.subject else subject)
    ensures r.target == (if e.target.Some? then e.target else target)
  {
    e.(course := Some(course), message := Some(original),
       person := if person.Some? && e.person.None? then person else e.person,
       subject := if subject.Some? && e.subject.None? then subject else e.subject,
       target := if target.Some? && e.target.None? then target else e.target)
  }

  /** Annotating twice with the same values changes nothing more: attributes already set are kept. */
  lemma AnnotateIdempotent(e: Invalid, course: Course, original: Message, person: Option<Person>,
                           subject: Option<string>, target: Option<string>)
    ensures var once := Annotate(e, course, original, person, subject, target);
            Annotate(once, course, original, person, subject, target) == once
  {
  }
}
