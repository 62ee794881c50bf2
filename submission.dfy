/**
 * The submission handler: the assignment a subject names, the responses
 * sent for a subject that names none or names one that cannot be submitted
 * by email, the acknowledgement, the copy of the message saved in the
 * student's maildir (once per Message-ID), the attachments extracted, and
 * the late marker.
 */
module SubmissionHandler {

  import opened Outcome
  import opened Text
  import opened PersonModel
  import opened AssignmentModel
  import opened CourseModel
  import opened Mail
  import opened Handler
  import Storage
  import ExtractMime

  /** How `run` fails. */
  datatype Failure =
    | ValueError(message: string)
    | UnboundLocalError      // `assignment` read after a loop over no assignments
    | TypeError              // `time > ...` with no time
    | TimeFailure(error: ExtractMime.TimeError)

  // ---------------------------------------------------------------- choosing the assignment

  /** `_match_assignment`: the lowercased name occurs in the (already lowercased) subject. */
  predicate MatchAssignment(a: Assignment, subject: string)
  {
    IsSubstring(Lower(a.name), subject)
  }

  /**
   * The loop variable after `for assignment in course.assignments: if match: break`:
   * the first match, else the last assignment; unbound when there are none.
   */
  function Scanned(assignments: seq<Assignment>, subject: string): (r: Option<Assignment>)
    ensures r.None? <==> assignments == []
    ensures r.Some? ==> r.value in assignments
    decreases |assignments|
  {
    if assignments == [] then None
    else if MatchAssignment(assignments[0], subject) || |assignments| == 1 then Some(assignments[0])
    else Scanned(assignments[1..], subject)
  }

  /** The scan settles on a matching assignment exactly when one matches. */
  lemma {:induction false} ScannedMatches(assignments: seq<Assignment>, subject: string)
    ensures (exists i :: 0 <= i < |assignments| && MatchAssignment(assignments[i], subject)) <==>
            Scanned(assignments, subject).Some? && MatchAssignment(Scanned(assignments, subject).value, subject)
    decreases |assignments|
  {
    if |assignments| > 1 && !MatchAssignment(assignments[0], subject) {
      var tail := assignments[1..];
      ScannedMatches(tail, subject);
      if exists i :: 0 <= i < |assignments| && MatchAssignment(assignments[i], subject) {
        var i :| 0 <= i < |assignments| && MatchAssignment(assignments[i], subject);
        assert tail[i - 1] == assignments[i];
      }
      if Scanned(tail, subject).Some? && MatchAssignment(Scanned(tail, subject).value, subject) {
        var i :| 0 <= i < |tail| && MatchAssignment(tail[i], subject);
        assert assignments[i + 1] == tail[i];
      }
    }
  }

  /** When some assignment matches, the scan settles on the first in course order. */
  lemma {:induction false} ScannedFirst(assignments: seq<Assignment>, subject: string, i: nat)
    requires i < |assignments| && MatchAssignment(assignments[i], subject)
    requires forall j :: 0 <= j < i ==> !MatchAssignment(assignments[j], subject)
    ensures Scanned(assignments, subject) == Some(assignments[i])
    decreases i
  {
    if i > 0 {
      var tail := assignments[1..];
      forall j | 0 <= j < i - 1 ensures !MatchAssignment(tail[j], subject) {
        assert tail[j] == assignments[j + 1];
      }
      ScannedFirst(tail, subject, i - 1);
    }
  }

  /** When none matches, the scan ends on the last assignment. */
  lemma {:induction false} ScannedLast(assignments: seq<Assignment>, subject: string)
    requires assignments != []
    requires forall i :: 0 <= i < |assignments| ==> !MatchAssignment(assignments[i], subject)
    ensures Scanned(assignments, subject) == Some(assignments[|assignments| - 1])
    decreases |assignments|
  {
    if |assignments| > 1 {
      var tail := assignments[1..];
      forall i | 0 <= i < |tail| ensures !MatchAssignment(tail[i], subject) {
        assert tail[i] == assignments[i + 1];
      }
      ScannedLast(tail, subject);
    }
  }

  /** The `for ... break` scan over the course's assignments. */
  method ScanAssignments(assignments: seq<Assignment>, subject: string) returns (found: Option<Assignment>)
    ensures found == Scanned(assignments, subject)
  {
    found := None;
    for i := 0 to |assignments|
      invariant found == if i == 0 then None else Some(assignments[i - 1])
      invariant forall j :: 0 <= j < i ==> !MatchAssignment(assignments[j], subject)
    {
      found := Some(assignments[i]);
      if MatchAssignment(assignments[i], subject) {
        ScannedFirst(assignments, subject, i);
        return;
      }
    }
    if assignments != [] {
      ScannedLast(assignments, subject);
    }
  }

  /** The assignments that can be submitted by email, in course order. */
  function Submittables(assignments: seq<Assignment>): (r: seq<Assignment>)
    ensures forall a :: a in r <==> a in assignments && a.submittable
  {
    if assignments == [] then []
    else (if assignments[0].submittable then [assignments[0]] else []) + Submittables(assignments[1..])
  }

  /** The first of them is the first submittable assignment in course order. */
  lemma {:induction false} SubmittablesHead(assignments: seq<Assignment>)
    ensures var r := Submittables(assignments);
            r != [] ==> exists i :: 0 <= i < |assignments| && assignments[i] == r[0] &&
                                    forall j :: 0 <= j < i ==> !assignments[j].submittable
  {
    if assignments != [] && !assignments[0].submittable {
      var tail := assignments[1..];
      SubmittablesHead(tail);
      var r := Submittables(tail);
      if r != [] {
        var i :| 0 <= i < |tail| && tail[i] == r[0] && forall j :: 0 <= j < i ==> !tail[j].submittable;
        assert assignments[i + 1] == r[0];
        forall j | 0 <= j < i + 1 ensures !assignments[j].submittable {
          if j > 0 {
            assert assignments[j] == tail[j - 1];
          }
        }
      }
    }
  }

  // ---------------------------------------------------------------- what is answered

  function NoMatchSubject(subject: string): string
  {
    "no assignment found in " + Repr(subject)
  }

  /** The hint: there is nothing to submit, or how the first submittable assignment would be named. */
  function NoMatchHint(assignments: seq<Assignment>): string
  {
    var open := Submittables(assignments);
    if open == [] then "In fact, there are no submittable assignments for\nthis course!"
    else "Remember to use the full name for the assignment in the\nsubject.  For example:\n  " + open[0].name + " submission"
  }

  function NoMatchText(c: Course, subject: string): string
  {
    "We got an email from you with the following subject:\n  " + Repr(subject) +
    "\nwhich does not match any submittable assignment name\nfor " + c.name + ".\n" + NoMatchHint(c.assignments)
  }

  function InvalidSubject(a: Assignment): string
  {
    "received invalid " + a.name + " submission"
  }

  function InvalidText(a: Assignment): string
  {
    "We received your submission for " + a.name + ", but you are not\nallowed to submit that assignment via email."
  }

  function ReceivedSubject(a: Assignment): string
  {
    "received " + a.name + " submission"
  }

  /** `if time:` is false for a missing time and for the time 0 alike. */
  function TimeText(time: Option<real>, formatDate: real -> string): string
  {
    if time.Some? && time.value != 0.0 then "on " + formatDate(time.value) else "at an unknown time"
  }

  function ReceivedText(a: Assignment, time: Option<real>, formatDate: real -> string): string
  {
    "We received your submission for " + a.name + " " + TimeText(time, formatDate) + "."
  }

  /** The assignment the message is accepted for, or why it is refused. */
  function Verdict(c: Course, subject: string): (r: Result<Assignment, Failure>)
    ensures r.Ok? ==> r.value in c.assignments && MatchAssignment(r.value, subject) && r.value.submittable
  {
    match Scanned(c.assignments, subject)
    case None => Err(UnboundLocalError)
    case Some(a) =>
      if !MatchAssignment(a, subject) then Err(ValueError(NoMatchSubject(subject)))
      else if !a.submittable then Err(ValueError(InvalidSubject(a)))
      else Ok(a)
  }

  /** The subject and text of the response `run` sends, if any. */
  function Answer(c: Course, subject: string, time: Option<real>, formatDate: real -> string): Option<(string, string)>
  {
    match Scanned(c.assignments, subject)
    case None => None
    case Some(a) =>
      if !MatchAssignment(a, subject) then Some((NoMatchSubject(subject), NoMatchText(c, subject)))
      else if !a.submittable then Some((InvalidSubject(a), InvalidText(a)))
      else Some((ReceivedSubject(a), ReceivedText(a, time, formatDate)))
  }

  /** A subject that names no assignment is refused with "no assignment found in", and answered so. */
  lemma VerdictNoMatch(c: Course, subject: string, time: Option<real>, formatDate: real -> string)
    requires c.assignments != []
    requires forall i :: 0 <= i < |c.assignments| ==> !MatchAssignment(c.assignments[i], subject)
    ensures Verdict(c, subject) == Err(ValueError(NoMatchSubject(subject)))
    ensures Answer(c, subject, time, formatDate) == Some((NoMatchSubject(subject), NoMatchText(c, subject)))
  {
    ScannedLast(c.assignments, subject);
  }

  /**
   * The first assignment in course order that the subject names decides:
   * accepted when it can be submitted by email, refused with "received
   * invalid ... submission" otherwise.
   */
  lemma VerdictFirstMatch(c: Course, subject: string, i: nat)
    requires i < |c.assignments| && MatchAssignment(c.assignments[i], subject)
    requires forall j :: 0 <= j < i ==> !MatchAssignment(c.assignments[j], subject)
    ensures Verdict(c, subject) == if c.assignments[i].submittable then Ok(c.assignments[i])
                                   else Err(ValueError(InvalidSubject(c.assignments[i])))
  {
    ScannedFirst(c.assignments, subject, i);
  }

  /** An accepted submission is acknowledged with "received ... submission"; only a course without assignments fails otherwise. */
  lemma VerdictAccepted(c: Course, subject: string, time: Option<real>, formatDate: real -> string)
    ensures Verdict(c, subject).Err? ==> Verdict(c, subject).error.ValueError? || c.assignments == []
    ensures Verdict(c, subject).Ok? ==>
              Answer(c, subject, time, formatDate) ==
              Some((ReceivedSubject(Verdict(c, subject).value), ReceivedText(Verdict(c, subject).value, time, formatDate)))
  {
  }

  /** The acknowledgement names the time when it is known (and not 0), and says it is unknown otherwise. */
  lemma ReceivedTextCases(a: Assignment, time: Option<real>, formatDate: real -> string)
    ensures time.None? ==> ReceivedText(a, time, formatDate) ==
                           "We received your submission for " + a.name + " at an unknown time."
    ensures time.Some? && time.value != 0.0 ==>
              ReceivedText(a, time, formatDate) ==
              "We received your submission for " + a.name + " on " + formatDate(time.value) + "."
  {
  }

  // ---------------------------------------------------------------- the saved copy

  /** The maildirs under the course directory, by path, and the directories created so far. */
  class Maildirs {
    var boxes: map<string, seq<Stored>>
    var made: set<string>

    constructor (boxes: map<string, seq<Stored>>, made: set<string>)
      ensures this.boxes == boxes && this.made == made
    {
      this.boxes := boxes;
      this.made := made;
    }
  }

  /**
   * The directories after `_save_local_message_copy`: `os.makedirs` creates
   * the assignment directory before `dry_run` is looked at, and the maildir
   * at `path/mail` is created only when this is not a dry run.
   */
  function SavedDirs(made: set<string>, path: string, dryRun: bool): (r: set<string>)
    ensures made <= r && path in r
    ensures Storage.PathJoin(path, "mail") in r <==> Storage.PathJoin(path, "mail") in made || !dryRun
    ensures forall d :: d in r && d !in made ==> d == path || d == Storage.PathJoin(path, "mail")
  {
    if dryRun then made + {path} else made + {path, Storage.PathJoin(path, "mail")}
  }

  /** No stored message has the Message-ID of `m`; two messages without one count as the same. */
  predicate IsNew(items: seq<Stored>, m: Message)
  {
    forall i :: 0 <= i < |items| ==> Get(items[i].message.headers, "Message-ID") != Get(m.headers, "Message-ID")
  }

  /**
   * `_save_local_message_copy`: the maildir at `path/mail` is created unless
   * this is a dry run (when it is then missing, nothing is saved); the
   * message is added, flagged seen, unless one with its Message-ID is there
   * or this is a dry run.
   */
  function SavedCopy(boxes: map<string, seq<Stored>>, m: Message, path: string, dryRun: bool): map<string, seq<Stored>>
  {
    var mpath := Storage.PathJoin(path, "mail");
    if dryRun then boxes
    else if mpath !in boxes then boxes[mpath := [Stored(0, m, "S")]]
    else if IsNew(boxes[mpath], m) then boxes[mpath := boxes[mpath] + [Stored(|boxes[mpath]|, m, "S")]]
    else boxes
  }

  /** Saving the same message again changes nothing. */
  lemma SavedCopyIdempotent(boxes: map<string, seq<Stored>>, m: Message, path: string, dryRun: bool)
    ensures var once := SavedCopy(boxes, m, path, dryRun);
            SavedCopy(once, m, path, dryRun) == once
  {
    var mpath: string := Storage.PathJoin(path, "mail");
    var once: map<string, seq<Stored>> := SavedCopy(boxes, m, path, dryRun);
    if !dryRun {
      if mpath !in boxes {
        assert once[mpath][0].message == m;
      } else if IsNew(boxes[mpath], m) {
        var items: seq<Stored> := once[mpath];
        assert items[|items| - 1].message == m;
      }
    }
  }

  /**
   * At most one message is added, at the end of the maildir, flagged seen;
   * the messages there are kept and other maildirs are untouched.
   */
  lemma SavedCopyAddsOne(boxes: map<string, seq<Stored>>, m: Message, path: string, dryRun: bool)
    ensures var r := SavedCopy(boxes, m, path, dryRun);
            var mpath := Storage.PathJoin(path, "mail");
            var before := if mpath in boxes then boxes[mpath] else [];
            (forall p :: p != mpath ==> (p in r <==> p in boxes) && (p in r ==> r[p] == boxes[p])) &&
            (r == boxes || (r[mpath] == before + [Stored(|before|, m, "S")] && IsNew(before, m))) &&
            (dryRun ==> r == boxes)
  {
  }

  /**
   * A dry run stores nothing, yet it still creates the assignment directory,
   * which `todo` then walks.
   */
  lemma SavedCopyDryRun(boxes: map<string, seq<Stored>>, made: set<string>, m: Message, path: string)
    requires path !in made
    ensures SavedCopy(boxes, m, path, true) == boxes
    ensures SavedDirs(made, path, true) == made + {path} && SavedDirs(made, path, true) != made
  {
  }

  /** The directory made, the scan over the maildir with the `new_msg` flag, then the add. */
  method SaveLocalMessageCopy(m: Message, path: string, dryRun: bool, dirs: Maildirs)
    modifies dirs
    ensures dirs.boxes == SavedCopy(old(dirs.boxes), m, path, dryRun)
    ensures dirs.made == SavedDirs(old(dirs.made), path, dryRun)
  {
    dirs.made := dirs.made + {path};
    var mpath := Storage.PathJoin(path, "mail");
    if !dryRun {
      dirs.made := dirs.made + {mpath};
    }
    if mpath !in dirs.boxes {
      if !dryRun {
        dirs.boxes := dirs.boxes[mpath := [Stored(0, m, "S")]];
      }
      return;
    }
    var items := dirs.boxes[mpath];
    var newMsg := true;
    var id := Get(m.headers, "Message-ID");
    for i := 0 to |items|
      invariant newMsg <==> forall j :: 0 <= j < i ==> Get(items[j].message.headers, "Message-ID") != id
    {
      if Get(items[i].message.headers, "Message-ID") == id {
        newMsg := false;
        break;
      }
    }
    if newMsg && !dryRun {
      dirs.boxes := dirs.boxes[mpath := items + [Stored(|items|, m, "S")]];
    }
  }

  // ---------------------------------------------------------------- the late marker

  /**
   * `_check_late` as written: `time > due + max_late` fails with a
   * `TypeError` when the message has no time.
   */
  function LateAsWritten(time: Option<real>, a: Assignment, maxLate: real): (r: Result<bool, Failure>)
    ensures r.Ok? <==> time.Some?
  {
    if time.None? then Err(TypeError) else Ok(time.value > a.due + maxLate)
  }

  /** A submission without a Received field is acknowledged "at an unknown time", then `_check_late` fails. */
  lemma LateAsWrittenFailsWithoutTime(a: Assignment, maxLate: real, formatDate: real -> string)
    ensures LateAsWritten(None, a, maxLate) == Err(TypeError)
    ensures ReceivedText(a, None, formatDate) == "We received your submission for " + a.name + " at an unknown time."
  {
  }

  /** Late: received after the due time plus the allowance; a submission whose time is unknown is not late. */
  predicate Late(time: Option<real>, a: Assignment, maxLate: real)
  {
    time.Some? && time.value > a.due + maxLate
  }

  /** Where the time is known, the two agree. */
  lemma LateAgrees(t: real, a: Assignment, maxLate: real)
    ensures LateAsWritten(Some(t), a, maxLate) == Ok(Late(Some(t), a, maxLate))
    ensures Late(Some(t), a, maxLate) <==> t - a.due > maxLate
  {
  }

  /** `_check_late`: a late submission's marker is touched, unless this is a dry run; nothing is ever removed. */
  method CheckLate(store: Storage.Store, a: Assignment, person: Person, time: Option<real>, maxLate: real,
                   dryRun: bool, now: int)
    modifies store
    ensures store.files == if Late(time, a, maxLate) && !dryRun
                           then old(store.files)[Storage.LatePath(store.basedir, a, person) := now]
                           else old(store.files)
    ensures old(store.files).Keys <= store.files.Keys
    ensures Late(time, a, maxLate) && !dryRun ==> store.IsLate(a, person)
  {
    if time.Some? && time.value > a.due + maxLate {
      if !dryRun {
        store.SetLate(a, person, now);
      }
    }
  }

  // ---------------------------------------------------------------- run

  /** What `run` hands to the callback: the answer, framed for the person, when responding. */
  function Responses(c: Course, original: Message, person: Person, answer: Option<(string, string)>,
                     responding: bool): seq<Option<Reply>>
  {
    if responding && answer.Some? then
      [Some(Reply(c.robot, [person], Some(answer.value.0),
                  ResponseText(Alias(person), answer.value.1, Alias(c.robot)), Some(original)))]
    else []
  }

  /** The refusals and the acknowledgement, sent only when responding. */
  method Acknowledge(c: Course, original: Message, person: Person, answer: Option<(string, string)>,
                     responding: bool, outbox: Outbox)
    modifies outbox
    ensures outbox.calls == old(outbox.calls) + Responses(c, original, person, answer, responding)
  {
    if responding && answer.Some? {
      Respond(c, person, original, answer.value.0, answer.value.1, outbox);
    }
  }

  /**
   * `run`: read the message's time; pick the assignment; answer (when
   * responding) and refuse a subject that names none or one that cannot be
   * submitted; otherwise acknowledge, save a copy, extract the attachments
   * and mark the submission late when it is.
   */
  method Run(c: Course, original: Message, message: Message, person: Person, subject: string, maxLate: real,
             responding: bool, outbox: Outbox, dryRun: bool, store: Storage.Store, dirs: Maildirs,
             disk: ExtractMime.Disk, stamp: string -> Option<real>, formatDate: real -> string, now: int)
    returns (r: Result<(), Failure>)
    modifies outbox, store, dirs, disk
    ensures var read := ExtractMime.MessageTime(message, stamp);
            read.Err? ==> r == Err(TimeFailure(read.error)) && outbox.calls == old(outbox.calls) &&
                          store.files == old(store.files) && dirs.boxes == old(dirs.boxes) &&
                          dirs.made == old(dirs.made) && disk.State() == old(disk.State())
    ensures var read := ExtractMime.MessageTime(message, stamp);
            read.Ok? ==>
              outbox.calls == old(outbox.calls) + Responses(c, original, person, Answer(c, subject, read.value, formatDate), responding)
    ensures var read := ExtractMime.MessageTime(message, stamp);
            read.Ok? && Verdict(c, subject).Err? ==>
              r == Err(Verdict(c, subject).error) &&
              store.files == old(store.files) && dirs.boxes == old(dirs.boxes) && dirs.made == old(dirs.made) &&
              disk.State() == old(disk.State())
    ensures var read := ExtractMime.MessageTime(message, stamp);
            read.Ok? && Verdict(c, subject).Ok? ==>
              var a := Verdict(c, subject).value;
              var path := Storage.AssignmentPath(store.basedir, a, person);
              r == Ok(()) &&
              dirs.boxes == SavedCopy(old(dirs.boxes), message, path, dryRun) &&
              dirs.made == SavedDirs(old(dirs.made), path, dryRun) &&
              disk.State() == (if dryRun then old(disk.State())
                               else ExtractMime.Extracted(old(disk.State()), message.parts, path, None, read.value, now as real)) &&
              store.files == (if Late(read.value, a, maxLate) && !dryRun
                              then old(store.files)[Storage.LatePath(store.basedir, a, person) := now]
                              else old(store.files))
  {
    var read := ExtractMime.MessageTime(message, stamp);
    if read.Err? {
      return Err(TimeFailure(read.error));
    }
    var time := read.value;
    var verdict := Choose(c, original, person, subject, time, responding, outbox, formatDate);
    if verdict.Err? {
      return Err(verdict.error);
    }
    var a := verdict.value;
    Accept(message, person, a, maxLate, dryRun, store, dirs, disk, stamp, time, now);
    r := Ok(());
  }

  /**
   * The assignment picked by the scan; the answer sent when responding; a
   * subject naming no assignment, or one that cannot be submitted, refused.
   */
  method Choose(c: Course, original: Message, person: Person, subject: string, time: Option<real>,
                responding: bool, outbox: Outbox, formatDate: real -> string)
    returns (verdict: Result<Assignment, Failure>)
    modifies outbox
    ensures verdict == Verdict(c, subject)
    ensures outbox.calls == old(outbox.calls) + Responses(c, original, person, Answer(c, subject, time, formatDate), responding)
  {
    var found := ScanAssignments(c.assignments, subject);
    if found.None? {
      return Err(UnboundLocalError);
    }
    var a := found.value;
    verdict := if !MatchAssignment(a, subject) then Err(ValueError(NoMatchSubject(subject)))
               else if !a.submittable then Err(ValueError(InvalidSubject(a)))
               else Ok(a);
    Acknowledge(c, original, person, Answer(c, subject, time, formatDate), responding, outbox);
  }

  /** The accepted submission: the copy saved, the attachments extracted, the late marker set when due. */
  method Accept(message: Message, person: Person, a: Assignment, maxLate: real, dryRun: bool,
                store: Storage.Store, dirs: Maildirs, disk: ExtractMime.Disk,
                stamp: string -> Option<real>, time: Option<real>, now: int)
    requires ExtractMime.MessageTime(message, stamp) == Ok(time)
    modifies store, dirs, disk
    ensures var path := Storage.AssignmentPath(store.basedir, a, person);
            dirs.boxes == SavedCopy(old(dirs.boxes), message, path, dryRun) &&
            dirs.made == SavedDirs(old(dirs.made), path, dryRun) &&
            disk.State() == (if dryRun then old(disk.State())
                             else ExtractMime.Extracted(old(disk.State()), message.parts, path, None, time, now as real)) &&
            store.files == (if Late(time, a, maxLate) && !dryRun
                            then old(store.files)[Storage.LatePath(store.basedir, a, person) := now]
                            else old(store.files))
  {
    var path := Storage.AssignmentPath(store.basedir, a, person);
    SaveLocalMessageCopy(message, path, dryRun, dirs);
    var extracted := ExtractMime.ExtractMimeParts(message, None, path, dryRun, stamp, now as real, disk);
    CheckLate(store, a, person, time, maxLate, dryRun, now);
  }
}
