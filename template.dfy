/**
 * Composing notification emails: the list joined with "and", the callback
 * that marks grades notified once their email went out, and the filters
 * that choose which grades each email reports.  The Jinja rendering of the
 * email text is not modelled; an email records the grades it lists.
 */
module Template {

  import opened Outcome
  import opened Text
  import Sorting
  import opened PersonModel
  import opened AssignmentModel
  import opened GradeModel
  import opened CourseModel
  import Storage

  // ---------------------------------------------------------------- join_with_and

  /**
   * The names joined as in English: `a`, `a and b`, `a, b, and c`. An empty
   * list raises `IndexError` in the source; every caller passes at least one name.
   */
  function JoinedWithAnd(strings: seq<string>): string
    requires strings != []
  {
    var n := |strings|;
    if n == 1 then strings[0]
    else if n == 2 then strings[0] + " and " + strings[1]
    else Join(strings[..n - 1], ", ") + ", and " + strings[n - 1]
  }

  /** Joining one more piece adds the separator and the piece. */
  lemma {:induction false} JoinSnoc(pieces: seq<string>, x: string, sep: string)
    requires pieces != []
    ensures Join(pieces + [x], sep) == Join(pieces, sep) + sep + x
    decreases |pieces|
  {
    if |pieces| > 1 {
      assert (pieces + [x])[1..] == pieces[1..] + [x];
      JoinSnoc(pieces[1..], x, sep);
    }
  }

  /** `join_with_and`: the first string, then each further one after its separator, `and ` before the last. */
  method JoinWithAnd(strings: seq<string>) returns (r: string)
    requires strings != []
    ensures r == JoinedWithAnd(strings)
  {
    var n := |strings|;
    var sep := if n > 2 then ", " else " ";
    r := strings[0];
    assert strings[..1] == [strings[0]];
    for i := 0 to n - 1
      invariant i < n - 1 ==> r == Join(strings[..i + 1], sep)
      invariant i == n - 1 && i > 0 ==> r == Join(strings[..i], sep) + sep + "and " + strings[i]
      invariant n == 1 ==> r == strings[0]
    {
      var before := r;
      r := r + sep;
      if i == n - 2 {
        r := r + "and ";
      }
      r := r + strings[i + 1];
      if i < n - 2 {
        assert strings[..i + 2] == strings[..i + 1] + [strings[i + 1]];
        JoinSnoc(strings[..i + 1], strings[i + 1], sep);
      } else {
        assert before == Join(strings[..i + 1], sep);
      }
    }
  }

  /** The three examples of the documentation. */
  lemma JoinedWithAndExamples()
    ensures JoinedWithAnd(["a", "b", "c"]) == "a, b, and c"
    ensures JoinedWithAnd(["a", "b"]) == "a and b"
    ensures JoinedWithAnd(["a"]) == "a"
  {
    assert ["a", "b", "c"][..2] == ["a", "b"];
    assert Join(["a", "b"], ", ") == "a" + ", " + Join(["b"], ", ");
  }

  /** With two or more names, the last comes right after `and `. */
  lemma {:induction false} JoinedWithAndEnds(strings: seq<string>)
    requires |strings| >= 2
    ensures EndsWith(JoinedWithAnd(strings), "and " + strings[|strings| - 1])
  {
    var n := |strings|;
    var last := strings[n - 1];
    var r := JoinedWithAnd(strings);
    var head := if n == 2 then strings[0] + " " else Join(strings[..n - 1], ", ") + ", ";
    assert r == head + ("and " + last);
    assert r[|r| - |"and " + last|..] == "and " + last;
  }

  // ---------------------------------------------------------------- NotifiedCallback

  /** The files after touching each of `paths` in order: each is created or given the time `now`. */
  function Touched(files: map<string, int>, paths: seq<string>, now: int): map<string, int>
  {
    if paths == [] then files
    else Touched(files, paths[..|paths| - 1], now)[paths[|paths| - 1] := now]
  }

  /** Every path touched has the time `now`, every other file is left as it was, and nothing else appears. */
  lemma {:induction false} TouchedSpec(files: map<string, int>, paths: seq<string>, now: int)
    ensures var r := Touched(files, paths, now);
            (forall p :: p in paths ==> p in r && r[p] == now) &&
            (forall p :: p in files && p !in paths ==> p in r && r[p] == files[p]) &&
            (forall p :: p in r ==> p in files || p in paths)
  {
    if paths != [] {
      var init := paths[..|paths| - 1];
      TouchedSpec(files, init, now);
      assert paths == init + [paths[|paths| - 1]];
    }
  }

  /** The notified markers of the grades, in order. */
  function Markers(basedir: string, grades: seq<Grade>): (r: seq<string>)
    ensures |r| == |grades| && forall k :: 0 <= k < |grades| ==> r[k] == Storage.NotifiedPath(basedir, grades[k])
  {
    seq(|grades|, k requires 0 <= k < |grades| => Storage.NotifiedPath(basedir, grades[k]))
  }

  /** A notified marker is never a grade file, whichever grades the two belong to. */
  lemma MarkerIsNoGradeFile(basedir: string, g: Grade, h: Grade)
    ensures Storage.NotifiedPath(basedir, g) != Storage.GradePath(basedir, h)
  {
    var n := Storage.NotifiedPath(basedir, g);
    var f := Storage.GradePath(basedir, h);
    assert EndsWith(n, "notified") && EndsWith(f, "grade");
    assert n[|n| - 1] == 'd' && f[|f| - 1] == 'e';
  }

  /** No grade file is among the markers. */
  lemma GradeFileIsNoMarker(basedir: string, grades: seq<Grade>, h: Grade)
    ensures Storage.GradePath(basedir, h) !in Markers(basedir, grades)
  {
    var m := Markers(basedir, grades);
    forall k | 0 <= k < |m| ensures m[k] != Storage.GradePath(basedir, h) {
      MarkerIsNoGradeFile(basedir, grades[k], h);
    }
  }

  /**
   * `NotifiedCallback`: told whether the email went out, it touches the
   * notified marker of each of its grades, or nothing at all.
   */
  class NotifiedCallback {
    const store: Storage.Store
    const grades: seq<Grade>

    constructor (store: Storage.Store, grades: seq<Grade>)
      ensures this.store == store && this.grades == grades
    {
      this.store := store;
      this.grades := grades;
    }

    method Call(success: bool, now: int)
      modifies store
      ensures store.files == if success then Touched(old(store.files), Markers(store.basedir, grades), now)
                             else old(store.files)
      ensures success ==> forall g :: g in grades ==> Storage.NotifiedPath(store.basedir, g) in store.files
      ensures success ==> forall g :: (g in grades && Storage.GradePath(store.basedir, g) in old(store.files) &&
                                       old(store.files)[Storage.GradePath(store.basedir, g)] < now) ==> store.IsNotified(g)
    {
      if success {
        TouchMarkers(store, grades, now);
        MarkersTouched(old(store.files), store.basedir, grades, now);
      }
    }
  }

  /** The loop of the callback: `set_notified` for each grade, in order. */
  method TouchMarkers(store: Storage.Store, grades: seq<Grade>, now: int)
    modifies store
    ensures store.files == Touched(old(store.files), Markers(store.basedir, grades), now)
  {
    ghost var markers := Markers(store.basedir, grades);
    var i := 0;
    while i < |grades|
      invariant 0 <= i <= |grades|
      invariant store.files == Touched(old(store.files), markers[..i], now)
    {
      store.SetNotified(grades[i], now);
      assert markers[..i + 1][..i] == markers[..i];
      assert Touched(old(store.files), markers[..i + 1], now) == Touched(old(store.files), markers[..i], now)[markers[i] := now];
      i := i + 1;
    }
    assert markers[..i] == markers;
  }

  /** Touching the markers gives each grade its marker at `now` and leaves every grade file alone. */
  lemma MarkersTouched(files: map<string, int>, basedir: string, grades: seq<Grade>, now: int)
    ensures var r := Touched(files, Markers(basedir, grades), now);
            (forall g :: g in grades ==> Storage.NotifiedPath(basedir, g) in r && r[Storage.NotifiedPath(basedir, g)] == now) &&
            (forall h :: Storage.GradePath(basedir, h) in files ==>
                           Storage.GradePath(basedir, h) in r && r[Storage.GradePath(basedir, h)] == files[Storage.GradePath(basedir, h)])
  {
    var markers := Markers(basedir, grades);
    TouchedSpec(files, markers, now);
    forall g | g in grades ensures Storage.NotifiedPath(basedir, g) in markers {
      var k :| 0 <= k < |grades| && grades[k] == g;
      assert markers[k] == Storage.NotifiedPath(basedir, g);
    }
    forall h ensures Storage.GradePath(basedir, h) !in markers {
      GradeFileIsNoMarker(basedir, grades, h);
    }
  }

  // ---------------------------------------------------------------- the composed emails

  /**
   * A composed notification: author, recipients, subject, and the grades
   * its text lists, in the order it lists them.
   */
  datatype Email = Email(author: Person, targets: seq<Person>, subject: string, grades: seq<Grade>)

  /** `construct_assignment_email`: one grade, to its student. */
  function AssignmentEmail(author: Person, g: Grade): (e: Email)
    ensures e.targets == [g.student] && e.grades == [g]
  {
    Email(author, [g.student], "Your " + g.assignment.name + " grade", [g])
  }

  /** An email and the callback to run once it is sent, named by the grades it marks. */
  type Composed = (Email, seq<Grade>)

  /** `_assignment_email` over the given students: each one graded and not yet notified, in order. */
  function Notices(grades: seq<Grade>, author: Person, a: Assignment, students: seq<Person>): seq<Composed>
  {
    if students == [] then []
    else
      (match GradeOf(grades, students[0], a)
       case None => []
       case Some(g) => if g.notified then [] else [(AssignmentEmail(author, g), [g])]) +
      Notices(grades, author, a, students[1..])
  }

  /** The students `_assignment_email` visits: the one asked for, or everybody. */
  function AssignmentEmails(c: Course, author: Person, a: Assignment, student: Option<Person>): seq<Composed>
  {
    Notices(c.grades, author, a, if student.Some? then [student.value] else c.people)
  }

  /** Every notice is for a visited student's grade that was not notified, and its callback covers that grade alone. */
  lemma {:induction false} NoticeOf(grades: seq<Grade>, author: Person, a: Assignment, students: seq<Person>, x: Composed)
    returns (s: Person)
    requires x in Notices(grades, author, a, students)
    ensures s in students && GradeOf(grades, s, a).Some?
    ensures var g := GradeOf(grades, s, a).value; !g.notified && x == (AssignmentEmail(author, g), [g])
  {
    var first := match GradeOf(grades, students[0], a)
                 case None => []
                 case Some(g) => if g.notified then [] else [(AssignmentEmail(author, g), [g])];
    if x in first {
      s := students[0];
    } else {
      s := NoticeOf(grades, author, a, students[1..], x);
    }
  }

  /** Every visited student with a grade not yet notified gets the notice. */
  lemma {:induction false} NoticeFor(grades: seq<Grade>, author: Person, a: Assignment, students: seq<Person>, i: nat)
    requires i < |students| && GradeOf(grades, students[i], a).Some? && !GradeOf(grades, students[i], a).value.notified
    ensures var g := GradeOf(grades, students[i], a).value;
            (AssignmentEmail(author, g), [g]) in Notices(grades, author, a, students)
  {
    if i > 0 {
      NoticeFor(grades, author, a, students[1..], i - 1);
    }
  }

  /** `[g for g in course.grades if g.student == student]`, without the notified ones unless `old`. */
  function StudentGrades(grades: seq<Grade>, student: Person, includeOld: bool): (r: seq<Grade>)
    ensures forall g :: g in r <==> g in grades && g.student == student && (includeOld || !g.notified)
  {
    if grades == [] then []
    else
      (if grades[0].student == student && (includeOld || !grades[0].notified) then [grades[0]] else []) +
      StudentGrades(grades[1..], student, includeOld)
  }

  /** `construct_student_email`: the grades of one student, sorted; failing its assertion otherwise. */
  function StudentEmail(author: Person, grades: seq<Grade>): (r: Option<Email>)
    requires grades != []
  {
    if forall g :: g in grades ==> g.student == grades[0].student then
      Some(Email(author, [grades[0].student], "Your grade", Sorting.Sort(grades, GradeLt)))
    else None
  }

  /** The email lists exactly the given grades, in sorted order, to their one student. */
  lemma StudentEmailSorted(author: Person, grades: seq<Grade>)
    requires grades != []
    ensures StudentEmail(author, grades).Some? <==> forall g :: g in grades ==> g.student == grades[0].student
    ensures StudentEmail(author, grades).Some? ==>
              var e := StudentEmail(author, grades).value;
              e.targets == [grades[0].student] &&
              multiset(e.grades) == multiset(grades) && Sorting.SortedBy(e.grades, GradeLt)
  {
    GradeStrictOrder();
    Sorting.SortSorted(grades, GradeLt);
  }

  /** `_student_email` over the given students: each one with remaining grades, in order. */
  function Digests(grades: seq<Grade>, author: Person, students: seq<Person>, includeOld: bool): seq<Composed>
  {
    if students == [] then []
    else
      var mine := StudentGrades(grades, students[0], includeOld);
      (if mine == [] then [] else [(StudentEmail(author, mine).GetOr(Email(author, [], "", [])), mine)]) +
      Digests(grades, author, students[1..], includeOld)
  }

  /** The students `_student_email` visits: the one asked for, or everybody. */
  function StudentEmails(c: Course, author: Person, student: Option<Person>, includeOld: bool): seq<Composed>
  {
    Digests(c.grades, author, if student.Some? then [student.value] else c.people, includeOld)
  }

  /** A student's own grades always pass the one-student assertion. */
  lemma OwnGradesOneStudent(grades: seq<Grade>, student: Person, includeOld: bool, author: Person)
    requires StudentGrades(grades, student, includeOld) != []
    ensures StudentEmail(author, StudentGrades(grades, student, includeOld)).Some?
  {
    var mine := StudentGrades(grades, student, includeOld);
    assert mine[0] in mine;
  }

  /**
   * Every digest goes to a visited student, lists that student's grades
   * (the notified ones only when `old`), and its callback covers them all.
   */
  lemma {:induction false} DigestOf(grades: seq<Grade>, author: Person, students: seq<Person>, includeOld: bool, x: Composed)
    returns (s: Person)
    requires x in Digests(grades, author, students, includeOld)
    ensures s in students
    ensures var mine := StudentGrades(grades, s, includeOld);
            mine != [] && x.1 == mine && x.0.targets == [s] && multiset(x.0.grades) == multiset(mine)
  {
    var mine := StudentGrades(grades, students[0], includeOld);
    if mine != [] && x == (StudentEmail(author, mine).GetOr(Email(author, [], "", [])), mine) {
      s := students[0];
      OwnGradesOneStudent(grades, s, includeOld, author);
      StudentEmailSorted(author, mine);
      assert mine[0] in mine;
    } else {
      s := DigestOf(grades, author, students[1..], includeOld, x);
    }
  }

  /** A visited student without remaining grades gets no email. */
  lemma {:induction false} NoDigestWithoutGrades(grades: seq<Grade>, author: Person, students: seq<Person>, includeOld: bool,
                                                  x: Composed, student: Person)
    requires StudentGrades(grades, student, includeOld) == []
    requires x in Digests(grades, author, students, includeOld)
    ensures x.0.targets != [student]
  {
    var s := DigestOf(grades, author, students, includeOld, x);
  }
}
