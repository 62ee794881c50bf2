/**
 * `tabulate`: the course's grades as a table written to a stream one
 * coloured piece at a time. A header row names the graded assignments, one
 * row per graded student holds their points, a Total column follows when
 * every course assignment is graded, and two statistics rows may close it.
 *
 * The table is first described as a `Layout`: the pieces written, in order,
 * and the failure that stopped the writing if there was one. The methods
 * write to a `Color.Stream` and are proved to write exactly the rendering of
 * that layout.
 */
module Tabulate {

  import opened Outcome
  import opened Sorting
  import opened Seqs
  import opened PersonModel
  import opened AssignmentModel
  import opened GradeModel
  import opened CourseModel
  import Color

  /** How the writing can stop part way. */
  datatype Failure =
      /** The Total column's colour uses the header loop's index, unbound when that loop never ran. */
    | NameError
      /** `course.total` divides by an assignment worth no points. */
    | ZeroDivisionError

  /** One `_write_color` call: a string and the colour it is written in. */
  datatype Piece = Piece(text: string, color: Option<string>)

  /** The pieces written, in order, and the failure that stopped the writing. */
  datatype Layout = Layout(pieces: seq<Piece>, failure: Option<Failure>)

  /** The line end, written without colour. */
  const Newline: Piece := Piece("\n", None)

  /** The line between the grades and the statistics. */
  const Dashes: Piece := Piece("--\n", None)

  /** The Total column's title. */
  const TotalTitle: string := "Total"

  /** The statistics rows, in order. */
  const StatNames: seq<string> := ["Mean", "Std. Dev."]

  // ---------------------------------------------------------------- layout

  /** `[highlight, lowlight]`: the first column in one, then alternating. */
  function Shade(useColor: Option<bool>, k: nat): (r: Option<string>)
    ensures r == None || r == Some("blue")
  {
    var roles := Color.StandardColors(useColor);
    if k % 2 == 0 then roles.highlight else roles.lowlight
  }

  /** `a` then `b`, unless `a` already failed. */
  function Then(a: Layout, b: Layout): Layout
  {
    if a.failure.Some? then a else Layout(a.pieces + b.pieces, b.failure)
  }

  /** The layouts one after the other, up to the first failure. */
  function Chain(ls: seq<Layout>): Layout
  {
    if ls == [] then Layout([], None) else Then(Chain(ls[..|ls| - 1]), ls[|ls| - 1])
  }

  /** The Total column is shown when as many assignments are graded as the course has. */
  predicate TotalShown(c: Course)
  {
    |ActiveAssignments(c)| == |c.assignments|
  }

  /** One cell per column after the row label, each tab-prefixed, in alternating colours. */
  function Cells(texts: seq<string>, useColor: Option<bool>): (r: seq<Piece>)
    ensures |r| == |texts|
    ensures forall j :: 0 <= j < |texts| ==> r[j] == Piece("\t" + texts[j], Shade(useColor, j + 1))
  {
    seq(|texts|, j requires 0 <= j < |texts| => Piece("\t" + texts[j], Shade(useColor, j + 1)))
  }

  /**
   * A row of the table: its label, its cells, then the Total cell and the
   * line end. When the Total column is shown, `total` is the Total cell's
   * text, or `None` when computing it fails with `failure`.
   */
  function Line(lead: string, texts: seq<string>, useColor: Option<bool>, shown: bool, total: Option<string>,
                failure: Failure): Layout
  {
    var head := [Piece(lead, Shade(useColor, 0))] + Cells(texts, useColor);
    if !shown then Layout(head + [Newline], None)
    else if total.None? then Layout(head, Some(failure))
    else Layout(head + [Piece("\t" + total.value, Shade(useColor, |texts| + 1)), Newline], None)
  }

  function Names(cols: seq<Assignment>): (r: seq<string>)
    ensures |r| == |cols| && forall j :: 0 <= j < |cols| ==> r[j] == cols[j].name
  {
    seq(|cols|, j requires 0 <= j < |cols| => cols[j].name)
  }

  /**
   * The header: "Student", the columns' names, "Total" when shown. With no
   * column the colour of "Total" is taken from an unbound loop variable, so
   * there is no total to write and the line fails with a NameError.
   */
  function Header(cols: seq<Assignment>, shown: bool, useColor: Option<bool>): Layout
  {
    Line("Student", Names(cols), useColor, shown, if cols == [] then None else Some(TotalTitle), NameError)
  }

  /** `str(grade.points)`, or `-` when `course.grade` finds no grade. */
  function CellText(grades: seq<Grade>, s: Person, a: Assignment, showPoints: real -> string): string
  {
    match GradeOf(grades, s, a)
    case None => "-"
    case Some(g) => showPoints(g.points)
  }

  function GradeTexts(grades: seq<Grade>, s: Person, cols: seq<Assignment>, showPoints: real -> string)
    : (r: seq<string>)
    ensures |r| == |cols| && forall j :: 0 <= j < |cols| ==> r[j] == CellText(grades, s, cols[j], showPoints)
  {
    seq(|cols|, j requires 0 <= j < |cols| => CellText(grades, s, cols[j], showPoints))
  }

  /** One student's row: the name, a cell per graded assignment, and the total when shown. */
  function Row(c: Course, cols: seq<Assignment>, shown: bool, s: Person, useColor: Option<bool>,
               showPoints: real -> string, showTotal: real -> string): Layout
  {
    var total := match TotalOf(c.assignments, c.grades, s) case None => None case Some(t) => Some(showTotal(t));
    Line(s.name, GradeTexts(c.grades, s, cols, showPoints), useColor, shown, total, ZeroDivisionError)
  }

  function RowOf(c: Course, cols: seq<Assignment>, shown: bool, useColor: Option<bool>, showPoints: real -> string,
                 showTotal: real -> string): Person -> Layout
  {
    s => Row(c, cols, shown, s, useColor, showPoints, showTotal)
  }

  /** The points of every grade on `a`, in grade order. */
  function PointsOn(grades: seq<Grade>, a: Assignment): seq<real>
  {
    if grades == [] then []
    else
      var g := grades[|grades| - 1];
      PointsOn(grades[..|grades| - 1], a) + (if g.assignment == a then [g.points] else [])
  }

  /** Every student's total, or `None` when one of them cannot be computed. */
  function Totals(c: Course, students: seq<Person>): (r: Option<seq<real>>)
    ensures r.Some? ==> |r.value| == |students|
  {
    if students == [] then Some([])
    else
      match Totals(c, students[..|students| - 1])
      case None => None
      case Some(ts) =>
        match TotalOf(c.assignments, c.grades, students[|students| - 1])
        case None => None
        case Some(t) => Some(ts + [t])
  }

  /** One statistic per column over the points of its grades; `cellStat` stands for numpy and `{:.2f}`. */
  function StatTexts(grades: seq<Grade>, stat: string, cols: seq<Assignment>, cellStat: (string, seq<real>) -> string)
    : (r: seq<string>)
    ensures |r| == |cols|
  {
    seq(|cols|, j requires 0 <= j < |cols| => cellStat(stat, PointsOn(grades, cols[j])))
  }

  /**
   * One statistics row. `cellStat(stat, points)` is the statistic of a
   * column's points to two decimals; `totalStat(stat, totals)` that of the
   * students' totals.
   */
  function StatRow(c: Course, cols: seq<Assignment>, shown: bool, students: seq<Person>, stat: string,
                   useColor: Option<bool>, cellStat: (string, seq<real>) -> string,
                   totalStat: (string, seq<real>) -> string): Layout
  {
    var total := match Totals(c, students) case None => None case Some(ts) => Some(totalStat(stat, ts));
    Line(stat, StatTexts(c.grades, stat, cols, cellStat), useColor, shown, total, ZeroDivisionError)
  }

  function StatRowOf(c: Course, cols: seq<Assignment>, shown: bool, students: seq<Person>, useColor: Option<bool>,
                     cellStat: (string, seq<real>) -> string, totalStat: (string, seq<real>) -> string)
    : string -> Layout
  {
    stat => StatRow(c, cols, shown, students, stat, useColor, cellStat, totalStat)
  }

  /** The `--` line, then the Mean and Std. Dev. rows. */
  function Statistics(c: Course, cols: seq<Assignment>, shown: bool, students: seq<Person>, useColor: Option<bool>,
                      cellStat: (string, seq<real>) -> string, totalStat: (string, seq<real>) -> string): Layout
  {
    Then(Layout([Dashes], None),
         Chain(MapSeq(StatNames, StatRowOf(c, cols, shown, students, useColor, cellStat, totalStat))))
  }

  /** Below the header: a row per student, then the statistics when asked for. */
  function Body(c: Course, cols: seq<Assignment>, shown: bool, students: seq<Person>, statistics: bool,
                useColor: Option<bool>, showPoints: real -> string, showTotal: real -> string,
                cellStat: (string, seq<real>) -> string, totalStat: (string, seq<real>) -> string): Layout
  {
    var rows := Chain(MapSeq(students, RowOf(c, cols, shown, useColor, showPoints, showTotal)));
    var stats := if statistics then Statistics(c, cols, shown, students, useColor, cellStat, totalStat)
                 else Layout([], None);
    Then(rows, stats)
  }

  /** `tabulate`: the header, a row per graded student, then the statistics when asked for. */
  function Table(c: Course, statistics: bool, useColor: Option<bool>, showPoints: real -> string,
                 showTotal: real -> string, cellStat: (string, seq<real>) -> string,
                 totalStat: (string, seq<real>) -> string): Layout
  {
    var cols := ActiveAssignments(c);
    var shown := TotalShown(c);
    Then(Header(cols, shown, useColor),
         Body(c, cols, shown, GradedStudents(c), statistics, useColor, showPoints, showTotal, cellStat, totalStat))
  }

  // ---------------------------------------------------------------- rendering

  /** The code `_ansi_color_code` gives the lowlight colour, blue: `ESC [ 3 4 m`. */
  const BlueCode: string := [Color.Escape, '[', '3', '4', 'm']

  /**
   * What `_write_color` puts on the stream for a piece in one of the table's
   * two colours: the text itself, or the text between blue's code and the
   * reset (`PaintStandard` shows this is what `color_string` gives).
   */
  function Paint(p: Piece): string
  {
    if p.color.Some? then BlueCode + p.text + Color.Reset else p.text
  }

  /** The stream text for the pieces, in order. */
  function Render(pieces: seq<Piece>): string
  {
    if pieces == [] then "" else Render(pieces[..|pieces| - 1]) + Paint(pieces[|pieces| - 1])
  }

  /** Appending one piece appends its painting. */
  lemma RenderSnoc(ps: seq<Piece>, p: Piece)
    ensures Render(ps + [p]) == Render(ps) + Paint(p)
  {
    assert (ps + [p])[..|ps|] == ps;
  }

  lemma RenderOne(p: Piece)
    ensures Render([p]) == Paint(p)
  {
    assert [p][..0] == [];
    assert Render([p]) == Render([]) + Paint(p);
  }

  /** Rendering distributes over concatenation. */
  lemma {:induction false} RenderAppend(a: seq<Piece>, b: seq<Piece>)
    ensures Render(a + b) == Render(a) + Render(b)
    decreases |b|
  {
    if b == [] {
      assert a + b == a;
    } else {
      var n := |b| - 1;
      RenderAppend(a, b[..n]);
      AppendSnoc(a, b);
      RenderSnoc(a + b[..n], b[n]);
      AppendAssoc(Render(a), Render(b[..n]), Paint(b[n]));
    }
  }

  /** The table's colours are known to `color_string`, so writing them never fails and gives the painted piece. */
  lemma PaintStandard(p: Piece)
    requires p.color == None || p.color == Some("blue")
    ensures Color.ColorString(p.text, p.color) == Ok(Paint(p))
  {
    assert Color.Palette[4] == "blue";
  }

  function PiecesOf(l: Layout): seq<Piece>
  {
    l.pieces
  }

  /** Without colour, the stream receives exactly the pieces' texts, in order. */
  lemma {:induction false} RenderPlain(pieces: seq<Piece>)
    requires forall i :: 0 <= i < |pieces| ==> pieces[i].color == None
    ensures Render(pieces) == Flatten(MapSeq(pieces, (p: Piece) => p.text))
    decreases |pieces|
  {
    if pieces != [] {
      var n := |pieces| - 1;
      assert forall i :: 0 <= i < n ==> pieces[..n][i] == pieces[i];
      RenderPlain(pieces[..n]);
      assert pieces == pieces[..n] + [pieces[n]];
      MapSeqSnoc(pieces[..n], pieces[n], (p: Piece) => p.text);
      FlattenSnoc(MapSeq(pieces[..n], (p: Piece) => p.text), pieces[n].text);
    }
  }

  // ---------------------------------------------------------------- chaining

  lemma ChainStep(ls: seq<Layout>, k: nat)
    requires k < |ls|
    ensures Chain(ls[..k + 1]) == Then(Chain(ls[..k]), ls[k])
  {
    assert ls[..k + 1][..k] == ls[..k];
  }

  /** Once a layout fails, nothing after it is written and the failure stands. */
  lemma {:induction false} ChainStops(ls: seq<Layout>, k: nat)
    requires k <= |ls| && Chain(ls[..k]).failure.Some?
    ensures Chain(ls) == Chain(ls[..k])
    decreases |ls|
  {
    if k == |ls| {
      assert ls[..k] == ls;
    } else {
      var n := |ls| - 1;
      assert ls[..n][..k] == ls[..k];
      ChainStops(ls[..n], k);
    }
  }

  /** The chain succeeds exactly when every layout in it does. */
  lemma {:induction false} ChainSucceeds(ls: seq<Layout>)
    ensures Chain(ls).failure.None? <==> forall i :: 0 <= i < |ls| ==> ls[i].failure.None?
    decreases |ls|
  {
    if ls != [] {
      var n := |ls| - 1;
      ChainSucceeds(ls[..n]);
      assert forall i :: 0 <= i < n ==> ls[..n][i] == ls[i];
    }
  }

  /** A chain can only fail the way one of its layouts does. */
  lemma {:induction false} ChainFailsWith(ls: seq<Layout>, f: Failure)
    requires forall i :: 0 <= i < |ls| ==> ls[i].failure.None? || ls[i].failure == Some(f)
    ensures Chain(ls).failure.None? || Chain(ls).failure == Some(f)
    decreases |ls|
  {
    if ls != [] {
      var n := |ls| - 1;
      assert forall i :: 0 <= i < n ==> ls[..n][i] == ls[i];
      ChainFailsWith(ls[..n], f);
    }
  }

  /** A chain that succeeds writes every layout's pieces, one after the other. */
  lemma {:induction false} ChainPieces(ls: seq<Layout>)
    requires Chain(ls).failure.None?
    ensures Chain(ls).pieces == Flatten(MapSeq(ls, PiecesOf))
    decreases |ls|
  {
    if ls != [] {
      var n := |ls| - 1;
      assert Chain(ls[..n]).failure.None?;
      ChainPieces(ls[..n]);
      assert ls == ls[..n] + [ls[n]];
      MapSeqSnoc(ls[..n], ls[n], PiecesOf);
      FlattenSnoc(MapSeq(ls[..n], PiecesOf), ls[n].pieces);
    }
  }

  // ---------------------------------------------------------------- the table's shape

  /**
   * Every row starts with its label in the highlight colour, then one
   * tab-prefixed cell per column in alternating colours; the Total cell
   * follows only when the Total column is shown, and a row that is not cut
   * short ends with the line end.
   */
  lemma LineShape(lead: string, texts: seq<string>, useColor: Option<bool>, shown: bool, total: Option<string>,
                  failure: Failure)
    ensures var l := Line(lead, texts, useColor, shown, total, failure);
            |l.pieces| > |texts| && l.pieces[0] == Piece(lead, Shade(useColor, 0)) &&
            (forall j :: 0 <= j < |texts| ==> l.pieces[1 + j] == Piece("\t" + texts[j], Shade(useColor, j + 1))) &&
            (l.failure.Some? <==> shown && total.None?) &&
            (l.failure.Some? ==> l.failure == Some(failure) && |l.pieces| == |texts| + 1) &&
            (l.failure.None? ==> l.pieces[|l.pieces| - 1] == Newline &&
                                 |l.pieces| == |texts| + (if shown then 3 else 2)) &&
            (shown && total.Some? ==>
               l.pieces[|texts| + 1] == Piece("\t" + total.value, Shade(useColor, |texts| + 1)))
  {
    var first := Piece(lead, Shade(useColor, 0));
    var cells := Cells(texts, useColor);
    var head := [first] + cells;
    ConsIndex(first, cells);
    var l := Line(lead, texts, useColor, shown, total, failure);
    if !shown {
      assert l.pieces == head + [Newline];
      PrefixIndex(head, [Newline]);
    } else if total.Some? {
      var last := Piece("\t" + total.value, Shade(useColor, |texts| + 1));
      assert l.pieces == head + [last, Newline];
      PrefixIndex(head, [last, Newline]);
    }
  }

  /**
   * The header names the graded assignments in the sorted, duplicate-free
   * order `ActiveAssignments` gives them, with "Total" after them exactly when as many assignments are
   * graded as the course has; it fails with a `NameError` right after
   * "Student" exactly when the course has no assignments and no grades.
   */
  lemma HeaderShape(c: Course, useColor: Option<bool>)
    ensures var cols := ActiveAssignments(c);
            var h := Header(cols, TotalShown(c), useColor);
            |h.pieces| > |cols| && h.pieces[0] == Piece("Student", Shade(useColor, 0)) &&
            (forall j :: 0 <= j < |cols| ==> h.pieces[1 + j] == Piece("\t" + cols[j].name, Shade(useColor, j + 1))) &&
            (h.failure.Some? <==> c.assignments == [] && c.grades == []) &&
            (h.failure.Some? ==> h.failure == Some(NameError) && |h.pieces| == 1) &&
            (h.failure.None? ==> h.pieces[|h.pieces| - 1] == Newline &&
                                 (h.pieces[|cols| + 1].text == "\t" + TotalTitle <==> TotalShown(c)))
  {
    ActiveAssignmentsSpec(c);
    var cols := ActiveAssignments(c);
    var shown := TotalShown(c);
    if c.grades != [] {
      assert c.grades[0].assignment in cols;
    }
    assert cols == [] <==> c.grades == [];
    var names := Names(cols);
    var total := if cols == [] then None else Some(TotalTitle);
    LineShape("Student", names, useColor, shown, total, NameError);
    var h := Line("Student", names, useColor, shown, total, NameError);
    assert Header(cols, shown, useColor) == h;
    if h.failure.None? && !shown {
      assert h.pieces[|cols| + 1] == Newline;
      assert |Newline.text| != |"\t" + TotalTitle|;
    }
  }

  /**
   * A student's row: the name, then per column the points or `-` when no
   * grade is found, then the total when shown; it fails with a
   * `ZeroDivisionError` after the cells exactly when the total is shown but
   * cannot be computed.
   */
  lemma RowShape(c: Course, cols: seq<Assignment>, shown: bool, s: Person, useColor: Option<bool>,
                 showPoints: real -> string, showTotal: real -> string)
    ensures var r := Row(c, cols, shown, s, useColor, showPoints, showTotal);
            |r.pieces| > |cols| && r.pieces[0] == Piece(s.name, Shade(useColor, 0)) &&
            (forall j :: 0 <= j < |cols| && GradeOf(c.grades, s, cols[j]).None? ==> r.pieces[1 + j].text == "\t-") &&
            (forall j :: 0 <= j < |cols| && GradeOf(c.grades, s, cols[j]).Some? ==>
               r.pieces[1 + j].text == "\t" + showPoints(GradeOf(c.grades, s, cols[j]).value.points)) &&
            (r.failure.Some? <==> shown && TotalOf(c.assignments, c.grades, s).None?) &&
            (r.failure.Some? ==> r.failure == Some(ZeroDivisionError) && |r.pieces| == |cols| + 1) &&
            (r.failure.None? ==> r.pieces[|r.pieces| - 1] == Newline && |r.pieces| == |cols| + (if shown then 3 else 2)) &&
            (r.failure.None? && shown ==>
               r.pieces[|cols| + 1].text == "\t" + showTotal(TotalOf(c.assignments, c.grades, s).value))
  {
    var total := match TotalOf(c.assignments, c.grades, s) case None => None case Some(t) => Some(showTotal(t));
    LineShape(s.name, GradeTexts(c.grades, s, cols, showPoints), useColor, shown, total, ZeroDivisionError);
  }

  /** Every student's total, in order, exactly when each of them can be computed. */
  lemma {:induction false} TotalsSome(c: Course, students: seq<Person>)
    ensures Totals(c, students).Some? <==>
            forall k :: 0 <= k < |students| ==> TotalOf(c.assignments, c.grades, students[k]).Some?
    ensures Totals(c, students).Some? ==>
            forall k :: 0 <= k < |students| ==>
              Some(Totals(c, students).value[k]) == TotalOf(c.assignments, c.grades, students[k])
    decreases |students|
  {
    if students != [] {
      var n := |students| - 1;
      TotalsSome(c, students[..n]);
      assert forall k :: 0 <= k < n ==> students[..n][k] == students[k];
    }
  }

  /** The student rows all get written exactly when no shown total fails. */
  lemma RowsSucceed(c: Course, cols: seq<Assignment>, shown: bool, students: seq<Person>, useColor: Option<bool>,
                    showPoints: real -> string, showTotal: real -> string)
    ensures Chain(MapSeq(students, RowOf(c, cols, shown, useColor, showPoints, showTotal))).failure.None? <==>
            (shown ==> forall k :: 0 <= k < |students| ==> TotalOf(c.assignments, c.grades, students[k]).Some?)
    ensures Chain(MapSeq(students, RowOf(c, cols, shown, useColor, showPoints, showTotal))).failure
              in {None, Some(ZeroDivisionError)}
  {
    var rows := MapSeq(students, RowOf(c, cols, shown, useColor, showPoints, showTotal));
    MapSeqAll(students, RowOf(c, cols, shown, useColor, showPoints, showTotal));
    ChainSucceeds(rows);
    forall k | 0 <= k < |students|
      ensures rows[k].failure.None? <==> !shown || TotalOf(c.assignments, c.grades, students[k]).Some?
      ensures rows[k].failure.None? || rows[k].failure == Some(ZeroDivisionError)
    {
      RowShape(c, cols, shown, students[k], useColor, showPoints, showTotal);
    }
    ChainFailsWith(rows, ZeroDivisionError);
  }

  /** The statistics rows fail under the same condition as the student rows. */
  lemma StatsSucceed(c: Course, cols: seq<Assignment>, shown: bool, students: seq<Person>, useColor: Option<bool>,
                     cellStat: (string, seq<real>) -> string, totalStat: (string, seq<real>) -> string)
    ensures Chain(MapSeq(StatNames, StatRowOf(c, cols, shown, students, useColor, cellStat, totalStat))).failure.None?
            <==> (shown ==> forall k :: 0 <= k < |students| ==> TotalOf(c.assignments, c.grades, students[k]).Some?)
    ensures Chain(MapSeq(StatNames, StatRowOf(c, cols, shown, students, useColor, cellStat, totalStat))).failure
              in {None, Some(ZeroDivisionError)}
  {
    var stats := MapSeq(StatNames, StatRowOf(c, cols, shown, students, useColor, cellStat, totalStat));
    MapSeqAll(StatNames, StatRowOf(c, cols, shown, students, useColor, cellStat, totalStat));
    ChainSucceeds(stats);
    TotalsSome(c, students);
    forall m | 0 <= m < |StatNames|
      ensures stats[m].failure.None? <==> !shown || Totals(c, students).Some?
      ensures stats[m].failure.None? || stats[m].failure == Some(ZeroDivisionError)
    {
      var stat := StatNames[m];
      var total := match Totals(c, students) case None => None case Some(ts) => Some(totalStat(stat, ts));
      LineShape(stat, StatTexts(c.grades, stat, cols, cellStat), useColor, shown, total, ZeroDivisionError);
    }
    ChainFailsWith(stats, ZeroDivisionError);
  }

  /**
   * `tabulate` raises a `NameError` exactly when the course has no
   * assignments and no grades, and a `ZeroDivisionError` exactly when the
   * Total column is shown and some graded student's total divides by zero;
   * asking for statistics never adds a failure.
   */
  lemma TableFailure(c: Course, statistics: bool, useColor: Option<bool>, showPoints: real -> string,
                     showTotal: real -> string, cellStat: (string, seq<real>) -> string,
                     totalStat: (string, seq<real>) -> string)
    ensures var t := Table(c, statistics, useColor, showPoints, showTotal, cellStat, totalStat);
            (t.failure == Some(NameError) <==> c.assignments == [] && c.grades == []) &&
            (t.failure == Some(ZeroDivisionError) <==>
               TotalShown(c) && exists g :: g in c.grades && TotalOf(c.assignments, c.grades, g.student).None?)
  {
    var cols := ActiveAssignments(c);
    var shown := TotalShown(c);
    var students := GradedStudents(c);
    HeaderShape(c, useColor);
    GradedStudentsSpec(c);
    RowsSucceed(c, cols, shown, students, useColor, showPoints, showTotal);
    StatsSucceed(c, cols, shown, students, useColor, cellStat, totalStat);
    var head := Header(cols, shown, useColor);
    var rows := Chain(MapSeq(students, RowOf(c, cols, shown, useColor, showPoints, showTotal)));
    var body := Body(c, cols, shown, students, statistics, useColor, showPoints, showTotal, cellStat, totalStat);
    assert Table(c, statistics, useColor, showPoints, showTotal, cellStat, totalStat) == Then(head, body);
    if rows.failure.Some? {
      var k :| 0 <= k < |students| && TotalOf(c.assignments, c.grades, students[k]).None?;
      assert students[k] in students;
    } else if shown {
      forall g | g in c.grades
        ensures TotalOf(c.assignments, c.grades, g.student).Some?
      {
        assert g.student in students;
      }
    }
  }


  /**
   * Below the header, a body written in full is each student's row in order
   * and, when asked for, the `--` line and the statistics rows; with or
   * without statistics it fails the same way, after the same pieces.
   */
  lemma BodySections(c: Course, cols: seq<Assignment>, shown: bool, students: seq<Person>, statistics: bool,
                     useColor: Option<bool>, showPoints: real -> string, showTotal: real -> string,
                     cellStat: (string, seq<real>) -> string, totalStat: (string, seq<real>) -> string)
    ensures var b := Body(c, cols, shown, students, statistics, useColor, showPoints, showTotal, cellStat, totalStat);
            var plain := Body(c, cols, shown, students, false, useColor, showPoints, showTotal, cellStat, totalStat);
            b.failure == plain.failure &&
            (b.failure.Some? ==> b.pieces == plain.pieces) &&
            (b.failure.None? ==>
               b.pieces == Flatten(MapSeq(MapSeq(students, RowOf(c, cols, shown, useColor, showPoints, showTotal)),
                                          PiecesOf)) +
                           (if statistics
                            then [Dashes] + Flatten(MapSeq(MapSeq(StatNames, StatRowOf(c, cols, shown, students,
                                                                                       useColor, cellStat, totalStat)),
                                                           PiecesOf))
                            else []))
  {
    var layouts := MapSeq(students, RowOf(c, cols, shown, useColor, showPoints, showTotal));
    var statRows := MapSeq(StatNames, StatRowOf(c, cols, shown, students, useColor, cellStat, totalStat));
    RowsSucceed(c, cols, shown, students, useColor, showPoints, showTotal);
    StatsSucceed(c, cols, shown, students, useColor, cellStat, totalStat);
    if Chain(layouts).failure.None? {
      ChainPieces(layouts);
      ChainPieces(statRows);
      assert Chain(layouts).pieces + [] == Chain(layouts).pieces;
    }
  }

  /**
   * A table that is written in full is the header, each graded student's row
   * in order and, when asked for, the `--` line and the statistics rows; with
   * or without statistics it fails the same way, after the same pieces.
   */
  lemma TableSections(c: Course, statistics: bool, useColor: Option<bool>, showPoints: real -> string,
                      showTotal: real -> string, cellStat: (string, seq<real>) -> string,
                      totalStat: (string, seq<real>) -> string)
    ensures var cols := ActiveAssignments(c);
            var shown := TotalShown(c);
            var students := GradedStudents(c);
            var t := Table(c, statistics, useColor, showPoints, showTotal, cellStat, totalStat);
            var plain := Table(c, false, useColor, showPoints, showTotal, cellStat, totalStat);
            t.failure == plain.failure &&
            (t.failure.Some? ==> t.pieces == plain.pieces) &&
            (t.failure.None? ==>
               t.pieces == Header(cols, shown, useColor).pieces +
                           Body(c, cols, shown, students, statistics, useColor, showPoints, showTotal, cellStat,
                                totalStat).pieces)
  {
    var cols := ActiveAssignments(c);
    var shown := TotalShown(c);
    var students := GradedStudents(c);
    BodySections(c, cols, shown, students, statistics, useColor, showPoints, showTotal, cellStat, totalStat);
  }

  // ---------------------------------------------------------------- writing

  /** Writing one more piece after what was written. */
  lemma Wrote(before: string, ps: seq<Piece>, p: Piece)
    ensures before + Render(ps) + Paint(p) == before + Render(ps + [p])
  {
    RenderSnoc(ps, p);
    AppendAssoc(before, Render(ps), Paint(p));
  }

  /** `written` is `before` followed by the first `k` layouts of a chain, none of which failed. */
  predicate WroteChain(before: string, written: string, ls: seq<Layout>, k: nat)
  {
    k <= |ls| && Chain(ls[..k]).failure.None? && written == before + Render(Chain(ls[..k]).pieces)
  }

  /** Nothing of a chain is written yet. */
  lemma ChainBegin(before: string, ls: seq<Layout>)
    ensures WroteChain(before, before, ls, 0)
  {
    assert ls[..0] == [];
    assert before + Render([]) == before;
  }

  /**
   * Writing the next layout of a chain: either the chain goes on, or that
   * layout failed and the whole chain has been written up to its failure.
   */
  lemma ChainNext(before: string, mid: string, after: string, ls: seq<Layout>, k: nat)
    requires WroteChain(before, mid, ls, k) && k < |ls| && after == mid + Render(ls[k].pieces)
    ensures ls[k].failure.None? ==> WroteChain(before, after, ls, k + 1)
    ensures ls[k].failure.Some? ==> after == before + Render(Chain(ls).pieces) && Chain(ls).failure == ls[k].failure
  {
    ChainWrote(before, ls, k);
    if ls[k].failure.Some? {
      ChainStops(ls, k + 1);
    }
  }

  /** A chain written to its end without a failure. */
  lemma ChainEnd(before: string, written: string, ls: seq<Layout>, k: nat)
    requires WroteChain(before, written, ls, k) && |ls| <= k
    ensures written == before + Render(Chain(ls).pieces) && Chain(ls).failure.None?
  {
    assert ls[..k] == ls;
  }

  /** Writing pieces after others writes their concatenation. */
  lemma WroteBoth(before: string, a: seq<Piece>, b: seq<Piece>, mid: string, after: string)
    requires mid == before + Render(a) && after == mid + Render(b)
    ensures after == before + Render(a + b)
  {
    RenderAppend(a, b);
    AppendAssoc(before, Render(a), Render(b));
  }

  /** Writing a layout after one that succeeded writes their combination. */
  lemma ThenWrote(before: string, a: Layout, b: Layout, mid: string, after: string)
    requires mid == before + Render(a.pieces) && after == mid + Render(b.pieces)
    requires a.failure.None?
    ensures after == before + Render(Then(a, b).pieces) && Then(a, b).failure == b.failure
  {
    WroteBoth(before, a.pieces, b.pieces, mid, after);
  }

  /** Writing the next piece of a sequence after the ones before it. */
  lemma WroteNext(before: string, written: string, ps: seq<Piece>, i: nat)
    requires i < |ps| && written == before + Render(ps[..i])
    ensures written + Paint(ps[i]) == before + Render(ps[..i + 1])
  {
    TakeSnoc(ps, i);
    Wrote(before, ps[..i], ps[i]);
  }

  /** Writing the next layout of a chain after the ones before it. */
  lemma ChainWrote(before: string, ls: seq<Layout>, k: nat)
    requires k < |ls| && Chain(ls[..k]).failure.None?
    ensures before + Render(Chain(ls[..k]).pieces) + Render(ls[k].pieces) == before + Render(Chain(ls[..k + 1]).pieces)
    ensures Chain(ls[..k + 1]).failure == ls[k].failure
  {
    ChainStep(ls, k);
    RenderAppend(Chain(ls[..k]).pieces, ls[k].pieces);
    AppendAssoc(before, Render(Chain(ls[..k]).pieces), Render(ls[k].pieces));
  }

  /** `_write_color` of one piece in a standard colour, which never fails. */
  method Put(p: Piece, stream: Color.Stream)
    requires p.color == None || p.color == Some("blue")
    modifies stream
    ensures stream.written == old(stream.written) + Paint(p)
  {
    PaintStandard(p);
    var r := Color.WriteColor(p.text, p.color, stream);
  }

  /** The first piece of a line, written on its own. */
  method WriteStart(first: Piece, stream: Color.Stream)
    requires first.color == None || first.color == Some("blue")
    modifies stream
    ensures stream.written == old(stream.written) + Render([first])
  {
    Put(first, stream);
    RenderOne(first);
  }

  /** The cells after a line's label, one per text, in order (lines 39-42, 50-58 and 68-80). */
  method WriteCells(texts: seq<string>, useColor: Option<bool>, stream: Color.Stream)
    modifies stream
    ensures stream.written == old(stream.written) + Render(Cells(texts, useColor))
  {
    ghost var cells := Cells(texts, useColor);
    assert cells[..0] == [];
    assert old(stream.written) + Render([]) == old(stream.written);
    var i := 0;
    while i < |texts|
      invariant 0 <= i <= |texts|
      invariant stream.written == old(stream.written) + Render(cells[..i])
    {
      ghost var mid := stream.written;
      Put(Piece("\t" + texts[i], Shade(useColor, i + 1)), stream);
      WroteNext(old(stream.written), mid, cells, i);
      i := i + 1;
    }
    assert cells[..i] == cells;
  }

  /**
   * One line of the table: the label, a cell per column in turn, then, when the
   * Total column is shown, the total followed by the newline. A missing total is
   * the failure the source raises there, after the cells are written.
   */
  method WriteLine(lead: string, texts: seq<string>, useColor: Option<bool>, shown: bool, total: Option<string>,
                   failure: Failure, stream: Color.Stream) returns (r: Option<Failure>)
    modifies stream
    ensures var l := Line(lead, texts, useColor, shown, total, failure);
            stream.written == old(stream.written) + Render(l.pieces) && r == l.failure
  {
    var first := Piece(lead, Shade(useColor, 0));
    WriteStart(first, stream);
    ghost var mid := stream.written;
    WriteCells(texts, useColor, stream);
    ghost var head := [first] + Cells(texts, useColor);
    WroteBoth(old(stream.written), [first], Cells(texts, useColor), mid, stream.written);
    if shown {
      if total.None? {
        return Some(failure);
      }
      var last := Piece("\t" + total.value, Shade(useColor, |texts| + 1));
      Put(last, stream);
      Wrote(old(stream.written), head, last);
      Put(Newline, stream);
      Wrote(old(stream.written), head + [last], Newline);
      SnocSnoc(head, last, Newline);
    } else {
      Put(Newline, stream);
      Wrote(old(stream.written), head, Newline);
    }
    r := None;
  }

  /** The header row (lines 38-47). */
  method WriteHeader(c: Course, cols: seq<Assignment>, useColor: Option<bool>, stream: Color.Stream)
    returns (failure: Option<Failure>)
    modifies stream
    ensures var h := Header(cols, |cols| == |c.assignments|, useColor);
            stream.written == old(stream.written) + Render(h.pieces) && failure == h.failure
  {
    var total := if cols == [] then None else Some(TotalTitle);
    failure := WriteLine("Student", Names(cols), useColor, |cols| == |c.assignments|, total, NameError, stream);
  }

  /** One student's row (lines 49-63); `course.grade` failing gives `-`. */
  method WriteRow(c: Course, cols: seq<Assignment>, s: Person, useColor: Option<bool>, showPoints: real -> string,
                  showTotal: real -> string, stream: Color.Stream) returns (failure: Option<Failure>)
    modifies stream
    ensures var r := Row(c, cols, |cols| == |c.assignments|, s, useColor, showPoints, showTotal);
            stream.written == old(stream.written) + Render(r.pieces) && failure == r.failure
  {
    var total: Option<string> := None;
    if |cols| == |c.assignments| {
      var sum := Total(c, s);
      if sum.Some? {
        total := Some(showTotal(sum.value));
      }
    }
    failure := WriteLine(s.name, GradeTexts(c.grades, s, cols, showPoints), useColor, |cols| == |c.assignments|,
                         total, ZeroDivisionError, stream);
  }

  /** One statistics row (lines 67-92), its values given by `cellStat` and `totalStat`. */
  method WriteStatRow(c: Course, cols: seq<Assignment>, students: seq<Person>, stat: string, useColor: Option<bool>,
                      cellStat: (string, seq<real>) -> string, totalStat: (string, seq<real>) -> string,
                      stream: Color.Stream) returns (failure: Option<Failure>)
    modifies stream
    ensures var r := StatRow(c, cols, |cols| == |c.assignments|, students, stat, useColor, cellStat, totalStat);
            stream.written == old(stream.written) + Render(r.pieces) && failure == r.failure
  {
    var totals := Totals(c, students);
    var total := if totals.None? then None else Some(totalStat(stat, totals.value));
    failure := WriteLine(stat, StatTexts(c.grades, stat, cols, cellStat), useColor, |cols| == |c.assignments|,
                         total, ZeroDivisionError, stream);
  }

  /** One turn of the rows loop: the next row is written, and the chain goes on or ends with its failure. */
  method WriteRowNext(c: Course, cols: seq<Assignment>, students: seq<Person>, useColor: Option<bool>,
                      showPoints: real -> string, showTotal: real -> string, stream: Color.Stream,
                      ghost before: string, ghost rows: seq<Layout>, k: nat)
    returns (failure: Option<Failure>)
    requires WroteChain(before, stream.written, rows, k) && k < |rows| == |students|
    requires forall k :: 0 <= k < |rows| ==>
               rows[k] == Row(c, cols, |cols| == |c.assignments|, students[k], useColor, showPoints, showTotal)
    modifies stream
    ensures failure == rows[k].failure
    ensures failure.None? ==> WroteChain(before, stream.written, rows, k + 1)
    ensures failure.Some? ==> stream.written == before + Render(Chain(rows).pieces) && Chain(rows).failure == failure
  {
    ghost var mid := stream.written;
    failure := WriteRow(c, cols, students[k], useColor, showPoints, showTotal, stream);
    ChainNext(before, mid, stream.written, rows, k);
  }

  /** `stats` are the statistics rows named `names`, in order. */
  predicate StatRowsAre(stats: seq<Layout>, c: Course, cols: seq<Assignment>, students: seq<Person>, names: seq<string>,
                        useColor: Option<bool>, cellStat: (string, seq<real>) -> string,
                        totalStat: (string, seq<real>) -> string)
  {
    |stats| == |names| &&
    forall m :: 0 <= m < |stats| ==>
      stats[m] == StatRow(c, cols, |cols| == |c.assignments|, students, names[m], useColor, cellStat, totalStat)
  }

  /** One turn of the statistics loop, in the same way. */
  method WriteStatRowNext(c: Course, cols: seq<Assignment>, students: seq<Person>, names: seq<string>,
                          useColor: Option<bool>, cellStat: (string, seq<real>) -> string,
                          totalStat: (string, seq<real>) -> string, stream: Color.Stream,
                          ghost before: string, ghost stats: seq<Layout>, m: nat)
    returns (failure: Option<Failure>)
    requires WroteChain(before, stream.written, stats, m) && m < |stats|
    requires StatRowsAre(stats, c, cols, students, names, useColor, cellStat, totalStat)
    modifies stream
    ensures failure == stats[m].failure
    ensures failure.None? ==> WroteChain(before, stream.written, stats, m + 1)
    ensures failure.Some? ==> stream.written == before + Render(Chain(stats).pieces) && Chain(stats).failure == failure
  {
    ghost var mid := stream.written;
    failure := WriteStatRow(c, cols, students, names[m], useColor, cellStat, totalStat, stream);
    ChainNext(before, mid, stream.written, stats, m);
  }

  /** The student rows, in order, up to the first that fails. */
  method WriteRows(c: Course, cols: seq<Assignment>, students: seq<Person>, useColor: Option<bool>,
                   showPoints: real -> string, showTotal: real -> string, stream: Color.Stream,
                   ghost rows: seq<Layout>)
    returns (failure: Option<Failure>)
    requires |rows| == |students|
    requires forall k :: 0 <= k < |rows| ==>
               rows[k] == Row(c, cols, |cols| == |c.assignments|, students[k], useColor, showPoints, showTotal)
    modifies stream
    ensures stream.written == old(stream.written) + Render(Chain(rows).pieces) && failure == Chain(rows).failure
  {
    ChainBegin(old(stream.written), rows);
    var k := 0;
    while k < |students|
      invariant WroteChain(old(stream.written), stream.written, rows, k)
    {
      var f := WriteRowNext(c, cols, students, useColor, showPoints, showTotal, stream, old(stream.written), rows, k);
      if f.Some? {
        return f;
      }
      k := k + 1;
    }
    ChainEnd(old(stream.written), stream.written, rows, k);
    failure := None;
  }

  /** The statistics rows named `names`, in order, up to the first that fails. */
  method WriteStatRows(c: Course, cols: seq<Assignment>, students: seq<Person>, names: seq<string>,
                       useColor: Option<bool>, cellStat: (string, seq<real>) -> string,
                       totalStat: (string, seq<real>) -> string, stream: Color.Stream, ghost stats: seq<Layout>)
    returns (failure: Option<Failure>)
    requires StatRowsAre(stats, c, cols, students, names, useColor, cellStat, totalStat)
    modifies stream
    ensures stream.written == old(stream.written) + Render(Chain(stats).pieces) && failure == Chain(stats).failure
  {
    ChainBegin(old(stream.written), stats);
    var m := 0;
    while m < |names|
      invariant WroteChain(old(stream.written), stream.written, stats, m)
    {
      var f := WriteStatRowNext(c, cols, students, names, useColor, cellStat, totalStat, stream, old(stream.written),
                                stats, m);
      if f.Some? {
        return f;
      }
      m := m + 1;
    }
    ChainEnd(old(stream.written), stream.written, stats, m);
    failure := None;
  }

  /** The `--` line, then the statistics rows (lines 64-92). */
  method WriteStatistics(c: Course, cols: seq<Assignment>, students: seq<Person>, useColor: Option<bool>,
                         cellStat: (string, seq<real>) -> string, totalStat: (string, seq<real>) -> string,
                         stream: Color.Stream, ghost stats: seq<Layout>) returns (failure: Option<Failure>)
    requires |stats| == |StatNames|
    requires forall m :: 0 <= m < |stats| ==>
               stats[m] == StatRow(c, cols, |cols| == |c.assignments|, students, StatNames[m], useColor, cellStat,
                                   totalStat)
    modifies stream
    ensures var st := Then(Layout([Dashes], None), Chain(stats));
            stream.written == old(stream.written) + Render(st.pieces) && failure == st.failure
  {
    WriteStart(Dashes, stream);
    ghost var start := stream.written;
    failure := WriteStatRows(c, cols, students, StatNames, useColor, cellStat, totalStat, stream, stats);
    ThenWrote(old(stream.written), Layout([Dashes], None), Chain(stats), start, stream.written);
  }

  /** The student rows, then the statistics when asked for (lines 48-92). */
  method WriteBody(c: Course, cols: seq<Assignment>, students: seq<Person>, statistics: bool,
                   useColor: Option<bool>, showPoints: real -> string, showTotal: real -> string,
                   cellStat: (string, seq<real>) -> string, totalStat: (string, seq<real>) -> string,
                   stream: Color.Stream) returns (failure: Option<Failure>)
    modifies stream
    ensures var b := Body(c, cols, |cols| == |c.assignments|, students, statistics, useColor, showPoints, showTotal,
                          cellStat, totalStat);
            stream.written == old(stream.written) + Render(b.pieces) && failure == b.failure
  {
    ghost var shown := |cols| == |c.assignments|;
    ghost var layouts := MapSeq(students, RowOf(c, cols, shown, useColor, showPoints, showTotal));
    ghost var rows := Chain(layouts);
    ghost var tail := if statistics then Statistics(c, cols, shown, students, useColor, cellStat, totalStat)
                      else Layout([], None);
    MapSeqAll(students, RowOf(c, cols, shown, useColor, showPoints, showTotal));
    failure := WriteRows(c, cols, students, useColor, showPoints, showTotal, stream, layouts);
    if failure.Some? {
      return;
    }
    ghost var done := stream.written;
    if statistics {
      ghost var statRows := MapSeq(StatNames, StatRowOf(c, cols, shown, students, useColor, cellStat, totalStat));
      MapSeqAll(StatNames, StatRowOf(c, cols, shown, students, useColor, cellStat, totalStat));
      failure := WriteStatistics(c, cols, students, useColor, cellStat, totalStat, stream, statRows);
    } else {
      assert done + Render(tail.pieces) == done;
    }
    ThenWrote(old(stream.written), rows, tail, done, stream.written);
  }

  /** `tabulate` (lines 28-92): the whole table, or the writes up to the failure. */
  method Tabulate(c: Course, statistics: bool, stream: Color.Stream, useColor: Option<bool>,
                  showPoints: real -> string, showTotal: real -> string,
                  cellStat: (string, seq<real>) -> string, totalStat: (string, seq<real>) -> string)
    returns (failure: Option<Failure>)
    modifies stream
    ensures var t := Table(c, statistics, useColor, showPoints, showTotal, cellStat, totalStat);
            stream.written == old(stream.written) + Render(t.pieces) && failure == t.failure
  {
    var cols := ActiveAssignments(c);
    var students := GradedStudents(c);
    failure := WriteHeader(c, cols, useColor, stream);
    if failure.Some? {
      return;
    }
    ghost var mid := stream.written;
    failure := WriteBody(c, cols, students, statistics, useColor, showPoints, showTotal, cellStat, totalStat, stream);
    ThenWrote(old(stream.written), Header(cols, |cols| == |c.assignments|, useColor),
              Body(c, cols, |cols| == |c.assignments|, students, statistics, useColor, showPoints, showTotal, cellStat,
                   totalStat), mid, stream.written);
  }
}
