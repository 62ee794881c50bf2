# pygrader, modelled in Dafny

pygrader runs a course's grading by email. A course directory holds a
configuration file that lists assignments and people, plus one grade file per
student and assignment. Inbound mail goes through a pipeline
(`mailpipe`). The pipeline works out who sent a message and checks its
PGP signature. From the `[tag]` in the subject it picks a handler:

- `submit` stores a submission and marks it late when it is;
- `get` answers grade requests: students get their own grades, staff get the
  table, a student's digest or a submission;
- `grade` lets staff set a grade.

Errors go back to the sender as responses. Templates compose the
notification emails. `tabulate` prints the grade table in colour, and `todo`
lists grading still to do.

This project models that core: the course model (`Assignment`, `Person`,
`Grade`, `Course`) and `storage` (loading, file names, ISO 8601 dates,
the late and notified marks). It also covers the pipeline's checks and error
responses, the three handlers, `extract_mime`, `template`, `tabulate`,
`color` and `todo`. Pure logic becomes datatypes and functions. Code that
loops or changes state becomes methods proved against those functions:

- the course directory and the outbox are classes whose methods change them;
- the table writer writes to a stream object.

Email, files and the clock become values or parameters.

Files:

| file | module | models |
|---|---|---|
| outcome.dfy | `Outcome` | `Option` and `Result` |
| seqs.dfy, text.dfy, sorting.dfy | `Seqs`, `Text`, `Sorting` | the list, `str` and `sorted` operations the source uses |
| assignment.dfy, person.dfy, grade.dfy, course.dfy | `AssignmentModel`, `PersonModel`, `GradeModel`, `CourseModel` | pygrader/model/ |
| dates.dfy, storage.dfy | `Dates`, `Storage` | pygrader/storage.py |
| color.dfy | `Color` | pygrader/color.py |
| mail.dfy | `Mail` | email messages as the pipeline sees them |
| handler.dfy | `Handler` | pygrader/handler/__init__.py and the error classes |
| mailpipe.dfy | `Mailpipe` | pygrader/mailpipe.py |
| submission.dfy, get.dfy, grade_handler.dfy | `SubmissionHandler`, `GetHandler`, `GradeHandler` | pygrader/handler/ |
| extract_mime.dfy | `ExtractMime` | pygrader/extract_mime.py |
| template.dfy | `Template` | pygrader/template.py |
| tabulate.dfy | `Tabulate` | pygrader/tabulate.py |
| todo.dfy | `Todo` | pygrader/todo.py |

## Model

| member | source | states |
|---|---|---|
| AssignmentModel.NewAssignment | pygrader/model/assignment.py:4-8 | every field is the argument given; the defaults are 1 point, weight 0 and due 0 |
| AssignmentModel.NewAssignmentDefaults | pygrader/model/assignment.py:4 | an assignment built from a name alone has 1 point, weight 0, due 0 and is not submittable |
| AssignmentModel.AssignmentString | pygrader/model/assignment.py:10-11 | `str(a)` is `<Assignment ` then the name then `>`, so the name can be read back from it |
| AssignmentModel.AssignmentLtStrict | pygrader/model/assignment.py:13-18 | `<` on assignments (due time first, then name) is irreflexive and transitive |
| AssignmentModel.AssignmentUnorderedIff | pygrader/model/assignment.py:13-18 | two assignments are unordered both ways exactly when they have the same due time and name |
| AssignmentModel.AssignmentStrictOrder | pygrader/model/assignment.py:13-18 | `<` on assignments is irreflexive and transitive, the ordering `sorted` relies on |
| PersonModel.NewPerson | pygrader/model/person.py:4-12 | fields are the arguments; empty aliases are replaced by the one-element list holding the name |
| PersonModel.AliasOfNew | pygrader/model/person.py:20-26 | `alias()` of a new person is the first alias given, or the name when none was given |
| PersonModel.PersonString | pygrader/model/person.py:14-15 | `str(p)` is `<Person ` then the name then `>` |
| PersonModel.PersonLtStrict | pygrader/model/person.py:17-18 | `<` on people (by name) is irreflexive and transitive |
| PersonModel.PersonUnorderedIffSameName | pygrader/model/person.py:17-18 | two people are unordered both ways exactly when their names are equal |
| PersonModel.PersonStrictOrder | pygrader/model/person.py:17-18 | `<` on people is irreflexive and transitive, the ordering `sorted` relies on |
| PersonModel.PersonTiesTransitive | pygrader/model/person.py:17-18 | people are tied exactly when their names agree, so ties are transitive |
| GradeModel.NewGrade | pygrader/model/grade.py:4-11 | every field is the argument given; by default there is no comment and the grade is neither late nor notified |
| GradeModel.GradeString | pygrader/model/grade.py:13-15 | `str(g)` is `<Grade ` then the student's name, `:`, the assignment's name, then `>` |
| GradeModel.GradeLtStrict | pygrader/model/grade.py:17-22 | `<` on grades (student first, then assignment) is irreflexive and transitive |
| GradeModel.GradeStrictOrder | pygrader/model/grade.py:17-22 | `<` on grades is irreflexive and transitive, the ordering `sorted` relies on |
| CourseModel.NewCourse | pygrader/model/course.py:21-33 | assignments, people and grades are each kept sorted and are permutations of the lists given, with `None` read as empty |
| CourseModel.NewCoursePeopleStable | pygrader/model/course.py:21-33 | people with the same name keep the order they were given in |
| CourseModel.AssignmentNamed | pygrader/model/course.py:35-39 | finds the first assignment with the name; it is absent (`ValueError`) exactly when no assignment has that name |
| CourseModel.MatchingMembers | pygrader/model/course.py:82-96 | a person is yielded by `find_people` exactly when they are in the course and match every criterion given (name or alias, email, group) |
| CourseModel.MatchingEverybody | pygrader/model/course.py:50-53 | with no criteria every person matches, in course order |
| CourseModel.MatchingTwice | pygrader/model/course.py:82-96 | filtering by two queries in turn keeps exactly the people that match both, in order |
| CourseModel.FindPeople | pygrader/model/course.py:82-96 | the loop yields exactly the matching people in course order |
| CourseModel.Matching | pygrader/model/course.py:82-96 | `find_people` yields no more people than the course has |
| CourseModel.MatchingAsWritten | pygrader/model/course.py:85 | `email in person.emails` raises `TypeError` exactly when some person has no email list |
| CourseModel.MatchingAsWrittenAgrees | pygrader/model/course.py:82-96 | when every person has an email list, the code as written yields the intended matches |
| CourseModel.FindPeopleWithoutEmailsFails | pygrader/model/course.py:85 | a search by email over a course holding a person without emails fails, where the intended search returns the match |
| CourseModel.UniquePerson | pygrader/model/course.py:98-101 | `person()` succeeds exactly when one person matches, and returns that person |
| CourseModel.GradeOf | pygrader/model/course.py:103-119 | the grade found belongs to the student and the assignment asked for |
| CourseModel.GradeOfNone | pygrader/model/course.py:116-119 | `grade()` raises `ValueError` exactly when no grade pairs the student with the assignment |
| CourseModel.GradeOfFirst | pygrader/model/course.py:116-118 | the grade returned is the first one in list order that matches |
| CourseModel.TotalDefinedMeans | pygrader/model/course.py:121-129 | `total()` raises no division by zero exactly when every assignment the student has a grade for has nonzero points |
| CourseModel.TotalOfMeans | pygrader/model/course.py:121-129 | the total either fails with a division by zero, exactly under that condition, or is the weighted sum of points/max·weight over the graded assignments |
| CourseModel.Total | pygrader/model/course.py:121-129 | the accumulating loop computes `TotalOf`: it stops with `None`, the source's `ZeroDivisionError`, exactly when a graded assignment is worth zero points, and otherwise gives the weighted sum, skipping ungraded assignments |
| CourseModel.TotalBounds | pygrader/model/course.py:121-129 | with positive maxima, nonnegative weights and points within range, the total lies between 0 and the weight of the graded assignments |
| CourseModel.TotalExample | pygrader/model/course.py:121-129 | 5/10 of weight 0.5 plus 1/3 of weight 0.5 totals 5/12 |
| CourseModel.TotalWithoutGrades | pygrader/model/course.py:121-129 | a student with no grades totals 0 |
| CourseModel.GradedAssignments | pygrader/model/course.py:42 | the assignments of the grades, in order, one per grade |
| CourseModel.ActiveAssignmentsSpec | pygrader/model/course.py:41-42 | `active_assignments()` is sorted, duplicate-free, and holds exactly the assignments some grade is for |
| CourseModel.GradedPeople | pygrader/model/course.py:42 | the students of the grades, in order, one per grade |
| CourseModel.GradedStudentsSpec | pygrader/tabulate.py:33-34 | the table's students are sorted, duplicate-free, and exactly those with some grade |
| CourseModel.ActiveGroups | pygrader/model/course.py:44-48 | `active_groups()` is sorted, duplicate-free, and holds exactly the groups some person belongs to |
| Handler.UnframeResponse | pygrader/handler/__init__.py:10-14 | the response text can be unframed again: salutation, text, and signature separate cleanly |
| Handler.ResponseTextInjective | pygrader/handler/__init__.py:10-14 | different texts give different responses to the same person |
| Handler.ResponseTextEnds | pygrader/handler/__init__.py:10-14 | the response starts with the alias and ends with `Yours,` and the robot's alias, with no trailing newline; its length is the three parts plus 12 |
| Handler.Respond | pygrader/handler/__init__.py:8-19 | exactly one response is passed to `respond`: from the robot to the person, with the subject, the framed text, and the original quoted |
| Handler.Raise | pygrader/mailpipe.py:49-87 | a fresh error carries its class, its text and the attributes its constructor sets, and nothing else |
| Handler.Annotate | pygrader/mailpipe.py:566-575 | a caught error gets the course and the original message; person, subject and target are set only when known and not already present |
| Handler.AnnotateIdempotent | pygrader/mailpipe.py:566-575 | annotating an annotated error again with the same values changes nothing |
| Sorting.Insert | pygrader/model/course.py:26 | inserting keeps every element: the result is the input plus the new element, as a multiset |
| Sorting.Sort | pygrader/model/course.py:26-32 | `sorted` returns a permutation of its input |
| Sorting.InsertStable | pygrader/model/course.py:26-32 | inserting into a sorted list places the new element after every element tied with it |
| Sorting.SortStable | pygrader/model/course.py:26-32 | `sorted` is stable: when ties are transitive, the elements tied with any given one come out in their input order |
| Sorting.InsertSorted | pygrader/model/course.py:26-32 | inserting into a sorted list under a strict order keeps it sorted |
| Sorting.SortSorted | pygrader/model/course.py:26-32 | `sorted` under a strict order returns a sorted list |
| Sorting.Distinct | pygrader/model/course.py:42 | `set(xs)` holds each element of `xs` once and nothing else |
| Sorting.SortedSetSpec | pygrader/model/course.py:42 | `sorted(set(xs))` is sorted, duplicate-free, and has the same elements as `xs` |
| Sorting.StrLtStrictOrder | pygrader/model/course.py:48 | Python's string `<` is irreflexive and transitive, so the groups can be sorted |
| Text.Lower | pygrader/mailpipe.py:725 | `lower()` keeps the length, lowers each character, and leaves no upper-case letter |
| Text.LowerIdempotent | pygrader/handler/get.py:483-485 | lowering an already lowered subject changes nothing |
| Text.RemoveChar | pygrader/mailpipe.py:725 | `replace('#', '')` removes every `#` and keeps every other character |
| Text.RemoveCharConcat | pygrader/mailpipe.py:725 | removal distributes over concatenation, so the characters kept stay in their order |
| Text.ReplaceChar | pygrader/storage.py:253-256 | replacing a character by a text that does not hold it leaves none; a text without it is unchanged |
| Text.LStrip | pygrader/storage.py:48 | `lstrip()` drops exactly the leading whitespace |
| Text.RStrip | pygrader/storage.py:48 | `rstrip()` drops exactly the trailing whitespace |
| Text.Strip | pygrader/storage.py:48 | `strip()` leaves no leading or trailing whitespace |
| Text.StripWithin | pygrader/storage.py:48 | the stripped text is a substring of the original |
| Text.StripOfTrimmed | pygrader/storage.py:48 | stripping a text without surrounding whitespace changes nothing |
| Text.Find | pygrader/extract_mime.py:42 | finds the first occurrence of a character, and is absent exactly when the character does not occur |
| Text.RFind | pygrader/mailpipe.py:750 | finds the last occurrence of a character, and is absent exactly when the character does not occur |
| Text.Split | pygrader/storage.py:173 | `split(sep)` returns at least one piece, and no piece holds the separator |
| Text.JoinSplit | pygrader/storage.py:48 | joining the pieces of `split(sep)` with `sep` gives the text back |
| Text.SplitCount | pygrader/storage.py:173 | `split(sep)` returns one more piece than there are separators |
| Text.SplitJoin | pygrader/storage.py:48 | splitting a join of separator-free pieces gives the pieces back |
| Text.AfterLast | pygrader/mailpipe.py:750 | `rsplit(':', 1)[-1]` holds no `:`, ends the text, and is the whole text when there is no `:` |
| Text.StrLtIrreflexive | pygrader/model/course.py:48 | no string is smaller than itself |
| Text.StrLtTransitive | pygrader/model/course.py:48 | string `<` is transitive |
| Text.StrLtTotal | pygrader/model/course.py:48 | of two different strings one is smaller |
| Text.StrLtAsymmetric | pygrader/model/course.py:48 | two strings are never each smaller than the other |
| Text.NatToString | pygrader/extract_mime.py:65-66 | `str(n)` is a nonempty string of digits without a leading zero |
| Text.NatToStringValue | pygrader/extract_mime.py:65-66 | the digits of `str(n)` read back as `n` |
| Text.NatToStringInjective | pygrader/extract_mime.py:65-66 | different counters give different names |
| Text.Repr | pygrader/handler/get.py:403 | `repr(s)` is quoted at both ends with the same quote |
| Text.ReprPlain | pygrader/handler/get.py:403 | the repr of a text without quotes, backslashes or control characters is the text in single quotes |
| Color.StandardColors | pygrader/color.py:13-29 | with colour on (given, or by default) the roles are none, blue, green, red; with colour off all four are none |
| Color.StandardColorsDefault | pygrader/color.py:16-18 | the default roles are (None, 'blue', 'green', 'red') |
| Color.IndexOf | pygrader/color.py:41 | `list.index` finds the first position of the colour, and fails exactly when the colour is not in the palette |
| Color.IndexOfAt | pygrader/color.py:41 | a colour first found at position i has index i |
| Color.AnsiColorCode | pygrader/color.py:31-41 | `None` gives the reset sequence; a name gives a code exactly when it is in the palette (otherwise `ValueError`) |
| Color.AnsiColorCodeReadsBack | pygrader/color.py:31-41 | the colour can be read back from its code, and no colour's code is the reset sequence |
| Color.AnsiColorCodeInjective | pygrader/color.py:31-41 | different colours have different codes |
| Color.AnsiColorCodeExamples | pygrader/color.py:34-37 | blue is ESC[34m, red is ESC[31m, `None` is ESC[0m |
| Color.ColorString | pygrader/color.py:43-66 | a falsy colour leaves the text unchanged; a truthy colour succeeds exactly when it is in the palette |
| Color.ColorStringParts | pygrader/color.py:56-66 | a coloured text is the colour's 5-character code, the text, then the 4-character reset, and the colour reads back from its head |
| Color.ColorStringExample | pygrader/color.py:46-47 | 'Hello world' in red is ESC[31m, the text, ESC[0m |
| Color.Stream.constructor | pygrader/color.py:82-83 | a fresh stream holds no text |
| Color.Stream.Write | pygrader/color.py:84 | the stream's contents grow by exactly the text written |
| Color.WriteColor | pygrader/color.py:68-85 | on success the stream grows by exactly the coloured text; with an unknown colour nothing is written and the error is returned |
| Dates.PrefixLength | pygrader/storage.py:38 | a greedy regex group takes the longest prefix of accepted characters: all it takes are accepted, the next is not |
| Dates.SplitDate | pygrader/storage.py:38 | without a `T` the date group is the whole string and the others are empty; with one, the date group holds no `T` |
| Dates.SplitClock | pygrader/storage.py:38 | a match after the `T` keeps the date group and records the `T` |
| Dates.Field | pygrader/storage.py:138 | a `strptime` field that consumes input yields a value in its range (month 1-12, hour 0-23, ...) |
| Dates.Strptime | pygrader/storage.py:138 | a parsed date has a month 1-12 and a day that exists in that month |
| Dates.FirstFormat | pygrader/storage.py:131-144 | the first format that parses wins, and its date is valid |
| Dates.DaysFromCivilNextDay | pygrader/storage.py:147 | consecutive days are one day count apart |
| Dates.RenderConcat | pygrader/storage.py:131-136 | a format's text is the text of its parts joined |
| Dates.MatchRender | pygrader/storage.py:138 | `strptime` reads back the fields of a date written in the same format |
| Dates.MatchEmpty | pygrader/storage.py:138 | no nonempty format matches the empty string |
| Dates.FirstFormatPick | pygrader/storage.py:131-144 | when only one format parses, that format's result is returned |
| Dates.FirstFormatNone | pygrader/storage.py:143-144 | when no format parses, `ValueError` is raised |
| Dates.FormatsNest | pygrader/storage.py:131-136 | each format is a proper prefix of the one before it |
| Dates.LongerFormatFails | pygrader/storage.py:131-136 | a date written in a shorter format does not parse with a longer one |
| Dates.ShorterFormatFails | pygrader/storage.py:131-136 | a date written in a longer format does not parse with a shorter one |
| Dates.FirstFormatRender | pygrader/storage.py:131-144 | a date written in any of the five formats is read back with the other fields at their defaults, or rejected when the day does not exist |
| Dates.FillConcat | pygrader/storage.py:138 | filling the fields of two format parts in turn is filling those of their concatenation |
| Dates.FillFormats | pygrader/storage.py:131-136 | reading a date in format k keeps exactly the fields that format has and defaults the rest |
| Dates.PrefixLengthConcat | pygrader/storage.py:38 | a greedy group stops exactly where its characters stop |
| Dates.FractionValue | pygrader/storage.py:148-149 | a fraction `.ddd` lies between 0 and 1 |
| Dates.FindAfter | pygrader/storage.py:38 | the first `T` of a date written as day `T` time is the one after the day |
| Dates.FractionZoneLength | pygrader/storage.py:38 | the fraction and zone groups take exactly the written fraction and zone |
| Dates.SplitClockCanonical | pygrader/storage.py:38 | the groups after the `T` of a well-formed time are the time, the fraction and the zone as written |
| Dates.SplitDateTimed | pygrader/storage.py:38 | a well-formed timed date splits into its date, `T`, time, fraction and zone |
| Dates.TimedFormats | pygrader/storage.py:131-132 | both timed formats are the date format, `T`, then colon-separated fields |
| Dates.ParseDateTimed | pygrader/storage.py:123-155 | a timed date is the UTC seconds of its fields, with the fraction and zone applied; a day that does not exist gives `ValueError` |
| Dates.FinishCanonical | pygrader/storage.py:148-154 | a written fraction is added and a written zone's offset is subtracted |
| Dates.ParseDateOfSplit | pygrader/storage.py:123-126 | parsing continues from the regex groups |
| Dates.AddFractionText | pygrader/storage.py:148-149 | `float(ms)` adds the fraction's value |
| Dates.SubtractZoneText | pygrader/storage.py:150-154 | no zone and `Z` subtract nothing; an offset zone subtracts its offset |
| Dates.SplitTimedFormat | pygrader/storage.py:123-129 | a timed date's groups join back into the date text `strptime` sees |
| Dates.ParseDateUntimed | pygrader/storage.py:123-147 | `YYYY`, `YYYY-MM` and `YYYY-MM-DD` give the UTC seconds of their first instant, or `ValueError` when the day does not exist |
| Dates.ZoneOffsetAsWritten | pygrader/storage.py:150-153 | a zone of one character, such as a bare `+`, raises `IndexError` as written |
| Dates.ZoneOffsetAsWrittenValue | pygrader/storage.py:150-153 | as written the offset is multiplied by `int(zone[1] + '1')`, which depends on the first hour digit, and the hour carries the zone's sign |
| Dates.ZoneOffsetValue | pygrader/storage.py:83-87 | the intended offset of `±hh:mm` is hh hours and mm minutes ahead of UTC, or as far behind |
| Dates.ZoneOffsetAgreement | pygrader/storage.py:150-153 | the code agrees with the intended offset exactly when the hour is below 10 and the zone is ahead of UTC or has no minutes |
| Dates.ZoneTenHoursAsWritten | pygrader/storage.py:151 | `+10:00` gives an offset of 396000 s as written, not 36000 s |
| Dates.ZoneHalfHourBehindAsWritten | pygrader/storage.py:152-153 | `-05:30` gives -16200 s as written, not -19800 s |
| Dates.FinishDocumented | pygrader/storage.py:148-154 | for the zones the documentation's examples use, the code subtracts the intended offset |
| Dates.FinishWith | pygrader/storage.py:148-154 | the fraction is added and the zone's offset, whatever it is, subtracted |
| Dates.FinishIntended | pygrader/storage.py:148-154 | with the zone read as intended, every well-formed zone subtracts its own offset, hours and minutes ahead of or behind UTC |
| Dates.ExampleZones | pygrader/storage.py:79-87 | `+05:30`, `-05:00` and `Z` are zone texts |
| Dates.HalfHourAheadShift | pygrader/storage.py:102-106 | a time at `+05:30` is 5.5 hours earlier than the same clock time at `Z` |
| Dates.FiveHoursBehindShift | pygrader/storage.py:117-121 | 08:15:30 at `-05:00` is the same instant as 13:15:30 at `Z` |
| Dates.FiveHoursLater | pygrader/storage.py:147 | five hours later on the clock is 18000 s later |
| Dates.YearTwoThousand | pygrader/storage.py:92-95 | `2000` parses to the first second of 2000, 946684800 s after the epoch |
| Dates.FebruaryAfterJanuary | pygrader/storage.py:96-98 | February begins 31 days after January |
| Dates.DayOfMonth | pygrader/storage.py:99-101 | day d+1 of a month begins d days after its first |
| Dates.SecondsAdd | pygrader/storage.py:107-109 | the seconds field adds that many seconds |
| Storage.ParseIntOfString | pygrader/storage.py:172 | `int(str(n))` is `n` |
| Storage.ParseFloatOfInt | pygrader/storage.py:175 | `float` of an integer text is that integer |
| Storage.NoPointInDigits | pygrader/storage.py:173-175 | a string of digits holds no `.`, `/` or newline |
| Storage.ParseFloatOfDecimal | pygrader/storage.py:175 | `float('n.ddd')` is n plus the fraction |
| Storage.ParseStrippedDecimal | pygrader/storage.py:175 | the same holds for the text after stripping |
| Storage.ParseStrippedPoint | pygrader/storage.py:175 | unsigned text whose first point follows a run of digits reads as those digits plus the fraction after the point |
| Storage.PointAfter | pygrader/storage.py:175 | the point of `n.ddd` is found right after the whole part |
| Storage.WeightCases | pygrader/storage.py:173-178 | a weight without `/` is `float(w)` or `ValueError`; the assertion fails exactly when the weight holds two or more `/` |
| Storage.WeightQuotient | pygrader/storage.py:173-178 | `a/b` gives `float(a)/float(b)` |
| Storage.QuotientOfTerms | pygrader/storage.py:177-178 | two terms give their quotient |
| Storage.ParseFloatOfNat | pygrader/storage.py:175 | `float(str(m))` is m |
| Storage.WeightOfDecimalOverWhole | pygrader/storage.py:173-178 | `n.ddd/m` gives (n plus the fraction) divided by m |
| Storage.WeightExample | pygrader/storage.py:161-168 | weight `0.1/2` is 0.05 |
| Storage.TenthOverTwoParts | pygrader/storage.py:173-178 | any `n.ddd/m` whose parts are 0.1 and 2 gives 0.05 |
| Storage.LoadAssignment | pygrader/storage.py:157-180 | loading fails with `KeyError` for missing options, and succeeds exactly when points, weight and due all parse (numbers in the syntax subset `Storage.ParseInt` and `Storage.ParseFloat` read); the assignment then holds the parsed values, the due time read with the corrected zone offset |
| Storage.DueExample | pygrader/storage.py:165-168 | due `2011-10-04T00:00-04:00` is 1317700800, both as written and as corrected |
| Storage.MidnightExample | pygrader/storage.py:165-168 | midnight UTC on 2011-10-04 is 1317686400 |
| Storage.DropBlank | pygrader/storage.py:206 | the blank filter keeps only nonempty entries and never lengthens the list |
| Storage.DropBlankAt | pygrader/storage.py:206 | every entry the blank filter keeps is an entry of its input |
| Storage.DropBlankKeeps | pygrader/storage.py:206 | every nonempty entry survives the blank filter |
| Storage.DropBlankMembers | pygrader/storage.py:206 | an entry survives the blank filter exactly when it is in the input and nonempty |
| Storage.DropBlankOfClean | pygrader/storage.py:206 | the blank filter leaves a list without empty entries unchanged |
| Storage.NonBlank | pygrader/storage.py:205-206 | the emails kept are nonempty and stripped |
| Storage.NonBlankMembers | pygrader/storage.py:205-206 | an email is kept exactly when some comma-separated piece strips to it |
| Storage.NonBlankSource | pygrader/storage.py:205-206 | every kept email comes from a piece that strips to it |
| Storage.NonBlankKeeps | pygrader/storage.py:205-206 | every piece that is not blank after stripping is kept |
| Storage.EmailList | pygrader/storage.py:205-206 | the emails read are nonempty, stripped, and hold no comma |
| Storage.EmailListOfJoin | pygrader/storage.py:205-206 | a comma-joined list of clean emails reads back as that list |
| Storage.NonBlankOfClean | pygrader/storage.py:206 | filtering a list of clean emails keeps all of them |
| Storage.EmailListMembers | pygrader/storage.py:205-206 | an email is read exactly when some comma-separated piece strips to it |
| Storage.EmailListEmpty | pygrader/storage.py:205-208 | no email is read exactly when every piece is blank |
| Storage.LoadPersonNoEmails | pygrader/storage.py:205-208 | a loaded person's emails stay `None` exactly when every piece is blank |
| Storage.LoadPersonEmails | pygrader/storage.py:205-208 | otherwise the person's emails are exactly the nonblank stripped pieces |
| Storage.LoadPersonEmailList | pygrader/storage.py:204-208 | the emails are the list read, or `None` when it is empty |
| Storage.LoadPersonFields | pygrader/storage.py:204-215 | the name is kept and the groups are empty (`[]` where the source leaves `None`); the alias is the nickname when nonempty, else the name; the PGP key is kept exactly when nonempty |
| Storage.LoadPersonBare | pygrader/storage.py:182-202 | a person loaded without data is a new person with that name |
| Storage.ReadLine | pygrader/storage.py:239 | `readline()` returns the first line with its newline, and the rest follows it |
| Storage.LoadGrade | pygrader/storage.py:237-246 | a grade file fails with `ValueError` exactly when its first line is not a number; otherwise the grade is for the student and assignment given, neither late nor notified, with a nonempty stripped comment or none |
| Storage.LoadGradeOfText | pygrader/storage.py:237-246 | a grade file written as points, a newline and a comment reads back as those points and that comment |
| Storage.LoadGradeOf | pygrader/storage.py:239-246 | the points are the first line's number and the comment is the stripped rest, `None` when that is empty |
| Storage.WholeLine | pygrader/storage.py:239 | `float('n\n')` is n |
| Storage.DecimalLine | pygrader/storage.py:239 | `float('n.ddd\n')` is n plus the fraction |
| Storage.ParseFloatIgnoresNewline | pygrader/storage.py:239 | a trailing newline does not change `float` |
| Storage.StripNewline | pygrader/storage.py:244 | stripping removes a trailing newline |
| Storage.ReadLineOf | pygrader/storage.py:239 | `readline()` stops after the first newline |
| Storage.ReplaceCharKeepsAbsent | pygrader/storage.py:255 | a replacement brings in no character that neither the name nor the replacement has |
| Storage.FilesystemName | pygrader/storage.py:253-256 | the loop applies the four substitutions in turn, and the result holds no space, `.`, `'` or `"` |
| Storage.FsNameClean | pygrader/storage.py:253-256 | a filesystem name holds no space, `.`, `'` or `"` |
| Storage.FsNameIdempotent | pygrader/storage.py:253-256 | mangling a mangled name changes nothing |
| Storage.PathJoin | pygrader/storage.py:249 | `os.path.join` ends with its last part, and an absolute last part replaces what came before |
| Storage.AssignmentPathParts | pygrader/storage.py:248-251 | the path is the person's filesystem name, `/`, then the assignment's, so both can be read back |
| Storage.MarkerIsNotGradeFile | pygrader/storage.py:222-263 | the notified marker and the grade file are different paths |
| Storage.Store.constructor | pygrader/storage.py:217-235 | the store holds the course directory and its files with their times |
| Storage.Store.SetLate | pygrader/storage.py:266-270 | touching the late marker adds or updates only that file, and the student's assignment then reads as late |
| Storage.Store.SetNotified | pygrader/storage.py:258-264 | touching the notified marker adds or updates only that file; when the grade file is older the grade then reads as notified |
| Storage.NameList | pygrader/storage.py:47-48 | a roster option is split on commas and each name stripped |
| Storage.Tag | pygrader/storage.py:55-56 | the names of one group, each paired with the group |
| Storage.Names | pygrader/storage.py:55-56 | the names visited, in order |
| Storage.VisitsListed | pygrader/storage.py:55-56 | every listed name is visited |
| Storage.GroupsOfUnvisited | pygrader/storage.py:55-66 | a name never visited gets no groups |
| Storage.NamesSnoc | pygrader/storage.py:55-56 | visiting one more name appends it |
| Storage.GroupsOfSnoc | pygrader/storage.py:57-66 | a visit adds its group to that person only |
| Storage.VisitsPrefix | pygrader/storage.py:55-56 | the groups are visited one after another in order |
| Storage.OrderNext | pygrader/storage.py:57-66 | a visit keeps the people in first-visit order |
| Storage.FitsNext | pygrader/storage.py:57-66 | after a visit, each person holds the loaded fields and the groups visited so far |
| Storage.VisitKnown | pygrader/storage.py:57-60 | a person seen before gets the group appended |
| Storage.VisitNew | pygrader/storage.py:61-66 | a person seen first is loaded from their section with just this group |
| Storage.Collected | pygrader/storage.py:54-67 | the people gathered are one per distinct name, in first-visit order, each loaded from their section with the groups they were visited in |
| Storage.LoadGroup | pygrader/storage.py:56-66 | the inner loop visits every name of a group, or stops at the first name without a section |
| Storage.LoadGroups | pygrader/storage.py:54-66 | the outer loop accumulates every group's roster, or stops at a listed name that has no section |
| Storage.LoadPeople | pygrader/storage.py:54-67 | loading succeeds exactly when every listed name has a section, and gives one person per distinct name in first-visit order, loaded from their section with the groups they appear in |
| Storage.LoadedOnce | pygrader/storage.py:57-60 | a person listed in several groups is loaded once |
| Storage.GroupsOfConcat | pygrader/storage.py:55-66 | the groups gathered over two runs of visits are those of the first, then those of the second |
| Storage.GroupsOfTag | pygrader/storage.py:56-60 | within one group, a name listed k times gets that group k times |
| Storage.GroupsOfVisits | pygrader/storage.py:55-66 | a person's groups list each group as often as the person is listed in it, in professors, assistants, students order |
| Storage.MembershipsOfCourse | pygrader/storage.py:55 | the groups are taken in professors, assistants, students order |
| Storage.ProfessorAndStudent | pygrader/storage.py:55-66 | a person listed once as professor and once as student has groups `["professors", "students"]` |
| Mail.Get | pygrader/mailpipe.py:674 | `message[name]` is the value of the first header with that name, compared without case, and is `None` exactly when there is no such header |
| Mail.GetFirst | pygrader/mailpipe.py:674 | the first header with the name is the one returned |
| Mail.GetAppended | pygrader/mailpipe.py:836-845 | appending a header changes `message[name]` only when no header had that name before |
| Mail.Outbox.constructor | pygrader/handler/__init__.py:8 | a fresh `respond` callback has seen no calls |
| Mail.Outbox.Send | pygrader/handler/__init__.py:19 | each call of `respond` is recorded once, after the earlier ones |
| Mail.Mailbox.constructor | pygrader/mailpipe.py:617-625 | an opened mailbox holds the messages given, in order |
| Mail.Mailbox.Messages | pygrader/mailpipe.py:618 | the messages of a mailbox, one per item, in order |
| Mail.Mailbox.Add | pygrader/mailpipe.py:641 | appends exactly one message with the given flags, under a key no earlier item has, and keeps the earlier items |
| Mail.FreshKey | pygrader/mailpipe.py:641 | the new key is above every key in use, so it collides with none |
| Mail.Mailbox.Remove | pygrader/mailpipe.py:643 | `del mbox[key]` removes the messages with that key and nothing else |
| Mail.WithoutMembers | pygrader/mailpipe.py:643 | after the deletion a stored message remains exactly when it was there and has another key |
| ExtractMime.MessageTime | pygrader/extract_mime.py:34-43 | no `Received` header gives `None`; a `Received` without `;` raises `IndexError`; a time is only ever read from a `Received` header |
| ExtractMime.MessageTimeOf | pygrader/extract_mime.py:42-43 | the time is read from the text after the first `;`, and a date that does not parse raises `TypeError` |
| ExtractMime.CandidateInjective | pygrader/extract_mime.py:65-66 | the names `base`, `base.1`, `base.2`, ... are all different |
| ExtractMime.TriedCount | pygrader/extract_mime.py:59-66 | after k steps the loop has tried k different names |
| ExtractMime.TakenBound | pygrader/extract_mime.py:59-66 | the names tried that all exist cannot outnumber the files, so the loop ends |
| ExtractMime.Slot | pygrader/extract_mime.py:56-66 | the search stops at the first name that is free or holds the same contents, and reports which |
| ExtractMime.SlotAt | pygrader/extract_mime.py:59-66 | when every earlier name holds other contents, the search stops at the first name that is free or identical |
| ExtractMime.FindSlot | pygrader/extract_mime.py:56-66 | the while loop computes the search's counter and copy flag |
| ExtractMime.Disk.constructor | pygrader/extract_mime.py:45 | the disk holds the files and times given |
| ExtractMime.Disk.Write | pygrader/extract_mime.py:71-75 | writing sets that one file's contents, and its time to the message's time when known |
| ExtractMime.ExtractMimeParts | pygrader/extract_mime.py:45-75 | a bad `Received` header raises before anything is written; otherwise each eligible part is placed in `walk` order, and nothing is written on a dry run |
| ExtractMime.ExtractedKeeps | pygrader/extract_mime.py:59-73 | an existing file is never overwritten |
| ExtractMime.ExtractedFrom | pygrader/extract_mime.py:49-73 | every new file holds the payload of a part that has a filename and the requested type |
| ExtractMime.PresentStays | pygrader/extract_mime.py:59-64 | a part already extracted stays found as files are added |
| ExtractMime.PlacePresent | pygrader/extract_mime.py:56-73 | after a part is extracted, its contents are found under one of its names |
| ExtractMime.ExtractedPresent | pygrader/extract_mime.py:48-73 | after extraction, every eligible part of the message is on disk |
| ExtractMime.ExtractedNothing | pygrader/extract_mime.py:62-69 | when every part is already on disk, extraction writes nothing |
| ExtractMime.ExtractedIdempotent | pygrader/extract_mime.py:62-69 | extracting the same message again adds no files and changes none |
| Todo.MaxOfBounds | pygrader/todo.py:12-16 | the running `max` is at least the start and every time seen, and is one of them |
| Todo.MaxOfSnoc | pygrader/todo.py:16 | one more step of the loop keeps the larger of the two |
| Todo.LatestIsMaximum | pygrader/todo.py:11-17 | a walked directory's time is the maximum of its own time and the times of every file beneath it |
| Todo.Mtime | pygrader/todo.py:10-19 | the walking loop computes that maximum for a directory, and the node's own time otherwise |
| Todo.Newer | pygrader/todo.py:21-24 | `newer(a, b)` holds exactly when a's time is strictly later than b's, so never for a path and itself |
| Todo.Entry | pygrader/todo.py:30-34 | a name is among a directory's entries exactly when an entry carries it |
| Todo.Walk | pygrader/todo.py:29 | `os.walk` visits only directories |
| Todo.WalkEntries | pygrader/todo.py:29 | walking a directory's entries visits only directories |
| Todo.PendingMembers | pygrader/todo.py:26-38 | a path is yielded exactly when it is the source of a visited directory whose target is missing or older |
| Todo.StaleCases | pygrader/todo.py:31-38 | a source with no target is pending; one whose target is at least as new is not |
| Todo.ListTodo | pygrader/todo.py:26-38 | the generator's loop yields the pending sources in walk order |
| Todo.VisitTodo | pygrader/todo.py:30-38 | one walked directory yields its source exactly when that directory is stale, and nothing otherwise |
| Todo.PendingStep | pygrader/todo.py:29-38 | the sources yielded up to a directory are those yielded before it, then its own |
| Todo.PendingConcat | pygrader/todo.py:29-38 | walking two stretches of directories in turn yields the sources of each, in order |
| Todo.SortedPendingSpec | pygrader/todo.py:43 | `print_todo` lists the same paths, sorted |
| Todo.PrintTodo | pygrader/todo.py:40-44 | the output is the sorted pending paths, one per line |
| Todo.PrintLines | pygrader/todo.py:43-44 | the loop prints each path followed by a newline, in order |
| Template.JoinSnoc | pygrader/template.py:97 | joining one more piece adds the separator and the piece |
| Template.JoinWithAnd | pygrader/template.py:78-97 | the loop builds the list joined with commas (or a space for two) and `and` before the last element |
| Template.JoinedWithAndExamples | pygrader/template.py:81-86 | `['a','b','c']` gives `a, b, and c`, `['a','b']` gives `a and b`, `['a']` gives `a` |
| Template.JoinedWithAndEnds | pygrader/template.py:94-96 | with two or more strings the result ends with `and ` and the last string |
| Template.TouchedSpec | pygrader/template.py:74-75 | touching markers gives each one the current time and leaves every other file as it was |
| Template.Markers | pygrader/template.py:74-75 | the callback touches the notified marker of each of its grades, in order |
| Template.MarkerIsNoGradeFile | pygrader/template.py:75 | no notified marker is a grade file |
| Template.GradeFileIsNoMarker | pygrader/template.py:74-75 | the callback never touches a grade file |
| Template.NotifiedCallback.constructor | pygrader/template.py:68-70 | the callback keeps the store and its grades |
| Template.NotifiedCallback.Call | pygrader/template.py:72-75 | on success every grade's marker is touched, so each grade whose file is older then reads as notified; on failure nothing changes |
| Template.TouchMarkers | pygrader/template.py:74-75 | the loop touches each marker in turn |
| Template.MarkersTouched | pygrader/template.py:74-75 | after the loop every grade's marker has the current time and every grade file keeps its time |
| Template.AssignmentEmail | pygrader/template.py:129-183 | an assignment email goes to the grade's student and covers that grade alone |
| Template.NoticeOf | pygrader/template.py:115-127 | every notice is for a visited student with a grade on the assignment that was not notified, and its callback covers that one grade |
| Template.NoticeFor | pygrader/template.py:119-127 | every visited student with an unnotified grade on the assignment gets a notice |
| Template.StudentGrades | pygrader/template.py:205-207 | a student's grades are those of the course that belong to them, without the notified ones unless `old` |
| Template.StudentEmailSorted | pygrader/template.py:293-298 | composing a digest succeeds exactly when all grades belong to one student; it goes to that student and lists the same grades sorted |
| Template.OwnGradesOneStudent | pygrader/template.py:205-211 | a student's own grades always pass the single-student assertion |
| Template.DigestOf | pygrader/template.py:204-211 | every digest is for a visited student with remaining grades, goes to them, and covers exactly those grades |
| Template.NoDigestWithoutGrades | pygrader/template.py:208-209 | a student with no remaining grades gets no digest |
| Tabulate.Shade | pygrader/tabulate.py:33-41 | the cell colours alternate between the highlight colour (none) and the lowlight colour (blue) |
| Tabulate.Cells | pygrader/tabulate.py:39-80 | one tab-prefixed cell per column, the j-th coloured as column j+1 |
| Tabulate.Names | pygrader/tabulate.py:39-40 | the header cells are the column assignments' names, in order |
| Tabulate.GradeTexts | pygrader/tabulate.py:50-56 | one grade text per column, for that student and assignment |
| Tabulate.Totals | pygrader/tabulate.py:82 | the totals, when all exist, are one per student |
| Tabulate.StatTexts | pygrader/tabulate.py:68-80 | one statistic text per column |
| Tabulate.RenderSnoc | pygrader/tabulate.py:38-92 | writing one more piece appends its coloured text to the stream |
| Tabulate.RenderOne | pygrader/tabulate.py:38 | writing a single piece writes its coloured text |
| Tabulate.RenderAppend | pygrader/tabulate.py:38-92 | writing two runs of pieces writes the first then the second |
| Tabulate.PaintStandard | pygrader/color.py:43-66 | each piece is written as `color_string` renders it with the table's two colours |
| Tabulate.RenderPlain | pygrader/tabulate.py:28-92 | with colour off the table is just the cell texts joined |
| Tabulate.ChainStep | pygrader/tabulate.py:48-63 | the rows are written one after another |
| Tabulate.ChainStops | pygrader/tabulate.py:48-63 | once a row raises, nothing after it is written |
| Tabulate.ChainSucceeds | pygrader/tabulate.py:48-63 | the rows complete exactly when no row raises |
| Tabulate.ChainFailsWith | pygrader/tabulate.py:48-92 | when each row can only raise one error, the rows together raise that error or none |
| Tabulate.ChainPieces | pygrader/tabulate.py:48-63 | rows that complete write all their pieces, in order |
| Tabulate.LineShape | pygrader/tabulate.py:38-92 | a line is the lead in the highlight colour, one tab-prefixed cell per column in alternating colours, the total cell when the total is shown, then a newline; when the total is needed and cannot be computed the line stops after its cells with that error |
| Tabulate.HeaderShape | pygrader/tabulate.py:38-47 | the header is `Student`, then one cell per graded assignment, then `Total` exactly when every assignment is graded; with no assignments and no grades it raises `NameError` after `Student` |
| Tabulate.RowShape | pygrader/tabulate.py:48-63 | a row is the student's name, each grade's points or `-` when missing, then the total when shown; it raises `ZeroDivisionError` exactly when the total is shown and cannot be computed |
| Tabulate.TotalsSome | pygrader/tabulate.py:82 | the totals exist exactly when every student's total does, and are those totals |
| Tabulate.RowsSucceed | pygrader/tabulate.py:48-63 | the rows complete exactly when the totals are hidden or every student's total can be computed; otherwise they raise `ZeroDivisionError` |
| Tabulate.StatsSucceed | pygrader/tabulate.py:64-92 | the statistics rows complete under the same condition, and can only raise `ZeroDivisionError` |
| Tabulate.TableFailure | pygrader/tabulate.py:28-92 | `tabulate` raises `NameError` exactly when the course has no assignments and no grades, and `ZeroDivisionError` exactly when the total is shown and some graded student's total divides by zero |
| Tabulate.BodySections | pygrader/tabulate.py:48-92 | the statistics block adds no error of its own; when nothing is raised it is `--` then a Mean row and a Std. Dev. row after the student rows |
| Tabulate.TableSections | pygrader/tabulate.py:28-92 | the table is the header then the body, and statistics change neither whether nor where it fails |
| Tabulate.Wrote | pygrader/tabulate.py:38-92 | writing a piece extends the stream by its coloured text |
| Tabulate.ChainBegin | pygrader/tabulate.py:48 | before the first row nothing is written |
| Tabulate.ChainNext | pygrader/tabulate.py:48-63 | after each row either the rows so far are on the stream, or that row raised and the stream holds everything the table would write |
| Tabulate.ChainEnd | pygrader/tabulate.py:48-63 | after the last row every row is on the stream and none raised |
| Tabulate.WroteBoth | pygrader/tabulate.py:38-92 | two writes in a row write the two runs of pieces |
| Tabulate.ThenWrote | pygrader/tabulate.py:38-92 | a section written after a completed one extends it |
| Tabulate.WroteNext | pygrader/tabulate.py:39-42 | each cell written extends the cells so far |
| Tabulate.ChainWrote | pygrader/tabulate.py:48-63 | a row written after the completed rows extends them |
| Tabulate.Put | pygrader/color.py:68-85 | `write_color` of one piece appends its coloured text |
| Tabulate.WriteStart | pygrader/tabulate.py:38-67 | the lead of a line is written in the highlight colour |
| Tabulate.WriteCells | pygrader/tabulate.py:39-80 | the cell loop writes each column's cell in turn |
| Tabulate.WriteLine | pygrader/tabulate.py:38-92 | writing a line puts exactly its pieces on the stream and returns its error |
| Tabulate.WriteHeader | pygrader/tabulate.py:38-47 | the header written is the header layout |
| Tabulate.WriteRow | pygrader/tabulate.py:48-63 | each student's row written is that student's row layout, with the total from the accumulating loop |
| Tabulate.WriteStatRow | pygrader/tabulate.py:66-92 | each statistic's row written is its layout |
| Tabulate.WriteRows | pygrader/tabulate.py:48-63 | the student loop writes the rows in order and stops at the first error |
| Tabulate.WriteStatRows | pygrader/tabulate.py:66-92 | the statistics loop writes the Mean and Std. Dev. rows in order and stops at the first error |
| Tabulate.WriteStatistics | pygrader/tabulate.py:64-92 | the statistics block writes `--` then the statistics rows |
| Tabulate.WriteBody | pygrader/tabulate.py:48-92 | the body written is the rows, then the statistics block when requested, unless a row raised |
| Tabulate.Tabulate | pygrader/tabulate.py:28-92 | the stream receives exactly the table, up to the point where it raises, and the error raised is the table's |
| SubmissionHandler.Scanned | pygrader/handler/submission.py:102-104 | the loop variable left by the scan is one of the course's assignments, and there is none only when the course has no assignments |
| SubmissionHandler.ScannedMatches | pygrader/handler/submission.py:102-105 | the assignment left by the scan matches the subject exactly when some assignment does |
| SubmissionHandler.ScannedFirst | pygrader/handler/submission.py:102-104 | when some assignment matches, the scan stops at the first one that does |
| SubmissionHandler.ScannedLast | pygrader/handler/submission.py:102-104 | when none matches, the loop variable is the last assignment |
| SubmissionHandler.ScanAssignments | pygrader/handler/submission.py:102-104 | the `for … break` loop ends on the assignment the scan specifies |
| SubmissionHandler.Submittables | pygrader/handler/submission.py:108-109 | the hint's list holds exactly the submittable assignments |
| SubmissionHandler.SubmittablesHead | pygrader/handler/submission.py:114-119 | the assignment the hint names is the first submittable one in course order |
| SubmissionHandler.Verdict | pygrader/handler/submission.py:102-142 | a submission is accepted only for a course assignment that matches the subject and is submittable |
| SubmissionHandler.VerdictNoMatch | pygrader/handler/submission.py:105-129 | a subject naming no assignment is refused with `no assignment found in` and answered with the hint text |
| SubmissionHandler.VerdictFirstMatch | pygrader/handler/submission.py:102-142 | the first matching assignment decides: it is accepted when submittable and refused as invalid otherwise |
| SubmissionHandler.VerdictAccepted | pygrader/handler/submission.py:102-155 | every refusal is a `ValueError` except on a course with no assignments, and an accepted submission is answered with the acknowledgement |
| SubmissionHandler.ReceivedTextCases | pygrader/handler/submission.py:144-155 | the acknowledgement gives the formatted time when there is one and says "at an unknown time" when there is none |
| SubmissionHandler.Maildirs.constructor | pygrader/handler/submission.py:169-203 | the maildirs and the created directories start as given |
| SubmissionHandler.SavedDirs | pygrader/handler/submission.py:172-179 | the assignment directory is created whatever `dry_run` is, the maildir under it only when not a dry run, and nothing else |
| SubmissionHandler.SavedCopyIdempotent | pygrader/handler/submission.py:169-203 | saving the same message twice stores it once |
| SubmissionHandler.SavedCopyAddsOne | pygrader/handler/submission.py:176-200 | saving touches only the assignment's `mail` maildir, adds at most the one new message flagged seen, and a dry run stores nothing |
| SubmissionHandler.SavedCopyDryRun | pygrader/handler/submission.py:172-179 | a dry run stores nothing yet still creates the assignment directory |
| SubmissionHandler.SaveLocalMessageCopy | pygrader/handler/submission.py:169-203 | the maildirs after the call are those the save specifies, and the directories are those `SavedDirs` gives, the assignment directory included even on a dry run |
| SubmissionHandler.LateAsWritten | pygrader/handler/submission.py:205-215 | as written, the late check fails exactly when the message has no time |
| SubmissionHandler.LateAsWrittenFailsWithoutTime | pygrader/handler/submission.py:144-164 | a submission without a time is acknowledged "at an unknown time" and then the late check raises `TypeError` |
| SubmissionHandler.LateAgrees | pygrader/handler/submission.py:205-215 | where the time is known, the corrected late test agrees with the source: later than due plus the allowance |
| SubmissionHandler.CheckLate | pygrader/handler/submission.py:205-215 | a late submission gets its late marker unless this is a dry run, nothing else changes, and no file is removed |
| SubmissionHandler.Acknowledge | pygrader/handler/submission.py:105-155 | the outbox receives the answer, framed for the person, only when responding |
| SubmissionHandler.Choose | pygrader/handler/submission.py:102-155 | the verdict returned is the specified one and the outbox receives exactly the answer for it |
| SubmissionHandler.Accept | pygrader/handler/submission.py:157-164 | an accepted submission is saved to its maildir, its attachments are extracted unless dry run, and it is marked late when late |
| SubmissionHandler.Run | pygrader/handler/submission.py:24-164 | a time that cannot be read changes nothing; otherwise exactly the answer is sent, a refusal changes no stored state, and an accepted one is saved, extracted and marked late; the late check is the corrected one of the submission.py:208 finding: an unknown time is never late |
| GetHandler.Callback.constructor | pygrader/handler/get.py:421-422 | the callback starts having received nothing |
| GetHandler.Callback.Send | pygrader/handler/get.py:421-422 | each call of the callback is recorded once, in order |
| GetHandler.Frame | pygrader/handler/__init__.py:8-19 | a response goes from the course robot to the requesting person, carries the given subject and encloses the original |
| GetHandler.FrameText | pygrader/handler/__init__.py:10-14 | the framed text, stripped of its greeting and signature, is the text given |
| GetHandler.RefusalSays | pygrader/handler/get.py:388-408 | an unsigned request is refused with `must request information in a signed email`; a response is sent exactly when there is a callback, and its text quotes the subject and either names the person's key or says there is none |
| GetHandler.RefusalAsWrittenCrashes | pygrader/handler/get.py:391-394 | as written, refusing a person who has a key raises `NameError` before anything is sent |
| GetHandler.RefusalCorrected | pygrader/handler/get.py:388-408 | without a callback, or for a person without a key, the refusal as written and the corrected one agree |
| GetHandler.StudentAnswerCases | pygrader/handler/get.py:424-452 | for the corrected call of the get.py:431-433 finding: no email means a `no grades for` error, answered only when there is a callback; one email is returned; more than one raises `NotImplementedError` |
| GetHandler.StudentAnswerAsWrittenDiffers | pygrader/handler/get.py:431-433 | as written (`targets=` passed to a template function without that parameter) the answer is a `TypeError` with nothing sent, and it differs from the corrected answer on every input; where the corrected answer sends "no grades", as written sends nothing |
| GetHandler.StudentWithoutGradesAsWritten | pygrader/handler/get.py:70-132 | the doctest's student without grades: as written `TypeError` and nothing sent, corrected one response and the "no grades for" error naming the student |
| GetHandler.TemplateComposesOnce | pygrader/handler/get.py:431-449 | the template composes at most one email for one student, so the `NotImplementedError` branch is never taken |
| GetHandler.StudentWithoutGrades | pygrader/handler/get.py:70-132 | with the corrected call of the get.py:431-433 finding, a student without grades is answered by alias with "We don't have any of your grades on file for this course." |
| GetHandler.StudentWithoutGradesFails | pygrader/handler/get.py:70-132 | with the corrected call of the get.py:431-433 finding, the same request fails with an error naming the person |
| GetHandler.StudentEmail | pygrader/handler/get.py:424-452 | the callback receives exactly the responses of the corrected `StudentAnswer` (get.py:431-433 finding) and the result is its result |
| GetHandler.AssignmentNames | pygrader/handler/get.py:459-460 | the summary lists the assignments' names in order |
| GetHandler.SummaryNamesEach | pygrader/handler/get.py:457-460 | the summary names every requested assignment |
| GetHandler.Forwarded | pygrader/handler/get.py:476-477 | every stored message is forwarded, in maildir order |
| GetHandler.AssignmentPartsGraded | pygrader/handler/get.py:464-468 | a graded assignment's parts start with its grade note |
| GetHandler.SubmissionPartsSnoc | pygrader/handler/get.py:463-477 | each further assignment appends its own parts |
| GetHandler.SubmissionPartsAsWrittenFails | pygrader/handler/get.py:463-468 | as written, a failure names a requested assignment the student has no grade on |
| GetHandler.SubmissionPartsAsWrittenStep | pygrader/handler/get.py:463-468 | as written, once the lookup fails for one assignment the whole request fails |
| GetHandler.SubmissionPartsAsWrittenUngraded | pygrader/handler/get.py:463-468 | as written, any ungraded requested assignment fails the request |
| GetHandler.SubmissionPartsAsWrittenAgrees | pygrader/handler/get.py:463-477 | where the request as written succeeds, it gives the corrected parts |
| GetHandler.UngradedSubmission | pygrader/handler/get.py:463-477 | an ungraded submission fails the request as written, while the corrected version forwards it |
| GetHandler.SubmissionPartsGraded | pygrader/handler/get.py:463-468 | every graded requested assignment contributes its grade note |
| GetHandler.SubmissionPartOrigin | pygrader/handler/get.py:463-477 | every part comes from one of the requested assignments |
| GetHandler.ForwardAll | pygrader/handler/get.py:476-477 | the forwarding loop appends every stored message |
| GetHandler.AttachAssignment | pygrader/handler/get.py:464-477 | one turn of the assignment loop appends that assignment's parts |
| GetHandler.SubmissionEmail | pygrader/handler/get.py:454-479 | the assembled email is the specified one |
| GetHandler.Candidates | pygrader/handler/get.py:483-485 | the candidates are exactly the people whose lower-cased name occurs in the lower-cased subject |
| GetHandler.Named | pygrader/handler/get.py:496-497 | the named assignments are exactly those whose lower-cased name occurs in the lower-cased subject |
| GetHandler.CandidatesNone | pygrader/handler/get.py:483-486 | with no name in the subject there are no candidates |
| GetHandler.NamedNone | pygrader/handler/get.py:496-498 | with no assignment name in the subject none is named |
| GetHandler.PersonNames | pygrader/handler/get.py:517-518 | the list gives the students' names in order |
| GetHandler.Escaped | pygrader/handler/get.py:487-488 | the `NameError` and `ZeroDivisionError` of `tabulate` leave `run` as the same exceptions |
| GetHandler.TableAnswer | pygrader/handler/get.py:486-493 | nothing is sent first; the request succeeds exactly when the table is written in full, and then the email to the staff member is titled `All grades for` and the course name and holds the rendered table; otherwise it fails with the exception that stopped `tabulate` |
| GetHandler.CourseTableFailure | pygrader/handler/get.py:487-488 | the table `_get_admin_email` asks for (statistics on, default colour) stops with `NameError` exactly when the course has no assignments and no grades, and with `ZeroDivisionError` exactly when the Total column is shown and some graded student's total divides by zero |
| GetHandler.TableEmail | pygrader/handler/get.py:486-493 | `_tabulate` into a fresh string stream, through `Tabulate.Tabulate`, gives exactly the table branch's result: the stream's text in the email, or the exception |
| GetHandler.AdminNobodyNamed | pygrader/handler/get.py:484-493 | a subject naming no student takes the table branch, which mails the course table or fails as `tabulate` does |
| GetHandler.AdminOneStudent | pygrader/handler/get.py:494-502 | one student and no assignment gets that student's grades, as the student would, through the corrected call of the get.py:431-433 finding |
| GetHandler.AdminSubmissions | pygrader/handler/get.py:494-507 | one student with assignments gets the submissions email, titled for the student and listing every named assignment |
| GetHandler.AdminSeveralNamed | pygrader/handler/get.py:508-522 | several students fail the request naming them all, answered only when there is a callback |
| GetHandler.SeveralTextNamesEach | pygrader/handler/get.py:513-518 | the answer names every matching student |
| GetHandler.AdminEmail | pygrader/handler/get.py:481-523 | the callback receives exactly the specified responses and the result is the specified one, the table written by `Tabulate.Tabulate` or its exception included; the students come from the corrected `find_people` of the course.py:85 finding, and one named student's grades from the corrected call of the get.py:431-433 finding |
| GetHandler.RefusalQuiet | pygrader/handler/get.py:388-408 | nothing is sent to a missing callback |
| GetHandler.StudentAnswerQuiet | pygrader/handler/get.py:424-452 | nothing is sent to a missing callback |
| GetHandler.DispatchedQuiet | pygrader/handler/get.py:409-420 | nothing is sent to a missing callback |
| GetHandler.HandledAsWrittenDiffers | pygrader/handler/get.py:384-422 | swapping in only the refusal as written (get.py:391-394) changes the outcome only on an unsigned request, with a callback, from a person with a key: there it crashes with nothing sent instead of refusing; the rest of `run` is the corrected one, whose other departures from get.py as written are `GetHandler.UngradedSubmission` and `CourseModel.FindPeopleWithoutEmailsFails` |
| GetHandler.HandledUnsigned | pygrader/handler/get.py:384-408 | an unsigned request, when the infrastructure is not trusted, is refused and only framed responses are sent |
| GetHandler.HandledDispatch | pygrader/handler/get.py:409-422 | professors and assistants get the admin answer, other students the student answer, and anyone else `NotImplementedError` |
| GetHandler.HandledEmptyCourse | pygrader/handler/get.py:486-488 | a signed staff request naming nobody, on a course with no assignments and no grades, ends in `NameError` with nothing sent |
| GetHandler.HandledSends | pygrader/handler/get.py:384-422 | without a callback nothing is sent; a success sends exactly one email; a failure sends at most one framed response |
| GetHandler.Run | pygrader/handler/get.py:27-422 | the callback receives exactly the specified sends and the failure is the specified one, including the exceptions of the staff table; the refusal, the submission parts and `find_people` are the corrected ones of the get.py:391-394, get.py:431-433, get.py:464-468 and course.py:85 findings |
| GradeHandler.Guard | pygrader/handler/grade.py:175-184 | a request passes the guards exactly when it is authenticated, or the infrastructure is trusted, and the sender is staff |
| GradeHandler.GuardUnsigned | pygrader/handler/grade.py:175-181 | an unauthenticated request raises `UnsignedMessage` |
| GradeHandler.GuardDenied | pygrader/handler/grade.py:182-184 | an authenticated request from someone who is not staff raises `PermissionViolationMessage` naming that person |
| GradeHandler.LastPlain | pygrader/handler/grade.py:202-210 | there is no payload exactly when no part is `text/plain` |
| GradeHandler.LastPlainIsLast | pygrader/handler/grade.py:202-210 | the payload is that of the last `text/plain` part |
| GradeHandler.LastPlainText | pygrader/handler/grade.py:202-210 | the walk over the parts ends holding the specified payload |
| GradeHandler.Merged | pygrader/handler/grade.py:216-224 | the new grade takes the parsed points and comment and keeps the rest of the stored grade, or starts from a fresh grade when none is stored |
| GradeHandler.MissingGrade | pygrader/handler/grade.py:211-212 | a message without a payload is rejected as a missing grade carrying that message |
| GradeHandler.Graded | pygrader/handler/grade.py:201-224 | a grade is produced only from a payload that parses, merged into the stored grade |
| GradeHandler.GradedAsWrittenCrashes | pygrader/handler/grade.py:211-212 | as written, a message with no `text/plain` part raises `NameError` |
| GradeHandler.GradedAsWrittenExample | pygrader/handler/grade.py:211-212 | a message holding only a PDF crashes as written but is rejected as a missing grade when corrected |
| GradeHandler.GradedCorrected | pygrader/handler/grade.py:201-224 | the corrected version differs from the code as written only when there is no payload |
| GradeHandler.GradedKeeps | pygrader/handler/grade.py:216-224 | regrading keeps the stored student, assignment, late and notified markers; a fresh grade is neither late nor notified |
| GradeHandler.PointsOnly | pygrader/storage.py:237-246 | a payload of only a number sets those points and no comment |
| GradeHandler.PointsAndComment | pygrader/storage.py:237-246 | the first line gives the points and the stripped rest, when not empty, the comment |
| GradeHandler.LeadingNewline | pygrader/storage.py:237-246 | stripping removes the blank line between points and comment |
| GradeHandler.NineUnits | pygrader/handler/grade.py:132-157 | the payload "9", a blank line, then "Units!" sets 9 points with comment "Units!" |
| GradeHandler.TenAlone | pygrader/handler/grade.py:59 | the payload "10" sets 10 points with no comment |
| GradeHandler.Decided | pygrader/handler/grade.py:175-189 | a grade is decided only when the guards pass and the subject names a student and an assignment; a message without a plain-text part is the corrected rejection of the grade.py:211-212 finding |
| GradeHandler.Stored | pygrader/handler/grade.py:216-221 | a stored grade found is for the requested student and assignment |
| GradeHandler.Confirmation | pygrader/handler/grade.py:194-198 | the confirmation goes from the robot to the sender, is not a reply, and its subject states the student, the assignment and the points |
| GradeHandler.HandledResponds | pygrader/handler/grade.py:175-199 | a request ends in a complete `Response` to the sender exactly when a grade was decided; an unauthenticated one raises `UnsignedMessage`; with the corrected rejection of the grade.py:211-212 finding |
| GradeHandler.Gradebook.constructor | pygrader/handler/grade.py:193 | the gradebook starts as given |
| GradeHandler.Gradebook.Save | pygrader/handler/grade.py:193 | saving writes the grade at its own path and changes nothing else |
| GradeHandler.GradePathOfGrade | pygrader/handler/grade.py:193 | a grade's path depends only on its student and assignment |
| GradeHandler.GetGrade | pygrader/handler/grade.py:201-224 | the grade returned is the specified one for what the gradebook holds |
| GradeHandler.Run | pygrader/handler/grade.py:175-199 | the reaction is the specified one, and the gradebook gains the decided grade unless this is a dry run or nothing was decided; with the corrected rejection of the grade.py:211-212 finding |
| GradeHandler.GradedAgain | pygrader/handler/grade.py:201-224 | grading the same message again, after the grade was saved, gives the same grade |
| GradeHandler.RewriteSame | pygrader/handler/grade.py:193 | saving the same grade twice leaves what saving it once leaves |
| GradeHandler.RegradeIdempotent | pygrader/handler/grade.py:175-199 | handling the same request again after it was saved decides the same grade and leaves the gradebook unchanged |
| Mailpipe.UnwrapAngle | pygrader/mailpipe.py:677 | stripping the first and last character recovers the address inside angle brackets |
| Mailpipe.PersonOf | pygrader/mailpipe.py:673-683 | no `Return-Path` raises `NoReturnPath`; otherwise the sender is the one registered person owning the address, and none or several raise `UnregisteredAddress` or `AmbiguousAddress`; uses the matching of the course.py:85 finding (a person without emails matches no email query) |
| Mailpipe.RemoveAbsent | pygrader/mailpipe.py:725 | removing a character that does not occur changes nothing |
| Mailpipe.LowerOfLower | pygrader/mailpipe.py:725 | lower-casing text without capitals changes nothing |
| Mailpipe.FoldClean | pygrader/mailpipe.py:725 | a folded subject has no `#` and no capital |
| Mailpipe.FoldIdempotent | pygrader/mailpipe.py:725 | folding a folded subject changes nothing |
| Mailpipe.SubjectOf | pygrader/mailpipe.py:712-725 | a message without a subject raises `SubjectlessMessage`; otherwise the subject is the decoded header, lower-cased and without `#`, and folding it again changes nothing |
| Mailpipe.LastSet | pygrader/mailpipe.py:46 | the greedy match picks the last position that qualifies, and there is none exactly when none qualifies |
| Mailpipe.LastOpen | pygrader/mailpipe.py:46 | the tag opens at the last `[` that is followed by a `]` on the rest of its line |
| Mailpipe.Tag | pygrader/mailpipe.py:46 | a tag never holds `]` |
| Mailpipe.OpensAtOneLine | pygrader/mailpipe.py:46 | on a single line, a tag opens at a `[` exactly when a `]` follows it |
| Mailpipe.TagIsRightmost | pygrader/mailpipe.py:46 | on a single line the tag is the text after the last `[` that has a `]` after it, up to that `]` |
| Mailpipe.TagNoBrackets | pygrader/mailpipe.py:46 | on a single line a tag holds no bracket at all |
| Mailpipe.TagAcrossLines | pygrader/mailpipe.py:46 | `[^]]` also matches a newline, so a tag can reach back over a line break |
| Mailpipe.TagOfOne | pygrader/mailpipe.py:46 | a subject with one bracketed tag yields exactly that tag |
| Mailpipe.NoBracketNoTag | pygrader/mailpipe.py:46 | a subject without `[` has no tag |
| Mailpipe.TargetOf | pygrader/mailpipe.py:727-752 | no tag and an empty tag raise `InvalidSubjectMessage` with `no tag in` and `empty tag in`; otherwise the target is the part of the tag after its last colon |
| Mailpipe.AfterLastColon | pygrader/mailpipe.py:750 | the part after the last colon is whatever follows a colon-free suffix |
| Mailpipe.TargetOfOne | pygrader/mailpipe.py:742-752 | a subject with one non-empty tag targets what follows the tag's last colon |
| Mailpipe.TargetWithCourse | pygrader/mailpipe.py:739-740 | `[course:name]` targets `name` |
| Mailpipe.TargetWithoutCourse | pygrader/mailpipe.py:737-738 | `[name]` targets `name` |
| Mailpipe.TargetEmpty | pygrader/mailpipe.py:733-736 | `[]` raises `empty tag in` with the quoted subject |
| Mailpipe.TargetMissing | pygrader/mailpipe.py:729-732 | a subject without brackets raises `no tag in` with the quoted subject |
| Mailpipe.LastSigned | pygrader/mailpipe.py:820-825 | the signature kept is the last one with a fingerprint ending in the key, and there is none exactly when no signature has one |
| Mailpipe.CopiedMembers | pygrader/mailpipe.py:838-843 | every header of the original is copied except content type, MIME version and disposition, compared case-insensitively |
| Mailpipe.VerifiedMessage | pygrader/mailpipe.py:812-845 | a message is accepted exactly when verification ran and a signature by the key exists that is verified or whose summary is 0; the accepted message is the decrypted one, marked authenticated |
| Mailpipe.VerifiedMessageAsWritten | pygrader/mailpipe.py:829-834 | as written, the summary consulted is that of the last signature, not the matching one |
| Mailpipe.VerifiedAgree | pygrader/mailpipe.py:820-834 | when the last signature is the key's, the check as written and the corrected one agree |
| Mailpipe.VerifiedAsWrittenReadsWrongSummary | pygrader/mailpipe.py:820-834 | a good signature by the key followed by a bad one by another key is refused as written and accepted when corrected |
| Mailpipe.VerifiedPinsKey | pygrader/mailpipe.py:826-828 | a message with no signature by the key is refused either way |
| Mailpipe.VerifyMessage | pygrader/mailpipe.py:812-845 | the nested loops return the specified message |
| Mailpipe.FindSigner | pygrader/mailpipe.py:820-825 | the outer loop ends on the last signature by the key |
| Mailpipe.HasFingerprint | pygrader/mailpipe.py:822-825 | the inner loop finds a fingerprint ending in the key exactly when there is one |
| Mailpipe.CopyHeaders | pygrader/mailpipe.py:838-843 | the copy loop appends exactly the copied headers, in order |
| Mailpipe.DecodedOf | pygrader/mailpipe.py:685-689 | a message not verified for the key raises `UnsignedMessage`; a decoded one is authenticated; uses the signature check of the mailpipe.py:830 finding (the matching signature's summary decides) |
| Mailpipe.ParseErrorsAnnotated | pygrader/mailpipe.py:661-670 | a parse error carries the course, the original message and the sender when known |
| Mailpipe.ParseOk | pygrader/mailpipe.py:646-671 | a parsed message keeps the original, names a registered sender, a folded subject and a colon-free target, and is the verified message exactly when the sender has a key |
| Mailpipe.ParseWithoutKey | pygrader/mailpipe.py:655-658 | for a sender without a key, the verification result plays no part |
| Mailpipe.ParseUnsigned | pygrader/mailpipe.py:655-658 | a sender with a key whose message does not verify gets `UnsignedMessage` |
| Mailpipe.ParseMessage | pygrader/mailpipe.py:646-671 | parsing returns the specified result; uses the matching of the course.py:85 finding (a person without emails matches no email query) and the signature check of the mailpipe.py:830 finding (the matching signature's summary decides) |
| Mailpipe.Names | pygrader/mailpipe.py:754-760 | the handler names, in order |
| Mailpipe.HandlerFor | pygrader/mailpipe.py:754-760 | a handler is found exactly when the target is a handler name, and is that name's handler; otherwise `InvalidHandlerMessage` with `no handler for` |
| Mailpipe.PersonNames | pygrader/mailpipe.py:872-873 | the names of the matching people, in order |
| Mailpipe.ErrorResponse | pygrader/mailpipe.py:847-919 | an error without a course fails; a missing `Return-Path` gets no response; any response comes from the course robot, goes to one person, has a subject, answers the original and frames a text |
| Mailpipe.ErrorResponseText | pygrader/mailpipe.py:847-919 | the response carries the explanation's target, subject and text |
| Mailpipe.ErrorResponseSilent | pygrader/mailpipe.py:880-881 | with a course, there is no response exactly for a missing `Return-Path` |
| Mailpipe.ErrorResponseUnregistered | pygrader/mailpipe.py:874-879 | an unregistered address is answered to a person made from that address |
| Mailpipe.ErrorResponseNeedsPerson | pygrader/mailpipe.py:907-908 | any other error that names no person raises `NotImplementedError` |
| Mailpipe.ErrorResponseToPerson | pygrader/mailpipe.py:847-919 | an error that names a person is answered to that person, under the error's text unless it is a subjectless or unsigned message |
| Mailpipe.Answer | pygrader/mailpipe.py:564-577 | a caught error is re-raised unless the run goes on, passed over when not responding, and otherwise answered once; the answer from message loading is never empty |
| Mailpipe.Deliver | pygrader/mailpipe.py:578-605 | when responding, a handler's response goes from the robot to the sender under its subject, its text framed with the sender's alias and the robot's signature |
| Mailpipe.DeliverAsWrittenDropsResponses | pygrader/mailpipe.py:599-605 | as written, calling `construct_email` with a `message` keyword fails, so no handler response ever reaches the sender; as intended it does |
| Mailpipe.Step | pygrader/mailpipe.py:553-605 | one message sends at most one response and nothing when not responding; it moves to the output mailbox exactly when it parses, there is an output and this is not a dry run; a parse error stops the run unless it goes on; uses the delivery of the mailpipe.py:602-605 finding (a `Response` is framed and sent), and parses with the corrected matching and signature check |
| Mailpipe.StepUnknownTarget | pygrader/mailpipe.py:559-577 | a target that names no handler is answered with that error, annotated with what parsing found |
| Mailpipe.StepNoReturnPath | pygrader/mailpipe.py:628-638 | a message without a `Return-Path` is passed over in silence when the run goes on |
| Mailpipe.RunNext | pygrader/mailpipe.py:628-644 | each message extends the trace until a failure stops it |
| Mailpipe.RunMoves | pygrader/mailpipe.py:639-643 | only messages whose step moves them are moved; an input mailbox loses one entry per move; from standard input nothing is removed |
| Mailpipe.RunStops | pygrader/mailpipe.py:628-644 | once the run fails, later messages change nothing |
| Mailpipe.RunStopsAt | pygrader/mailpipe.py:628-644 | a failing message ends the run with that message as its last |
| Mailpipe.RunSends | pygrader/mailpipe.py:628-644 | a run sends at most one response per message, and nothing if no step does |
| Mailpipe.PipelineMoves | pygrader/mailpipe.py:639-643 | only messages that parse are moved, and a dry run or a missing output moves nothing |
| Mailpipe.PipelineSends | pygrader/mailpipe.py:628-644 | the pipeline sends at most one response per message, and nothing when not responding |
| Mailpipe.PipelineStopsAtInvalid | pygrader/mailpipe.py:631-633 | without the option to go on, a message that does not parse stops the run |
| Mailpipe.WithoutAllSnoc | pygrader/mailpipe.py:642-643 | deleting keys one at a time removes them all |
| Mailpipe.Process | pygrader/mailpipe.py:558-605 | the loop body's effect is the specified step; with the corrected halves `Mailpipe.Step` uses |
| Mailpipe.ProcessAt | pygrader/mailpipe.py:628-644 | parsing and handling one stored message gives its specified effect |
| Mailpipe.Apply | pygrader/mailpipe.py:634-644 | applying an effect to the mailboxes and the outbox extends the trace they mirror |
| Mailpipe.Advance | pygrader/mailpipe.py:628-644 | one turn of the loop extends the mirrored trace by that message's effect |
| Mailpipe.Drain | pygrader/mailpipe.py:553-644 | the loop leaves the mailboxes and the outbox as the run's trace says, and ends with its failure; with the corrected halves `Mailpipe.Step` uses, so on the inputs of the mailpipe.py findings it describes the intended run, not the crash |
| Mailpipe.Mailpipe | pygrader/mailpipe.py:89-644 | an unknown mailbox kind raises before anything changes; otherwise the mailboxes, the outbox and the failure are those of the run over standard input or the input mailbox; with the corrected halves `Mailpipe.Step` uses, so on the inputs of the mailpipe.py findings it describes the intended run, not the crash |

## Left out

- PGP/MIME signing, encryption and verification (RFC 3156) and the lxml reading of the verify report: verification is an abstract result, a list of signatures (fingerprints and a summary) plus a `verified` flag, or a raised error.
- RFC 2047 header decoding (`email.header.decode_header`) is the parameter `decode`.
- `email.utils.parsedate` with `time.mktime` is the parameter `stamp`, and `email.utils.formatdate` is `formatDate`, because both depend on the local time zone.
- The clock is the parameter `now`.
- Jinja rendering of notification texts: a template email records its author, targets, subject and the grades it lists, not its text.
- The bodies of `construct_*_email` are left out for the same reason.
- numpy `mean` and `std` in tabulate.py are the parameters `cellStat` and `totalStat`. `str()` of points and totals is `showPoints` and `showTotal`. They are floating-point formatting and statistics. The `get` handler's table passes the statistics as `GetHandler.TableStats` and shows points and totals with its `formatPoints`.
- Tabulate.StatTexts: states only that there is one cell per column. Each cell being the statistic of that column's points is its comprehension body, not an ensures.
- Tabulate.Paint: defined for the table's two colours only (none and blue), which are all that `tabulate` uses. `PaintStandard` ties it to `Color.ColorString`.
- IEEE floating point: points, weights, totals and times are `real`, so rounding is not modelled.
- Storage.ParseInt: reads an optional sign and ASCII decimal digits within whitespace. Python's `int()` also accepts underscores between digits (`1_0`) and non-ASCII digits; those are rejected here.
- Storage.ParseFloat: reads an optional sign, ASCII digits and at most one point within whitespace. Python's `float()` also accepts exponents (`1e-1`), underscores, `inf`, `infinity` and `nan` in any case, and non-ASCII digits; those are rejected here.
- Storage.LoadAssignment: "parses" means the subsets above. Points such as `1_0` or a weight such as `1e-1` load in the source but give `ValueError` here.
- Storage.LoadAssignment: reads `due` with the corrected zone offset (`Dates.ParseDateIntended`, the corrected half of the storage.py:151-153 finding), whereas storage.py:179 calls `parse_date` as written. The two agree when the hour of the zone starts with `0` and the zone is either ahead of UTC or has minutes `00`, as `-04:00` in the doctest. For zones such as `+10:00` or `-05:30` the source stores a different due time.
- Storage.LoadPersonFields, PersonModel.NewPerson, CourseModel.ActiveGroups: `load_person` leaves `groups` as `None` (storage.py:215, person.py:12), and the model gives `[]`. `load_course`, the only caller, always sets the groups (storage.py:57-66), so the difference is never seen there. A person loaded alone whose groups are then tested would raise `TypeError` in the source, in `active_groups` and in `find_people` by group; the model reads the groups as empty.
- Python's `str.lower`, `isspace` and `strip` are modelled on ASCII only. Unicode case folding and Unicode whitespace are not modelled.
- `repr` of a string escapes backslash, the chosen quote, `\n`, `\r` and `\t`. Other control and non-printable characters are not escaped.
- Object identity: comparing `Person` and `Assignment` objects with `==` is value equality in the model.
- The filesystem is abstract:
  - `_touch`, `os.makedirs` and `utime` are updates of a map from paths to modification times, except that the submission handler records the directories it creates as a set (`SubmissionHandler.Maildirs`), which is not connected to the tree `todo` walks;
  - maildirs and mboxes are sequences of stored messages;
  - `os.walk` is a walk over an abstract tree.
- `load_grades` reading grade files from disk, and `initialize`, which creates the course tree, are not modelled.
- `send_emails` and `test_smtp` (SMTP transport) are not part of this model. Neither is pygrader/email.py as a whole: a response is a `Reply` value.
- The snapshot's `email.py` has no `construct_response`, which mailpipe.py and handler/__init__.py import. Error responses are modelled as the framed text it is given.
- The snapshot's `email.py` defines only `test_smtp`, `send_emails`, `get_address` and `construct_email`. It also lacks `_construct_email`, which get.py:20 imports and get.py:478 calls, and `construct_text_email`, which grade.py:29 imports and grade.py:194 calls. As written, both handler modules fail at import. The submission email is modelled as a value (`GetHandler.Email`, built by `GetHandler.SubmissionEmailOf`), and the grade confirmation as a `Reply` value (`GradeHandler.Confirmation`).
- Logging (`_LOG`) and `use_color` for log output are not modelled.
- A missing output `stream` defaults to standard output; the model always takes the stream as an argument.
- The handler functions are abstract in the pipeline: each is a function from a parsed message to its outcome (finished, an `InvalidMessage`, a `Response`, or anything else).
- mailpipe.py:560-563 calls handlers without `original`, which the handlers require, so the call as written would fail. In the pipeline the handlers are abstract: `Mailpipe.Mailpipe` proves the run over any handlers, and each handler is proved in its own module. The pipeline is not proved composed with the concrete handlers.
- Mailpipe.PersonOf, Mailpipe.ParseMessage, Mailpipe.DecodedOf, Mailpipe.Step, Mailpipe.Process, Mailpipe.Drain, Mailpipe.Mailpipe: these compose the corrected halves of the course.py:85, mailpipe.py:830 and mailpipe.py:602-605 findings. On those findings' inputs the source raises, and these members describe the intended behaviour instead. The as-written behaviour is stated only by the findings' as-written members.
- GetHandler.AdminEmail, GetHandler.AdminAnswer, GetHandler.Dispatched, GetHandler.Handled, GetHandler.Run, GetHandler.StudentEmail: these compose the corrected refusal (get.py:391-394), the corrected call of the template (get.py:431-433), the corrected submission parts (get.py:464-468) and the corrected `find_people` (course.py:85, called at get.py:484 through `GetHandler.Everybody`). As written, the source raises on those findings' inputs: a staff request fails with `TypeError` as soon as some person has no emails, and every signed request from a student, or from staff naming one student and no assignment, fails with `TypeError` before anything is sent.
- GetHandler.StudentAnswerCases, GetHandler.StudentWithoutGrades, GetHandler.StudentWithoutGradesFails, GetHandler.AdminOneStudent: these state the corrected `_get_student_email` of the get.py:431-433 finding. As written, get.py:431-433 passes `targets=` to `_student_email`, whose signature (template.py:197) has no such parameter, so every call raises `TypeError` before these cases are reached; `GetHandler.StudentAnswerAsWritten` models that.
- SubmissionHandler.Run: this composes the corrected late check (submission.py:208). As written, a submission without a readable time raises `TypeError` after being saved.
- GradeHandler.Decided, GradeHandler.HandledResponds, GradeHandler.Run: these compose the corrected rejection of a message without a plain-text part (grade.py:211-212). As written, it raises `NameError`.
- grade.py imports `get_subject_student`, `get_subject_assignment`, `parse_grade`, `load_grade` and `save_grade`. None of these is in this snapshot of storage.py or handler/__init__.py. The lookups are parameters; parsing is `_load_grade` of storage.py; loading and saving go through a gradebook map.
- The snapshot's handler/__init__.py defines only `respond`. mailpipe.py defines `NoReturnPath`, `UnregisteredAddress`, `AmbiguousAddress`, `SubjectlessMessage` and `InvalidHandlerMessage` itself (mailpipe.py:49-87), and grade.py defines `MissingGradeMessage`; `Handler.Kind` follows those texts. The classes they import and that no file of this snapshot defines (`InvalidMessage`, `InvalidSubjectMessage`, `UnsignedMessage`, `PermissionViolationMessage` and `Response` from handler/__init__.py, `InvalidStudent` from get.py, `InvalidAssignment` from submission.py) are not part of this model as source text. `Handler.Kind`, `Handler.Invalid` and the handlers' outcome types reconstruct them from their uses: the attributes their constructors are given and the attributes mailpipe.py sets and reads.
- `Assignment.submittable` is read by the submission handler but not set in assignment.py. It is a `bool` field.
- `Person.is_admin` is not in person.py. It is modelled as membership in `professors` or `assistants`, as get.py:409 tests.
- bin/pg.py (command line, SMTP configuration, syslog), the test SMTP server and client, the temporary-course fixture, setup.py and the package logger are not part of this model.

## Findings

| source | as written | input that shows it | evidently intended | confidence | as-written member | corrected member |
|---|---|---|---|---|---|---|
| pygrader/storage.py:151-153 | the multiplier is `int(zone[1] + '1')`, read from the first hour digit, and `int` of the hour keeps the zone's sign, so the minutes get the wrong sign | `+10:00` gives an offset of 396000 s, not 36000 s; `-05:30` gives -16200 s, not -19800 s | the sign comes from `zone[0]` and applies to hours and minutes alike (`Dates.ZoneOffset`, proved by `Dates.ZoneOffsetValue`; `load_assignment` uses it) | not executed | Dates.ZoneTenHoursAsWritten | Dates.FinishIntended |
| pygrader/model/course.py:85 | `email in person.emails` is evaluated for every person and every query | a course holding a person loaded without an `emails` entry, which `load_person` leaves as `None`: any `find_people`, here by email `bb@shire.org`, raises `TypeError` | a person without emails matches no email query, and other queries work as usual | not executed | CourseModel.FindPeopleWithoutEmailsFails | CourseModel.MatchingMembers |
| pygrader/handler/submission.py:208 | `time > assignment.due + max_late` compares `None` when the message has no time | a submission without a `Received` field is acknowledged "at an unknown time" and saved, then `_check_late` raises `TypeError` | a submission whose time is unknown is not marked late | not executed | SubmissionHandler.LateAsWrittenFailsWithoutTime | SubmissionHandler.CheckLate |
| pygrader/handler/grade.py:211-212 | `_MissingGradeMessage` is not defined anywhere | a grade message whose only part is a PDF raises `NameError` | the request is rejected as a missing grade | not executed | GradeHandler.GradedAsWrittenCrashes | GradeHandler.GradedCorrected |
| pygrader/handler/get.py:391-394 | the hint formats `persion.pgp_key`, a name that does not exist | an unsigned `get` request, with a callback, from a person who has a PGP key raises `NameError` before anything is sent | the refusal names the person's key and is sent | not executed | GetHandler.RefusalAsWrittenCrashes | GetHandler.RefusalSays |
| pygrader/handler/get.py:431-433 | `_student_email` is called with a `targets` keyword, which its signature (pygrader/template.py:197) does not have | the doctest's signed `[get]` from Bilbo, who has no grades, raises `TypeError` before the "no grades" reply is sent; so does any student request and any staff request naming one student and no assignment | the template is called for the student, with the staff member who asked as the extra addressee, and the doctest's "We don't have any of your grades" reply is sent | not executed | GetHandler.StudentWithoutGradesAsWritten | GetHandler.StudentAnswerCases |
| pygrader/handler/get.py:464-468 | `course.grade` raises `ValueError` for a missing grade (pygrader/model/course.py:116-119), so the `if grade is not None` test never sees `None` | a staff request for the submissions of a student who submitted an assignment that is not yet graded fails | an ungraded assignment gets no grade note, and its submissions are still forwarded | not executed | GetHandler.UngradedSubmission | GetHandler.SubmissionPartsGraded |
| pygrader/mailpipe.py:830 | the summary is read from `signature`, the loop variable left at the last signature, not from `match` | an unverified report whose key's signature has summary 0 and is followed by another key's signature with summary 1 is refused | the summary of the matching signature decides | not executed | Mailpipe.VerifiedAsWrittenReadsWrongSummary | Mailpipe.VerifiedMessage |
| pygrader/mailpipe.py:602-605 | `construct_email` is called with a `message` keyword and no `text` (pygrader/email.py:153 takes neither) | any handler `Response` while responding raises `TypeError`, so the sender gets nothing | the response is framed and sent from the robot to the sender | not executed | Mailpipe.DeliverAsWrittenDropsResponses | Mailpipe.Deliver |
