/**
 * Reading a course from its directory (storage.py): assignments and people
 * from the configuration sections, grades from grade files, the names the
 * directory tree uses for people and assignments, and the marker files that
 * record late submissions and sent notifications.
 */
module Storage {

  import opened Outcome
  import opened Text
  import opened Sorting
  import Dates
  import opened PersonModel
  import opened AssignmentModel
  import opened GradeModel

  /** What loading raises. */
  datatype LoadError =
    | KeyError(key: string)        // an assignment option that is missing
    | NoSection(section: string)   // a listed person without a section of their own
    | ValueError                   // a number or date that does not parse
    | IndexError                   // `parse_date` on a zone too short to hold a sign and digit
    | AssertionError               // a weight with more than one `/`
    | ZeroDivisionError            // a weight `a/b` with `b` zero

  /** `data.get(key, default)`. */
  function Lookup(data: map<string, string>, key: string, default: string): string
  {
    if key in data then data[key] else default
  }

  // ---------------------------------------------------------------- numbers

  /** An optional leading sign: whether it is `-`, and what follows it. */
  function Unsigned(s: string): (bool, string)
  {
    if s != [] && (s[0] == '+' || s[0] == '-') then (s[0] == '-', s[1..]) else (false, s)
  }

  /** `int(s)`: decimal digits with an optional sign, surrounded by optional whitespace. */
  function ParseInt(s: string): Option<int>
  {
    var (negative, digits) := Unsigned(Strip(s));
    if digits != [] && AllDigits(digits) then
      Some(if negative then -(DigitsValue(digits) as int) else DigitsValue(digits) as int)
    else None
  }

  /** `str(n)` for an integer. */
  function IntString(n: int): string
  {
    if n < 0 then "-" + NatToString(-n) else NatToString(n)
  }

  /** `int` reads back what `str` writes. */
  lemma ParseIntOfString(n: int)
    ensures ParseInt(IntString(n)) == Some(n)
  {
    var digits := NatToString(if n < 0 then -n else n);
    StripOfTrimmed(IntString(n));
    NatToStringValue(if n < 0 then -n else n);
    if n < 0 {
      assert IntString(n)[1..] == digits;
    }
  }

  /** `float(s)`: digits with an optional point, sign and surrounding whitespace. */
  function ParseFloat(s: string): Option<real>
  {
    ParseStrippedFloat(Strip(s))
  }

  /** `float` of text without surrounding whitespace. */
  function ParseStrippedFloat(t: string): Option<real>
  {
    var (negative, body) := Unsigned(t);
    match Find(body, '.')
    case None =>
      if body != [] && AllDigits(body) then Some(Signed(negative, DigitsValue(body) as real)) else None
    case Some(k) =>
      var whole := body[..k];
      var fraction := body[k + 1..];
      if (whole != [] || fraction != []) && AllDigits(whole) && AllDigits(fraction) then
        Some(Signed(negative, DigitsValue(whole) as real + Dates.FractionValue(fraction)))
      else None
  }

  function Signed(negative: bool, x: real): real
  {
    if negative then -x else x
  }

  /** Every string `int` accepts, `float` accepts with the same value. */
  lemma ParseFloatOfInt(s: string)
    requires ParseInt(s).Some?
    ensures ParseFloat(s) == Some(ParseInt(s).value as real)
  {
    var (negative, digits) := Unsigned(Strip(s));
    NoPointInDigits(digits);
  }

  lemma NoPointInDigits(digits: string)
    requires AllDigits(digits)
    ensures '.' !in digits && '/' !in digits && '\n' !in digits
  {
  }

  /** A decimal written with a point reads back as its whole part plus its fraction. */
  lemma ParseFloatOfDecimal(n: nat, digits: string)
    requires AllDigits(digits) && digits != []
    ensures ParseFloat(NatToString(n) + "." + digits) == Some(n as real + Dates.FractionValue(digits))
  {
    var whole := NatToString(n);
    var s := whole + "." + digits;
    assert s[0] == whole[0] && s[|s| - 1] == digits[|digits| - 1];
    StripOfTrimmed(s);
    ParseStrippedDecimal(n, digits);
  }

  lemma ParseStrippedDecimal(n: nat, digits: string)
    requires AllDigits(digits) && digits != []
    ensures ParseStrippedFloat(NatToString(n) + "." + digits) == Some(n as real + Dates.FractionValue(digits))
  {
    var whole := NatToString(n);
    var s := whole + "." + digits;
    assert s[0] == whole[0];
    assert Unsigned(s) == (false, s);
    NoPointInDigits(whole);
    PointAfter(whole, digits);
    NatToStringValue(n);
    ParseStrippedPoint(s, whole, digits);
  }

  /** Unsigned text with its first point after `whole` reads as `whole` plus the fraction after the point. */
  lemma ParseStrippedPoint(t: string, whole: string, fraction: string)
    requires Unsigned(t) == (false, t) && Find(t, '.') == Some(|whole|)
    requires t[..|whole|] == whole && t[|whole| + 1..] == fraction
    requires (whole != [] || fraction != []) && AllDigits(whole) && AllDigits(fraction)
    ensures ParseStrippedFloat(t) == Some(DigitsValue(whole) as real + Dates.FractionValue(fraction))
  {
  }

  lemma PointAfter(whole: string, digits: string)
    requires '.' !in whole
    ensures Find(whole + "." + digits, '.') == Some(|whole|)
    ensures (whole + "." + digits)[..|whole|] == whole && (whole + "." + digits)[|whole| + 1..] == digits
  {
    var s := whole + "." + digits;
    assert s[|whole|] == '.';
  }

  // ---------------------------------------------------------------- load_assignment

  /** The `weight` option: a number, or the quotient of two numbers around one `/`. */
  function Weight(w: string): Result<real, LoadError>
  {
    WeightOfTerms(Split(w, '/'))
  }

  /** The weight from the pieces around the slashes: one number, or the quotient of two. */
  function WeightOfTerms(terms: seq<string>): Result<real, LoadError>
    requires terms != []
  {
    if |terms| == 1 then
      match ParseFloat(terms[0])
      case None => Err(ValueError)
      case Some(x) => Ok(x)
    else if |terms| != 2 then Err(AssertionError)
    else
      match ParseFloat(terms[0])
      case None => Err(ValueError)
      case Some(a) =>
        match ParseFloat(terms[1])
        case None => Err(ValueError)
        case Some(b) => if b == 0.0 then Err(ZeroDivisionError) else Ok(a / b)
  }


  /**
   * A weight without `/` is read as one number; two or more `/` fail the
   * assertion, and nothing else does.
   */
  lemma WeightCases(w: string)
    ensures '/' !in w ==> Weight(w) == (if ParseFloat(w).Some? then Ok(ParseFloat(w).value) else Err(ValueError))
    ensures Weight(w) == Err(AssertionError) <==> multiset(w)['/'] >= 2
  {
    SplitCount(w, '/');
    if '/' !in w {
      assert Split(w, '/') == [w];
    }
  }

  /** `a/b` is the quotient of the two numbers. */
  lemma WeightQuotient(a: string, b: string)
    requires '/' !in a && '/' !in b
    requires ParseFloat(a).Some? && ParseFloat(b).Some? && ParseFloat(b).value != 0.0
    ensures Weight(a + "/" + b) == Ok(ParseFloat(a).value / ParseFloat(b).value)
  {
    assert a + "/" + b == a + ['/'] + b;
    SplitTwo(a, b, '/');
    QuotientOfTerms(a, b);
  }

  lemma QuotientOfTerms(a: string, b: string)
    requires ParseFloat(a).Some? && ParseFloat(b).Some? && ParseFloat(b).value != 0.0
    ensures WeightOfTerms([a, b]) == Ok(ParseFloat(a).value / ParseFloat(b).value)
  {
    assert [a, b][0] == a && [a, b][1] == b;
  }

  /** `float` of a whole number written by `str`. */
  lemma ParseFloatOfNat(m: nat)
    ensures ParseFloat(NatToString(m)) == Some(m as real)
  {
    ParseIntOfString(m);
    assert IntString(m) == NatToString(m);
    ParseFloatOfInt(NatToString(m));
  }

  /** A decimal over a positive whole number is read as their quotient. */
  lemma WeightOfDecimalOverWhole(n: nat, digits: string, m: nat)
    requires AllDigits(digits) && digits != [] && m > 0
    ensures ParseFloat(NatToString(n) + "." + digits) == Some(n as real + Dates.FractionValue(digits))
    ensures Weight(NatToString(n) + "." + digits + "/" + NatToString(m)) ==
            Ok(ParseFloat(NatToString(n) + "." + digits).value / m as real)
  {
    var a := NatToString(n) + "." + digits;
    ParseFloatOfDecimal(n, digits);
    ParseFloatOfNat(m);
    NoPointInDigits(NatToString(n));
    NoPointInDigits(digits);
    NoPointInDigits(NatToString(m));
    WeightQuotient(a, NatToString(m));
  }

  /** `'0.1/2'` is 0.05. */
  lemma WeightExample()
    ensures Weight("0.1/2") == Ok(0.05)
  {
    TenthOverTwo("0.1/2");
  }

  // The example goes through parameters so that the verifier does not evaluate
  // `ParseFloat` and real division on literal arguments.
  lemma TenthOverTwo(w: string)
    requires w == "0.1/2"
    ensures Weight(w) == Ok(0.05)
  {
    assert w == NatToString(0) + "." + "1" + "/" + NatToString(2) by {
      assert NatToString(0) == "0" && NatToString(2) == "2";
    }
    assert Dates.FractionValue("1") == 0.1 by {
      assert "1"[1..] == "";
      assert DigitValue('1') == 1;
    }
    TenthOverTwoParts(0, "1", 2);
  }

  /** Any decimal worth 0.1 over any whole number worth 2 is read as 0.05. */
  lemma TenthOverTwoParts(n: nat, digits: string, m: nat)
    requires AllDigits(digits) && digits != [] && m > 0
    requires n as real + Dates.FractionValue(digits) == 0.1 && m as real == 2.0
    ensures Weight(NatToString(n) + "." + digits + "/" + NatToString(m)) == Ok(0.05)
  {
    WeightOfDecimalOverWhole(n, digits, m);
    HalfOfTenth(ParseFloat(NatToString(n) + "." + digits).value, m as real);
  }

  lemma HalfOfTenth(x: real, y: real)
    requires x == 0.1 && y == 2.0
    ensures x / y == 0.05
  {
  }

  function DateFailure(e: Dates.DateError): LoadError
  {
    match e
    case ValueError => ValueError
    case IndexError => IndexError
  }

  /**
   * `load_assignment`: the options are read in the order points, weight, due;
   * the first that is missing is a `KeyError`, the first that does not parse
   * fails with that parser's error.  The due time is read with the zone
   * offset corrected (`Dates.ParseDateIntended`).
   */
  function LoadAssignment(name: string, data: map<string, string>): (r: Result<Assignment, LoadError>)
    ensures "points" !in data ==> r == Err(KeyError("points"))
    ensures "points" in data && ParseInt(data["points"]).Some? && "weight" !in data ==> r == Err(KeyError("weight"))
    ensures r.Ok? <==> "points" in data && "weight" in data && "due" in data &&
                       ParseInt(data["points"]).Some? && Weight(data["weight"]).Ok? && Dates.ParseDateIntended(data["due"]).Ok?
    ensures r.Ok? ==> r.value.name == name && r.value.points == ParseInt(data["points"]).value &&
                      r.value.weight == Weight(data["weight"]).value && r.value.due == Dates.ParseDateIntended(data["due"]).value
  {
    if "points" !in data then Err(KeyError("points"))
    else match ParseInt(data["points"])
      case None => Err(ValueError)
      case Some(points) =>
        if "weight" !in data then Err(KeyError("weight"))
        else match Weight(data["weight"])
          case Err(e) => Err(e)
          case Ok(weight) =>
            if "due" !in data then Err(KeyError("due"))
            else match Dates.ParseDateIntended(data["due"])
              case Err(e) => Err(DateFailure(e))
              case Ok(due) => Ok(NewAssignment(name, points, weight, due))
  }

  /** The due time `2011-10-04T00:00-04:00` is 1317700800, midnight four hours behind UTC. */
  lemma DueExample()
    ensures Dates.Finish(Dates.Timegm(Dates.Clock(2011, 10, 4, 0, 0, 0)) as real, "", "-04:00", Dates.ZoneOffsetAsWritten) ==
            Ok(1317700800.0)
    ensures Dates.Finish(Dates.Timegm(Dates.Clock(2011, 10, 4, 0, 0, 0)) as real, "", "-04:00", Dates.ZoneOffset) ==
            Ok(1317700800.0)
  {
    var z := Dates.Offset(false, 4, 0);
    assert Dates.ZoneText(z) == "-04:00";
    assert Dates.FractionText("") == "";
    MidnightExample();
    Dates.FinishDocumented(1317686400.0, "", z);
    Dates.FinishIntended(1317686400.0, "", z);
  }

  lemma MidnightExample()
    ensures Dates.Timegm(Dates.Clock(2011, 10, 4, 0, 0, 0)) == 1317686400
  {
  }

  // ---------------------------------------------------------------- load_person

  /** Every piece with its surrounding whitespace removed. */
  function StripAll(pieces: seq<string>): seq<string>
  {
    seq(|pieces|, i requires 0 <= i < |pieces| => Strip(pieces[i]))
  }

  /** `filter(bool, ...)` on strings: the nonempty entries, in order. */
  function DropBlank(xs: seq<string>): (r: seq<string>)
    ensures |r| <= |xs|
    ensures forall e :: e in r ==> e != ""
  {
    if xs == [] then []
    else (if xs[0] == "" then [] else [xs[0]]) + DropBlank(xs[1..])
  }

  /** The `k`-th entry kept is an entry of the input. */
  lemma {:induction false} DropBlankAt(xs: seq<string>, k: nat) returns (i: nat)
    requires k < |DropBlank(xs)|
    ensures i < |xs| && xs[i] == DropBlank(xs)[k]
  {
    var kept := if xs[0] == "" then [] else [xs[0]];
    var rest := xs[1..];
    assert DropBlank(xs) == kept + DropBlank(rest);
    if k < |kept| {
      i := 0;
    } else {
      var j := DropBlankAt(rest, k - |kept|);
      i := j + 1;
      assert rest[j] == xs[i];
    }
  }

  /** Every nonempty entry is kept. */
  lemma {:induction false} DropBlankKeeps(xs: seq<string>, i: nat)
    requires i < |xs| && xs[i] != ""
    ensures xs[i] in DropBlank(xs)
  {
    var kept := if xs[0] == "" then [] else [xs[0]];
    var rest := xs[1..];
    assert DropBlank(xs) == kept + DropBlank(rest);
    if i > 0 {
      DropBlankKeeps(rest, i - 1);
      assert rest[i - 1] == xs[i];
    }
  }

  /** Exactly the nonempty entries are kept. */
  lemma DropBlankMembers(xs: seq<string>, e: string)
    ensures e in DropBlank(xs) <==> e in xs && e != ""
  {
    if e in DropBlank(xs) {
      var k :| 0 <= k < |DropBlank(xs)| && DropBlank(xs)[k] == e;
      var i := DropBlankAt(xs, k);
    }
    if e in xs && e != "" {
      var i :| 0 <= i < |xs| && xs[i] == e;
      DropBlankKeeps(xs, i);
    }
  }

  /** A list with no empty entry is left as it is. */
  lemma {:induction false} DropBlankOfClean(xs: seq<string>)
    requires forall e :: e in xs ==> e != ""
    ensures DropBlank(xs) == xs
  {
    if xs != [] {
      var rest := xs[1..];
      assert forall e :: e in rest ==> e in xs;
      DropBlankOfClean(rest);
      assert xs[0] in xs;
      assert DropBlank(xs) == [xs[0]] + rest;
      assert [xs[0]] + rest == xs;
    }
  }

  /** The stripped, non-blank pieces, in order. */
  function NonBlank(pieces: seq<string>): (r: seq<string>)
    ensures forall e :: e in r ==> e != "" && Trimmed(e)
  {
    var stripped := StripAll(pieces);
    var r := DropBlank(stripped);
    forall e | e in r
      ensures Trimmed(e)
    {
      DropBlankMembers(stripped, e);
    }
    r
  }

  /** `e` is what some piece strips to, and not blank. */
  predicate StripsTo(pieces: seq<string>, e: string)
  {
    e != "" && exists i :: 0 <= i < |pieces| && Strip(pieces[i]) == e
  }

  /** Exactly the non-blank pieces, stripped, are kept. */
  lemma NonBlankMembers(pieces: seq<string>, e: string)
    ensures e in NonBlank(pieces) <==> StripsTo(pieces, e)
  {
    if e in NonBlank(pieces) {
      var i := NonBlankSource(pieces, e);
    }
    if StripsTo(pieces, e) {
      var i :| 0 <= i < |pieces| && Strip(pieces[i]) == e;
      NonBlankKeeps(pieces, i);
    }
  }

  /** Every kept entry comes from a piece. */
  lemma NonBlankSource(pieces: seq<string>, e: string) returns (i: nat)
    requires e in NonBlank(pieces)
    ensures i < |pieces| && Strip(pieces[i]) == e
  {
    var stripped := StripAll(pieces);
    var k :| 0 <= k < |DropBlank(stripped)| && DropBlank(stripped)[k] == e;
    i := DropBlankAt(stripped, k);
  }

  /** Every piece that is not blank once stripped is kept. */
  lemma NonBlankKeeps(pieces: seq<string>, i: nat)
    requires i < |pieces| && Strip(pieces[i]) != ""
    ensures Strip(pieces[i]) in NonBlank(pieces)
  {
    DropBlankKeeps(StripAll(pieces), i);
  }


  /** The addresses of an `emails` option: comma-separated, stripped, blanks dropped. */
  function EmailList(option: string): (r: seq<string>)
    ensures forall e :: e in r ==> e != "" && Trimmed(e) && ',' !in e
  {
    var pieces := Split(option, ',');
    var r := NonBlank(pieces);
    forall e | e in r
      ensures ',' !in e
    {
      NonBlankMembers(pieces, e);
      var i :| 0 <= i < |pieces| && Strip(pieces[i]) == e;
      StripWithin(pieces[i]);
      AbsentFromSubstring(e, pieces[i], ',');
    }
    r
  }

  /** Addresses that are already clean come back exactly from their comma-separated list. */
  lemma {:induction false} EmailListOfJoin(emails: seq<string>)
    requires emails != []
    requires forall e :: e in emails ==> e != "" && Trimmed(e) && ',' !in e
    ensures EmailList(Join(emails, [','])) == emails
  {
    SplitJoin(emails, ',');
    NonBlankOfClean(emails);
  }

  lemma NonBlankOfClean(pieces: seq<string>)
    requires forall e :: e in pieces ==> e != "" && Trimmed(e)
    ensures NonBlank(pieces) == pieces
  {
    forall i | 0 <= i < |pieces|
      ensures StripAll(pieces)[i] == pieces[i]
    {
      StripOfTrimmed(pieces[i]);
    }
    assert StripAll(pieces) == pieces;
    DropBlankOfClean(pieces);
  }

  /** `load_person`: addresses, nickname and key from the person's section; no groups yet. */
  function LoadPerson(name: string, data: map<string, string>): Person
  {
    var emails := EmailList(Lookup(data, "emails", ""));
    var nickname := Lookup(data, "nickname", "");
    var key := Lookup(data, "pgp-key", "");
    NewPerson(name,
              emails := if emails == [] then None else Some(emails),
              pgpKey := if key == "" then None else Some(key),
              aliases := if nickname == "" then [] else [nickname])
  }

  /** The addresses of an option are exactly its stripped non-blank pieces. */
  lemma EmailListMembers(option: string, e: string)
    ensures e in EmailList(option) <==> StripsTo(Split(option, ','), e)
  {
    NonBlankMembers(Split(option, ','), e);
  }

  /** An option has no addresses exactly when every piece of it is blank. */
  lemma EmailListEmpty(option: string)
    ensures var pieces := Split(option, ',');
            EmailList(option) == [] <==> forall i :: 0 <= i < |pieces| ==> Strip(pieces[i]) == ""
  {
    var pieces := Split(option, ',');
    if EmailList(option) == [] {
      forall i | 0 <= i < |pieces|
        ensures Strip(pieces[i]) == ""
      {
        EmailListMembers(option, Strip(pieces[i]));
      }
    } else {
      EmailListMembers(option, EmailList(option)[0]);
    }
  }

  /** A loaded person has no addresses exactly when every piece of the option is blank. */
  lemma LoadPersonNoEmails(name: string, data: map<string, string>)
    ensures var pieces := Split(Lookup(data, "emails", ""), ',');
            LoadPerson(name, data).emails.None? <==> forall i :: 0 <= i < |pieces| ==> Strip(pieces[i]) == ""
  {
    LoadPersonEmailList(name, data);
    EmailListEmpty(Lookup(data, "emails", ""));
  }

  /** The addresses a loaded person has are exactly the stripped non-blank pieces of the option. */
  lemma LoadPersonEmails(name: string, data: map<string, string>, e: string)
    requires LoadPerson(name, data).emails.Some?
    ensures e in LoadPerson(name, data).emails.value <==> StripsTo(Split(Lookup(data, "emails", ""), ','), e)
  {
    LoadPersonEmailList(name, data);
    EmailListMembers(Lookup(data, "emails", ""), e);
  }

  lemma LoadPersonEmailList(name: string, data: map<string, string>)
    ensures LoadPerson(name, data).emails ==
            if EmailList(Lookup(data, "emails", "")) == [] then None else Some(EmailList(Lookup(data, "emails", "")))
  {
  }

  /**
   * A loaded person keeps their name and has no groups yet; the nickname,
   * when non-empty, is the name to address them by; the key is kept when
   * non-empty.
   */
  lemma {:induction false} LoadPersonFields(name: string, data: map<string, string>)
    ensures LoadPerson(name, data).name == name && LoadPerson(name, data).groups == []
    ensures Alias(LoadPerson(name, data)) == (if Lookup(data, "nickname", "") != "" then data["nickname"] else name)
    ensures LoadPerson(name, data).pgpKey.Some? <==> Lookup(data, "pgp-key", "") != ""
    ensures LoadPerson(name, data).pgpKey.Some? ==> LoadPerson(name, data).pgpKey.value == Lookup(data, "pgp-key", "")
  {
  }

  /** A person without a section of options has no addresses, no key and their name as alias. */
  lemma LoadPersonBare(name: string)
    ensures LoadPerson(name, map[]) == NewPerson(name)
  {
    assert Split("", ',') == [""];
    assert Strip("") == "";
  }

  // ---------------------------------------------------------------- _load_grade

  /** `stream.readline()` then `stream.read()`: the first line with its newline, and the rest. */
  function ReadLine(content: string): (r: (string, string))
    ensures r.0 + r.1 == content
    ensures forall i :: 0 <= i < |r.0| - 1 ==> r.0[i] != '\n'
    ensures r.1 != [] ==> r.0 != [] && r.0[|r.0| - 1] == '\n'
  {
    match Find(content, '\n')
    case None => (content, "")
    case Some(k) =>
      assert content[..k + 1][..k] == content[..k];
      (content[..k + 1], content[k + 1..])
  }

  /** `_load_grade`: points on the first line, the stripped rest as the comment or none. */
  function LoadGrade(content: string, assignment: Assignment, person: Person): (r: Result<Grade, LoadError>)
    ensures r.Err? <==> ParseFloat(ReadLine(content).0).None?
    ensures r.Err? ==> r.error == ValueError
    ensures r.Ok? ==> r.value.student == person && r.value.assignment == assignment &&
                      !r.value.late && !r.value.notified
    ensures r.Ok? && r.value.comment.Some? ==> r.value.comment.value != "" && Trimmed(r.value.comment.value)
  {
    var (line, rest) := ReadLine(content);
    match ParseFloat(line)
    case None => Err(ValueError)
    case Some(points) =>
      var comment := Strip(rest);
      Ok(NewGrade(person, assignment, points, if comment == "" then None else Some(comment)))
  }

  /** A grade file as it is written: whole points, an optional fraction, then the comment. */
  function GradeText(points: nat, digits: string, comment: Option<string>): string
  {
    if digits == [] then NatToString(points) + "\n" + comment.GetOr("")
    else NatToString(points) + "." + digits + "\n" + comment.GetOr("")
  }

  /** Loading a written grade file gives back its points and its comment. */
  lemma LoadGradeOfText(points: nat, digits: string, comment: Option<string>, assignment: Assignment, person: Person)
    requires AllDigits(digits)
    requires comment.Some? ==> comment.value != "" && Trimmed(comment.value)
    ensures var r := LoadGrade(GradeText(points, digits, comment), assignment, person);
            r.Ok? && r.value.points == points as real + Dates.FractionValue(digits) && r.value.comment == comment
  {
    var whole := NatToString(points);
    var rest := comment.GetOr("");
    var line;
    NoPointInDigits(whole);
    if digits == [] {
      line := whole + "\n";
      ReadLineOf(whole, rest);
      WholeLine(points);
    } else {
      NoPointInDigits(digits);
      var number := whole + "." + digits;
      line := number + "\n";
      ReadLineOf(number, rest);
      DecimalLine(points, digits);
    }
    if comment.Some? {
      StripOfTrimmed(comment.value);
    } else {
      assert Strip(rest) == "";
    }
    LoadGradeOf(GradeText(points, digits, comment), line, rest, assignment, person);
  }

  lemma LoadGradeOf(content: string, line: string, rest: string, assignment: Assignment, person: Person)
    requires ReadLine(content) == (line, rest) && ParseFloat(line).Some?
    ensures var r := LoadGrade(content, assignment, person);
            r.Ok? && r.value.points == ParseFloat(line).value &&
            r.value.comment == if Strip(rest) == "" then None else Some(Strip(rest))
  {
  }

  lemma WholeLine(points: nat)
    ensures ParseFloat(NatToString(points) + "\n") == Some(points as real)
  {
    var whole := NatToString(points);
    assert Trimmed(whole) by {
      assert IsDigit(whole[0]) && IsDigit(whole[|whole| - 1]);
    }
    ParseFloatIgnoresNewline(whole);
    assert whole == IntString(points);
    ParseIntOfString(points);
    ParseFloatOfInt(whole);
  }

  lemma DecimalLine(points: nat, digits: string)
    requires AllDigits(digits) && digits != []
    ensures ParseFloat(NatToString(points) + "." + digits + "\n") == Some(points as real + Dates.FractionValue(digits))
  {
    var whole := NatToString(points);
    var number := whole + "." + digits;
    assert Trimmed(number) by {
      assert number[0] == whole[0] && IsDigit(whole[0]);
      assert number[|number| - 1] == digits[|digits| - 1] && IsDigit(digits[|digits| - 1]);
    }
    ParseFloatIgnoresNewline(number);
    ParseFloatOfDecimal(points, digits);
  }

  lemma ParseFloatIgnoresNewline(s: string)
    requires s != [] && Trimmed(s)
    ensures ParseFloat(s + "\n") == ParseFloat(s)
  {
    StripNewline(s);
    StripOfTrimmed(s);
  }

  lemma StripNewline(s: string)
    requires s != [] && Trimmed(s)
    ensures Strip(s + "\n") == s
  {
    assert (s + "\n")[0] == s[0];
    assert LStrip(s + "\n") == s + "\n";
    assert (s + "\n")[..|s|] == s;
    assert RStrip(s + "\n") == RStrip(s);
    StripOfTrimmed(s);
  }

  /** `readline` stops after the first newline. */
  lemma ReadLineOf(line: string, rest: string)
    requires '\n' !in line
    ensures ReadLine(line + "\n" + rest) == (line + "\n", rest)
  {
    var content := line + "\n" + rest;
    assert content[|line|] == '\n';
    assert content[..|line| + 1] == line + "\n" && content[|line| + 1..] == rest;
  }

  // ---------------------------------------------------------------- names in the directory tree

  /** The substitutions `_filesystem_name` makes, in order. */
  const Substitutions: seq<(char, string)> := [(' ', "_"), ('.', ""), ('\'', ""), ('"', "")]

  function SubstituteAll(name: string, subs: seq<(char, string)>): string
    decreases |subs|
  {
    if subs == [] then name else SubstituteAll(ReplaceChar(name, subs[0].0, subs[0].1), subs[1..])
  }

  /** The name of a person or assignment in the directory tree. */
  function FsName(name: string): string
  {
    SubstituteAll(name, Substitutions)
  }

  lemma {:induction false} ReplaceCharKeepsAbsent(s: string, c: char, repl: string, d: char)
    requires d !in s && d !in repl
    ensures d !in ReplaceChar(s, c, repl)
  {
    if s != [] {
      ReplaceCharKeepsAbsent(s[1..], c, repl, d);
    }
  }

  /** `_filesystem_name`: spaces become underscores; points and quotes are dropped. */
  method FilesystemName(name: string) returns (r: string)
    ensures r == FsName(name)
    ensures forall i :: 0 <= i < |Substitutions| ==> Substitutions[i].0 !in r
  {
    r := name;
    for i := 0 to |Substitutions|
      invariant SubstituteAll(r, Substitutions[i..]) == FsName(name)
      invariant forall j :: 0 <= j < i ==> Substitutions[j].0 !in r
    {
      var (a, b) := Substitutions[i];
      assert Substitutions[i..][1..] == Substitutions[i + 1..];
      forall j | 0 <= j < i
        ensures Substitutions[j].0 !in ReplaceChar(r, a, b)
      {
        ReplaceCharKeepsAbsent(r, a, b, Substitutions[j].0);
      }
      r := ReplaceChar(r, a, b);
    }
    assert Substitutions[|Substitutions|..] == [];
  }

  /** No name in the tree holds a space, a point or a quote. */
  lemma FsNameClean(name: string)
    ensures ' ' !in FsName(name) && '.' !in FsName(name) && '\'' !in FsName(name) && '"' !in FsName(name)
  {
    var s1 := ReplaceChar(name, ' ', "_");
    var s2 := ReplaceChar(s1, '.', "");
    var s3 := ReplaceChar(s2, '\'', "");
    var s4 := ReplaceChar(s3, '"', "");
    assert FsName(name) == s4;
    ReplaceCharKeepsAbsent(s1, '.', "", ' ');
    ReplaceCharKeepsAbsent(s2, '\'', "", ' ');
    ReplaceCharKeepsAbsent(s2, '\'', "", '.');
    ReplaceCharKeepsAbsent(s3, '"', "", ' ');
    ReplaceCharKeepsAbsent(s3, '"', "", '.');
    ReplaceCharKeepsAbsent(s3, '"', "", '\'');
  }

  /** Mangling a mangled name changes nothing. */
  lemma FsNameIdempotent(name: string)
    ensures FsName(FsName(name)) == FsName(name)
  {
    FsNameClean(name);
  }

  /** `os.path.join` of two components. */
  function PathJoin(a: string, b: string): (r: string)
    ensures b != [] && b[0] == '/' ==> r == b
    ensures EndsWith(r, b)
  {
    if b != [] && b[0] == '/' then b
    else if a == [] || a[|a| - 1] == '/' then a + b
    else a + "/" + b
  }

  /** `assignment_path`: the directory of one person's work on one assignment. */
  function AssignmentPath(basedir: string, assignment: Assignment, person: Person): string
  {
    PathJoin(PathJoin(basedir, FsName(person.name)), FsName(assignment.name))
  }

  /**
   * For names without `/`, the path from the course directory is the person's
   * directory, then the assignment's, and splitting it recovers both.
   */
  lemma AssignmentPathParts(assignment: Assignment, person: Person)
    requires FsName(person.name) != [] && FsName(assignment.name) != []
    requires '/' !in FsName(person.name) && '/' !in FsName(assignment.name)
    ensures AssignmentPath("", assignment, person) == FsName(person.name) + "/" + FsName(assignment.name)
    ensures Split(AssignmentPath("", assignment, person), '/') == [FsName(person.name), FsName(assignment.name)]
  {
    assert FsName(person.name)[0] in FsName(person.name);
    assert FsName(assignment.name)[0] in FsName(assignment.name);
    SplitTwo(FsName(person.name), FsName(assignment.name), '/');
  }

  // ---------------------------------------------------------------- marker files

  /** The marker `set_late` touches and `load_grades` looks for. */
  function LatePath(basedir: string, assignment: Assignment, person: Person): string
  {
    PathJoin(AssignmentPath(basedir, assignment, person), "late")
  }

  /** The marker `set_notified` touches. */
  function NotifiedPath(basedir: string, g: Grade): string
  {
    PathJoin(AssignmentPath(basedir, g.assignment, g.student), "notified")
  }

  /** The file a grade is read from. */
  function GradePath(basedir: string, g: Grade): string
  {
    PathJoin(AssignmentPath(basedir, g.assignment, g.student), "grade")
  }

  /** A grade's marker and its grade file are different files. */
  lemma MarkerIsNotGradeFile(basedir: string, g: Grade)
    ensures NotifiedPath(basedir, g) != GradePath(basedir, g)
  {
    var n := NotifiedPath(basedir, g);
    var f := GradePath(basedir, g);
    assert EndsWith(n, "notified") && EndsWith(f, "grade");
    assert n[|n| - 1] == 'd' && f[|f| - 1] == 'e';
  }

  /**
   * The files under a course directory, each with its modification time, as
   * far as the late and notified markers are concerned.
   */
  class Store {
    const basedir: string
    var files: map<string, int>

    constructor (basedir: string, files: map<string, int>)
      ensures this.basedir == basedir && this.files == files
    {
      this.basedir := basedir;
      this.files := files;
    }

    /** How `load_grades` decides lateness: the marker exists. */
    predicate IsLate(assignment: Assignment, person: Person)
      reads this
    {
      LatePath(basedir, assignment, person) in files
    }

    /** How `load_grades` decides notification: the marker is newer than the grade file. */
    predicate IsNotified(g: Grade)
      reads this
    {
      var n := NotifiedPath(basedir, g);
      var f := GradePath(basedir, g);
      n in files && f in files && files[n] > files[f]
    }

    /** `set_late`: touch the late marker, which is created if missing. */
    method SetLate(assignment: Assignment, person: Person, now: int)
      modifies this
      ensures files == old(files)[LatePath(basedir, assignment, person) := now]
      ensures IsLate(assignment, person)
    {
      files := files[LatePath(basedir, assignment, person) := now];
    }

    /** `set_notified`: touch the notified marker; it is then newer than a grade file written before. */
    method SetNotified(g: Grade, now: int)
      modifies this
      ensures files == old(files)[NotifiedPath(basedir, g) := now]
      ensures GradePath(basedir, g) in old(files) && old(files)[GradePath(basedir, g)] < now ==> IsNotified(g)
    {
      MarkerIsNotGradeFile(basedir, g);
      files := files[NotifiedPath(basedir, g) := now];
    }
  }

  // ---------------------------------------------------------------- load_course

  /** The groups `load_course` reads, in the order it reads them. */
  const GroupOrder: seq<string> := ["professors", "assistants", "students"]

  /** `[a.strip() for a in value.split(',')]`. */
  function NameList(value: string): (r: seq<string>)
    ensures |r| == |Split(value, ',')|
    ensures forall i :: 0 <= i < |r| ==> r[i] == Strip(Split(value, ',')[i])
  {
    var pieces := Split(value, ',');
    seq(|pieces|, i requires 0 <= i < |pieces| => Strip(pieces[i]))
  }

  /** Each name of a roster, paired with the roster's group. */
  function Tag(names: seq<string>, group: string): (r: seq<(string, string)>)
    ensures |r| == |names|
    ensures forall i :: 0 <= i < |r| ==> r[i] == (names[i], group)
  {
    seq(|names|, i requires 0 <= i < |names| => (names[i], group))
  }

  /** Every (person, group) the nested loop of `load_course` visits, in order. */
  function Visits(rosters: seq<seq<string>>, groups: seq<string>): seq<(string, string)>
    requires |rosters| == |groups|
  {
    if rosters == [] then []
    else Visits(rosters[..|rosters| - 1], groups[..|groups| - 1]) + Tag(rosters[|rosters| - 1], groups[|groups| - 1])
  }

  function Names(visits: seq<(string, string)>): (r: seq<string>)
    ensures |r| == |visits|
    ensures forall i :: 0 <= i < |r| ==> r[i] == visits[i].0
  {
    seq(|visits|, i requires 0 <= i < |visits| => visits[i].0)
  }

  /** The groups of the visits to `name`, in order. */
  function GroupsOf(name: string, visits: seq<(string, string)>): seq<string>
  {
    if visits == [] then []
    else
      var last := visits[|visits| - 1];
      GroupsOf(name, visits[..|visits| - 1]) + (if last.0 == name then [last.1] else [])
  }

  /** A person as `load_course` leaves them: loaded once, with every group they were visited in. */
  function Loaded(name: string, sections: map<string, map<string, string>>, visits: seq<(string, string)>): Person
    requires name in sections
  {
    LoadPerson(name, sections[name]).(groups := GroupsOf(name, visits))
  }

  /** Every listed name is visited. */
  lemma {:induction false} VisitsListed(rosters: seq<seq<string>>, groups: seq<string>, g: nat, i: nat)
    requires |rosters| == |groups| && g < |rosters| && i < |rosters[g]|
    ensures rosters[g][i] in Names(Visits(rosters, groups))
  {
    var k := |rosters| - 1;
    var before := Visits(rosters[..k], groups[..k]);
    assert Visits(rosters, groups) == before + Tag(rosters[k], groups[k]);
    if g < k {
      VisitsListed(rosters[..k], groups[..k], g, i);
      var j :| 0 <= j < |before| && before[j].0 == rosters[g][i];
      assert Visits(rosters, groups)[j] == before[j];
    } else {
      assert Visits(rosters, groups)[|before| + i] == (rosters[g][i], groups[g]);
    }
  }

  lemma {:induction false} GroupsOfUnvisited(name: string, visits: seq<(string, string)>)
    requires name !in Names(visits)
    ensures GroupsOf(name, visits) == []
  {
    if visits != [] {
      assert Names(visits[..|visits| - 1]) == Names(visits)[..|visits| - 1];
      GroupsOfUnvisited(name, visits[..|visits| - 1]);
    }
  }

  /** Every sectioned person as `load_person` reads them, before any group is added. */
  ghost function Loads(sections: map<string, map<string, string>>): (r: map<string, Person>)
    ensures forall n :: n in r <==> n in sections
  {
    map n | n in sections :: LoadPerson(n, sections[n])
  }

  lemma NamesSnoc(visits: seq<(string, string)>, name: string, group: string)
    ensures Names(visits + [(name, group)]) == Names(visits) + [name]
  {
  }

  lemma GroupsOfSnoc(n: string, visits: seq<(string, string)>, name: string, group: string)
    ensures GroupsOf(n, visits + [(name, group)]) == GroupsOf(n, visits) + (if n == name then [group] else [])
  {
    var v := visits + [(name, group)];
    assert v[..|v| - 1] == visits;
  }

  lemma VisitsPrefix(rosters: seq<seq<string>>, g: nat)
    requires |rosters| == |GroupOrder| && g < |rosters|
    ensures Visits(rosters[..g + 1], GroupOrder[..g + 1]) ==
            Visits(rosters[..g], GroupOrder[..g]) + Tag(rosters[g], GroupOrder[g])
  {
    assert rosters[..g + 1][..g] == rosters[..g] && GroupOrder[..g + 1][..g] == GroupOrder[..g];
  }

  lemma TagPrefix(before: seq<(string, string)>, names: seq<string>, group: string, i: nat)
    requires i < |names|
    ensures before + Tag(names[..i + 1], group) == before + Tag(names[..i], group) + [(names[i], group)]
  {
  }

  /** The people known so far are exactly the visited names, in order of first visit. */
  ghost predicate Ordered(order: seq<string>, people: map<string, Person>, visits: seq<(string, string)>)
  {
    order == Distinct(Names(visits)) && forall n :: n in people <==> n in order
  }

  /** Every visited name has a section. */
  ghost predicate Covered(base: map<string, Person>, visits: seq<(string, string)>)
  {
    forall n :: n in Names(visits) ==> n in base
  }

  /** Each known person is their loaded self with the groups of their visits so far. */
  ghost predicate Fits(people: map<string, Person>, base: map<string, Person>, visits: seq<(string, string)>)
  {
    forall n :: n in people ==> n in base && people[n] == base[n].(groups := GroupsOf(n, visits))
  }

  /** The state of the loop of `load_course` after `visits`. */
  ghost predicate Accumulated(order: seq<string>, people: map<string, Person>,
                              base: map<string, Person>, visits: seq<(string, string)>)
  {
    Ordered(order, people, visits) && Covered(base, visits) && Fits(people, base, visits)
  }

  /** What one visit does to the people: a known one gains the group, a new one is loaded into it. */
  ghost function Next(people: map<string, Person>, base: map<string, Person>, name: string, group: string): (r: map<string, Person>)
    requires name in people || name in base
    ensures forall n :: n in r <==> n in people || n == name
    ensures forall n :: n in people && n != name ==> r[n] == people[n]
  {
    if name in people then people[name := people[name].(groups := people[name].groups + [group])]
    else people[name := base[name].(groups := [group])]
  }

  lemma OrderNext(order: seq<string>, people: map<string, Person>, base: map<string, Person>,
                  visits: seq<(string, string)>, name: string, group: string)
    requires Ordered(order, people, visits) && Covered(base, visits)
    requires name in people || name in base
    ensures name !in people ==> name !in Names(visits)
    ensures Ordered(if name in people then order else order + [name], Next(people, base, name, group),
                    visits + [(name, group)])
    ensures Covered(base, visits + [(name, group)])
  {
    NamesSnoc(visits, name, group);
    DistinctSnoc(Names(visits), name);
  }

  lemma FitsNext(people: map<string, Person>, base: map<string, Person>,
                 visits: seq<(string, string)>, name: string, group: string)
    requires Fits(people, base, visits)
    requires name in people || name in base
    requires name !in people ==> name !in Names(visits)
    ensures Fits(Next(people, base, name, group), base, visits + [(name, group)])
  {
    var people' := Next(people, base, name, group);
    forall n | n in people'
      ensures n in base && people'[n] == base[n].(groups := GroupsOf(n, visits + [(name, group)]))
    {
      GroupsOfSnoc(n, visits, name, group);
      if n == name && name !in people {
        GroupsOfUnvisited(name, visits);
      }
    }
  }

  /** Visiting a known person again keeps the loop's state once they gain the group. */
  lemma VisitKnown(order: seq<string>, people: map<string, Person>, base: map<string, Person>,
                   visits: seq<(string, string)>, name: string, group: string)
    requires Accumulated(order, people, base, visits)
    requires name in people
    ensures Accumulated(order, people[name := people[name].(groups := people[name].groups + [group])],
                        base, visits + [(name, group)])
  {
    OrderNext(order, people, base, visits, name, group);
    FitsNext(people, base, visits, name, group);
  }

  /** Visiting a new person keeps the loop's state once they are loaded into the group. */
  lemma VisitNew(order: seq<string>, people: map<string, Person>, base: map<string, Person>,
                 visits: seq<(string, string)>, name: string, group: string, loaded: Person)
    requires Accumulated(order, people, base, visits)
    requires name !in people && name in base && loaded == base[name]
    ensures Accumulated(order + [name], people[name := loaded.(groups := [group])],
                        base, visits + [(name, group)])
  {
    OrderNext(order, people, base, visits, name, group);
    FitsNext(people, base, visits, name, group);
  }

  /** At the end of the loop, the people in order of first listing are what `load_course` promises. */
  lemma Collected(order: seq<string>, people: map<string, Person>, sections: map<string, map<string, string>>,
                  visits: seq<(string, string)>, r: seq<Person>)
    requires Accumulated(order, people, Loads(sections), visits)
    requires |r| == |order| && forall i :: 0 <= i < |order| ==> order[i] in people && r[i] == people[order[i]]
    ensures forall n :: n in Names(visits) ==> n in sections
    ensures |r| == |Distinct(Names(visits))|
    ensures forall i :: 0 <= i < |r| ==>
              var n := Distinct(Names(visits))[i];
              n in sections && r[i] == Loaded(n, sections, visits)
  {
  }

  /**
   * The inner loop of `load_course` over one group's roster: each listed
   * person joins the group, loaded first when new; a listed person without a
   * section stops it.
   */
  method LoadGroup(order: seq<string>, people: map<string, Person>, sections: map<string, map<string, string>>,
                   names: seq<string>, group: string, ghost before: seq<(string, string)>)
    returns (order': seq<string>, people': map<string, Person>, missing: Option<string>)
    requires Accumulated(order, people, Loads(sections), before)
    ensures missing.None? ==> Accumulated(order', people', Loads(sections), before + Tag(names, group))
    ensures missing.Some? ==> missing.value in names && missing.value !in sections
  {
    ghost var base := Loads(sections);
    order', people' := order, people;
    assert before + Tag(names[..0], group) == before;
    for i := 0 to |names|
      invariant Accumulated(order', people', base, before + Tag(names[..i], group))
    {
      var name := names[i];
      ghost var visits := before + Tag(names[..i], group);
      TagPrefix(before, names, group, i);
      if name !in people' && name !in sections {
        return order', people', Some(name);
      }
      if name in people' {
        VisitKnown(order', people', base, visits, name, group);
        people' := people'[name := people'[name].(groups := people'[name].groups + [group])];
      } else {
        var loaded := LoadPerson(name, sections[name]);
        VisitNew(order', people', base, visits, name, group, loaded);
        people' := people'[name := loaded.(groups := [group])];
        order' := order' + [name];
      }
    }
    assert names[..|names|] == names;
    missing := None;
  }

  /**
   * The group accumulation of `load_course`: every listed person is loaded
   * from their own section once, in order of first listing, and collects the
   * groups they are listed in; a listed person without a section stops it.
   */
  method LoadPeople(rosters: seq<seq<string>>, sections: map<string, map<string, string>>)
    returns (r: Result<seq<Person>, LoadError>)
    requires |rosters| == |GroupOrder|
    ensures r.Ok? <==> forall n :: n in Names(Visits(rosters, GroupOrder)) ==> n in sections
    ensures r.Err? ==> r.error.NoSection? && r.error.section in Names(Visits(rosters, GroupOrder)) &&
                       r.error.section !in sections
    ensures r.Ok? ==> |r.value| == |Distinct(Names(Visits(rosters, GroupOrder)))| &&
                      forall i :: 0 <= i < |r.value| ==>
                        var n := Distinct(Names(Visits(rosters, GroupOrder)))[i];
                        n in sections && r.value[i] == Loaded(n, sections, Visits(rosters, GroupOrder))
  {
    var order, people, missing := LoadGroups(rosters, sections);
    if missing.Some? {
      return Err(NoSection(missing.value));
    }
    var loaded := seq(|order|, i requires 0 <= i < |order| => people[order[i]]);
    Collected(order, people, sections, Visits(rosters, GroupOrder), loaded);
    r := Ok(loaded);
  }

  /** The loop over the groups: every roster accumulated, or the first listed person without a section. */
  method LoadGroups(rosters: seq<seq<string>>, sections: map<string, map<string, string>>)
    returns (order: seq<string>, people: map<string, Person>, missing: Option<string>)
    requires |rosters| == |GroupOrder|
    ensures missing.None? ==> Accumulated(order, people, Loads(sections), Visits(rosters, GroupOrder))
    ensures missing.Some? ==> missing.value in Names(Visits(rosters, GroupOrder)) && missing.value !in sections
  {
    order, people := [], map[];
    assert Visits(rosters[..0], GroupOrder[..0]) == [];
    for g := 0 to |rosters|
      invariant Accumulated(order, people, Loads(sections), Visits(rosters[..g], GroupOrder[..g]))
    {
      VisitsPrefix(rosters, g);
      order, people, missing := LoadGroup(order, people, sections, rosters[g], GroupOrder[g],
                                          Visits(rosters[..g], GroupOrder[..g]));
      if missing.Some? {
        var i :| 0 <= i < |rosters[g]| && rosters[g][i] == missing.value;
        VisitsListed(rosters, GroupOrder, g, i);
        return;
      }
    }
    assert rosters[..|rosters|] == rosters && GroupOrder[..|rosters|] == GroupOrder;
    missing := None;
  }

  /** Each person appears once in what `load_course` loads. */
  lemma LoadedOnce(rosters: seq<seq<string>>, sections: map<string, map<string, string>>, people: seq<Person>)
    requires |rosters| == |GroupOrder|
    requires |people| == |Distinct(Names(Visits(rosters, GroupOrder)))|
    requires forall i :: 0 <= i < |people| ==>
               var n := Distinct(Names(Visits(rosters, GroupOrder)))[i];
               n in sections && people[i] == Loaded(n, sections, Visits(rosters, GroupOrder))
    ensures forall i, j :: 0 <= i < j < |people| ==> people[i].name != people[j].name
  {
  }

  /** `n` copies of a group name. */
  function Repeat(group: string, n: nat): (r: seq<string>)
    ensures |r| == n && forall i :: 0 <= i < n ==> r[i] == group
  {
    if n == 0 then [] else Repeat(group, n - 1) + [group]
  }

  /** A person's groups, roster by roster: each group as often as the roster lists them. */
  function Memberships(name: string, rosters: seq<seq<string>>, groups: seq<string>): seq<string>
    requires |rosters| == |groups|
  {
    if rosters == [] then []
    else
      var k := |rosters| - 1;
      Memberships(name, rosters[..k], groups[..k]) + Repeat(groups[k], multiset(rosters[k])[name])
  }

  lemma {:induction false} GroupsOfConcat(name: string, a: seq<(string, string)>, b: seq<(string, string)>)
    ensures GroupsOf(name, a + b) == GroupsOf(name, a) + GroupsOf(name, b)
    decreases |b|
  {
    if b == [] {
      assert a + b == a;
    } else {
      assert (a + b)[..|a + b| - 1] == a + b[..|b| - 1];
      GroupsOfConcat(name, a, b[..|b| - 1]);
    }
  }

  lemma {:induction false} GroupsOfTag(name: string, names: seq<string>, group: string)
    ensures GroupsOf(name, Tag(names, group)) == Repeat(group, multiset(names)[name])
  {
    if names != [] {
      var k := |names| - 1;
      assert Tag(names, group)[..k] == Tag(names[..k], group);
      assert names == names[..k] + [names[k]];
      GroupsOfTag(name, names[..k], group);
    }
  }

  /**
   * The groups `load_course` gives a person are the groups of the rosters
   * listing them, in roster order, once per listing.
   */
  lemma {:induction false} GroupsOfVisits(name: string, rosters: seq<seq<string>>, groups: seq<string>)
    requires |rosters| == |groups|
    ensures GroupsOf(name, Visits(rosters, groups)) == Memberships(name, rosters, groups)
  {
    if rosters != [] {
      var k := |rosters| - 1;
      GroupsOfVisits(name, rosters[..k], groups[..k]);
      GroupsOfConcat(name, Visits(rosters[..k], groups[..k]), Tag(rosters[k], groups[k]));
      GroupsOfTag(name, rosters[k], groups[k]);
    }
  }

  /** With the three rosters of a course, a person's groups come roster by roster. */
  lemma MembershipsOfCourse(name: string, professors: seq<string>, assistants: seq<string>, students: seq<string>)
    ensures Memberships(name, [professors, assistants, students], GroupOrder) ==
            Repeat("professors", multiset(professors)[name]) + Repeat("assistants", multiset(assistants)[name]) +
            Repeat("students", multiset(students)[name])
  {
    var rosters := [professors, assistants, students];
    assert rosters[..2] == [professors, assistants] && [professors, assistants][..1] == [professors];
    assert [professors][..0] == [];
    assert GroupOrder[..2] == ["professors", "assistants"] && ["professors", "assistants"][..1] == ["professors"];
    assert ["professors"][..0] == [];
    var m1 := Memberships(name, [professors], ["professors"]);
    assert m1 == Memberships(name, [], []) + Repeat("professors", multiset(professors)[name]);
    assert Memberships(name, [], []) == [];
    var m2 := Memberships(name, [professors, assistants], ["professors", "assistants"]);
    assert m2 == m1 + Repeat("assistants", multiset(assistants)[name]);
    assert Memberships(name, rosters, GroupOrder) == m2 + Repeat("students", multiset(students)[name]);
  }

  /** A professor who is also listed once as a student is in both groups, professors first. */
  lemma ProfessorAndStudent(name: string, professors: seq<string>, assistants: seq<string>, students: seq<string>)
    requires multiset(professors)[name] == 1 && name !in assistants && multiset(students)[name] == 1
    ensures GroupsOf(name, Visits([professors, assistants, students], GroupOrder)) == ["professors", "students"]
  {
    GroupsOfVisits(name, [professors, assistants, students], GroupOrder);
    MembershipsOfCourse(name, professors, assistants, students);
    assert multiset(assistants)[name] == 0;
    assert Repeat("professors", 1) == ["professors"] && Repeat("students", 1) == ["students"];
  }
}
