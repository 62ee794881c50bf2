/**
 * `parse_date` of storage.py: the W3C date-time profile of ISO 8601, read by
 * a regular expression that splits the string into date, `T`, clock time,
 * fraction and zone, then by `time.strptime` trying five formats from most to
 * least specific, then converted to seconds since the epoch (UTC).
 */
module Dates {

  import opened Outcome
  import opened Text

  /** What `parse_date` raises. */
  datatype DateError = ValueError | IndexError

  // ---------------------------------------------------------------- the regular expression

  /** The five groups of `^([^T]*)(T?)([^TZ+-.]*)([.]?[0-9]*)([+-][0-9:]*|Z?)$`. */
  datatype DateParts = DateParts(date: string, t: bool, time: string, ms: string, zone: string)

  /**
   * A character of the clock-time group: the class `[^TZ+-.]` excludes `T`,
   * `Z` and the range from `+` to `.`, which holds `+`, `,`, `-` and `.`.
   */
  predicate TimeChar(c: char)
  {
    c != 'T' && c != 'Z' && !('+' <= c <= '.')
  }

  /** Length of the longest prefix of `s` whose characters satisfy `p`. */
  function PrefixLength(s: string, p: char -> bool): (n: nat)
    ensures n <= |s|
    ensures forall i :: 0 <= i < n ==> p(s[i])
    ensures n < |s| ==> !p(s[n])
  {
    if s == [] || !p(s[0]) then 0 else 1 + PrefixLength(s[1..], p)
  }

  predicate ZoneChar(c: char)
  {
    IsDigit(c) || c == ':'
  }

  /** The fraction group `[.]?[0-9]*`, taken greedily. */
  function FractionLength(s: string): (n: nat)
    ensures n <= |s|
  {
    if s != [] && s[0] == '.' then 1 + PrefixLength(s[1..], IsDigit) else PrefixLength(s, IsDigit)
  }

  /** The zone group `[+-][0-9:]*|Z?`, taken greedily. */
  function ZoneLength(s: string): (n: nat)
    ensures n <= |s|
  {
    if s != [] && (s[0] == '+' || s[0] == '-') then 1 + PrefixLength(s[1..], ZoneChar)
    else if s != [] && s[0] == 'Z' then 1
    else 0
  }

  /**
   * The match, if any. Without a `T` the first group takes the whole string.
   * With one, each later group is as long as it can be; `$` also matches
   * before a final newline. (Shorter choices never rescue a failed match,
   * because every group stops only at a character no later group accepts.)
   */
  function SplitDate(s: string): (r: Option<DateParts>)
    ensures r.Some? && !r.value.t ==> r.value == DateParts(s, false, "", "", "")
    ensures r.Some? && r.value.t ==> 'T' !in r.value.date
  {
    match Find(s, 'T')
    case None => Some(DateParts(s, false, "", "", ""))
    case Some(k) => SplitClock(s[..k], s[k + 1..])
  }

  /** The groups after the `T`, given the date before it. */
  function SplitClock(date: string, rest: string): (r: Option<DateParts>)
    ensures r.Some? ==> r.value.date == date && r.value.t
  {
    var n := PrefixLength(rest, TimeChar);
    var afterTime := rest[n..];
    var m := FractionLength(afterTime);
    var afterMs := afterTime[m..];
    var z := ZoneLength(afterMs);
    var tail := afterMs[z..];
    if tail == "" || tail == "\n" then Some(DateParts(date, true, rest[..n], afterTime[..m], afterMs[..z]))
    else None
  }

  // ---------------------------------------------------------------- strptime

  /** A piece of a `strptime` format. */
  datatype Tok = Lit(c: char) | Year | Month | Day | Hour | Minute | Second

  /** The broken-down time, with `strptime`'s defaults for absent fields. */
  datatype Clock = Clock(year: int, month: int, day: int, hour: int, minute: int, second: int)

  const DefaultClock := Clock(1900, 1, 1, 0, 0, 0)

  /** `'%Y-%m-%dT%H:%M:%S'`, `'%Y-%m-%dT%H:%M'`, `'%Y-%m-%d'`, `'%Y-%m'`, `'%Y'`, in the order tried. */
  const Formats: seq<seq<Tok>> := [
    [Year, Lit('-'), Month, Lit('-'), Day, Lit('T'), Hour, Lit(':'), Minute, Lit(':'), Second],
    [Year, Lit('-'), Month, Lit('-'), Day, Lit('T'), Hour, Lit(':'), Minute],
    [Year, Lit('-'), Month, Lit('-'), Day],
    [Year, Lit('-'), Month],
    [Year]
  ]

  /** The values a one- or two-digit field accepts. */
  predicate InRange(t: Tok, v: int)
  {
    match t
    case Month => 1 <= v <= 12
    case Day => 1 <= v <= 31
    case Hour => 0 <= v <= 23
    case Minute => 0 <= v <= 59
    case Second => 0 <= v <= 61
    case _ => false
  }

  /**
   * How many characters a one- or two-digit field takes at the start of `s`
   * (0 when it cannot match), and the value read. Two digits are preferred;
   * since a field is always followed by a non-digit or by the end of the
   * format, preferring them is what the regular expression's backtracking
   * ends up choosing. `%d` also accepts a space before one digit.
   */
  function Field(s: string, t: Tok): (r: (nat, int))
    ensures r.0 <= |s|
    ensures r.0 > 0 ==> InRange(t, r.1)
  {
    if |s| >= 2 && IsDigit(s[0]) && IsDigit(s[1]) && InRange(t, 10 * DigitValue(s[0]) + DigitValue(s[1])) then
      (2, 10 * DigitValue(s[0]) + DigitValue(s[1]))
    else if |s| >= 1 && IsDigit(s[0]) && InRange(t, DigitValue(s[0])) then
      (1, DigitValue(s[0]))
    else if t == Day && |s| >= 2 && s[0] == ' ' && '1' <= s[1] <= '9' then
      (2, DigitValue(s[1]))
    else (0, 0)
  }

  function SetField(c: Clock, t: Tok, v: int): Clock
  {
    match t
    case Year => c.(year := v)
    case Month => c.(month := v)
    case Day => c.(day := v)
    case Hour => c.(hour := v)
    case Minute => c.(minute := v)
    case Second => c.(second := v)
    case Lit(_) => c
  }

  /** Literals compare without regard to case (`strptime` matches with IGNORECASE). */
  predicate LitMatches(c: char, lit: char)
  {
    LowerChar(c) == LowerChar(lit)
  }

  /** Match the whole of `s` against a format; leftover characters fail the match. */
  function MatchFormat(s: string, fmt: seq<Tok>, acc: Clock): Option<Clock>
    decreases |fmt|
  {
    if fmt == [] then (if s == [] then Some(acc) else None)
    else
      match fmt[0]
      case Lit(c) =>
        if s != [] && LitMatches(s[0], c) then MatchFormat(s[1..], fmt[1..], acc) else None
      case Year =>
        if |s| >= 4 && AllDigits(s[..4]) then MatchFormat(s[4..], fmt[1..], acc.(year := DigitsValue(s[..4])))
        else None
      case _ =>
        var (n, v) := Field(s, fmt[0]);
        if n == 0 then None else MatchFormat(s[n..], fmt[1..], SetField(acc, fmt[0], v))
  }

  predicate IsLeap(y: int)
  {
    y % 4 == 0 && (y % 100 != 0 || y % 400 == 0)
  }

  function DaysInMonth(y: int, m: int): int
  {
    if m == 2 then (if IsLeap(y) then 29 else 28)
    else if m == 4 || m == 6 || m == 9 || m == 11 then 30
    else 31
  }

  /** `time.strptime(date, fmt)`: the match, then the calendar check `datetime.date` makes. */
  function Strptime(s: string, fmt: seq<Tok>): (r: Option<Clock>)
    ensures r.Some? ==> 1 <= r.value.month <= 12 && 1 <= r.value.day <= DaysInMonth(r.value.year, r.value.month)
  {
    match MatchFormat(s, fmt, DefaultClock)
    case None => None
    case Some(c) =>
      if 1 <= c.year && 1 <= c.month <= 12 && 1 <= c.day <= DaysInMonth(c.year, c.month) then Some(c) else None
  }

  /** The first of the formats that accepts `s`; `None` re-raises the last `ValueError`. */
  function FirstFormat(s: string, formats: seq<seq<Tok>>): (r: Option<Clock>)
    ensures r.Some? ==> 1 <= r.value.month <= 12 && 1 <= r.value.day <= DaysInMonth(r.value.year, r.value.month)
    ensures r.Some? ==> exists i :: 0 <= i < |formats| && Strptime(s, formats[i]) == r
  {
    if formats == [] then None
    else
      match Strptime(s, formats[0])
      case Some(c) => Some(c)
      case None =>
        var r := FirstFormat(s, formats[1..]);
        if r.Some? then
          var i :| 0 <= i < |formats[1..]| && Strptime(s, formats[1..][i]) == r;
          assert Strptime(s, formats[i + 1]) == r;
          r
        else r
  }

  // ---------------------------------------------------------------- calendar.timegm

  /** Days from 1970-01-01 to the given proleptic Gregorian date. */
  function DaysFromCivil(y: int, m: int, d: int): int
    requires 1 <= m <= 12
  {
    var yy := if m <= 2 then y - 1 else y;
    var era := yy / 400;
    var yoe := yy - era * 400;
    var mp := if m > 2 then m - 3 else m + 9;
    var doy := (153 * mp + 2) / 5 + d - 1;
    var doe := yoe * 365 + yoe / 4 - yoe / 100 + doy;
    era * 146097 + doe - 719468
  }

  /** The next day of the same month is one day later. */
  lemma DaysFromCivilNextDay(y: int, m: int, d: int)
    requires 1 <= m <= 12
    ensures DaysFromCivil(y, m, d + 1) == DaysFromCivil(y, m, d) + 1
  {
  }

  function Timegm(c: Clock): int
    requires 1 <= c.month <= 12
  {
    DaysFromCivil(c.year, c.month, c.day) * 86400 + c.hour * 3600 + c.minute * 60 + c.second
  }

  // ---------------------------------------------------------------- fraction and zone

  /** `float(ms)` for the fraction group: `'.'` alone is a `ValueError`. */
  function Fraction(ms: string): Result<real, DateError>
  {
    if ms != [] && ms[0] == '.' then
      if |ms| == 1 || !AllDigits(ms[1..]) then Err(ValueError)
      else Ok(FractionValue(ms[1..]))
    else if ms != [] && AllDigits(ms) then Ok(DigitsValue(ms) as real)
    else Err(ValueError)
  }

  /** `int(s)` for an optional sign followed by decimal digits. */
  function SignedInt(s: string): Option<int>
  {
    if s != [] && (s[0] == '+' || s[0] == '-') then
      if |s| > 1 && AllDigits(s[1..]) then
        Some(if s[0] == '-' then -(DigitsValue(s[1..]) as int) else DigitsValue(s[1..]) as int)
      else None
    else if s != [] && AllDigits(s) then Some(DigitsValue(s) as int)
    else None
  }

  /**
   * The offset subtracted for a zone other than `''` and `'Z'`, as written:
   * the multiplier is `int(zone[1] + '1')`, read from the first hour digit,
   * and the hour is `int` of everything before the first colon, sign included.
   */
  function ZoneOffsetAsWritten(zone: string): (r: Result<int, DateError>)
    ensures |zone| < 2 ==> r == Err(IndexError)
  {
    if |zone| < 2 then Err(IndexError)
    else
      var sign := SignedInt([zone[1], '1']);
      if sign.None? then Err(ValueError)
      else
        match Find(zone, ':')
        case None => Err(ValueError)
        case Some(k) =>
          var hour := SignedInt(zone[..k]);
          var minute := SignedInt(zone[k + 1..]);
          if hour.None? || minute.None? then Err(ValueError)
          else Ok(sign.value * (3600 * hour.value + 60 * minute.value))
  }

  /**
   * The offset the zone evidently means: `+hh:mm` is hh hours and mm minutes
   * ahead of UTC, `-hh:mm` as far behind.
   */
  function ZoneOffset(zone: string): (r: Result<int, DateError>)
  {
    if |zone| < 2 || !(zone[0] == '+' || zone[0] == '-') then Err(ValueError)
    else
      match Find(zone, ':')
      case None => Err(ValueError)
      case Some(k) =>
        if k < 2 || !AllDigits(zone[1..k]) || k + 1 >= |zone| || !AllDigits(zone[k + 1..]) then Err(ValueError)
        else
          var magnitude := 3600 * DigitsValue(zone[1..k]) + 60 * DigitsValue(zone[k + 1..]);
          Ok(if zone[0] == '-' then -magnitude else magnitude)
  }

  /** `parse_date`, with the zone arithmetic supplied. */
  function ParseDateUsing(s: string, zoneOffset: string -> Result<int, DateError>): Result<real, DateError>
  {
    match SplitDate(s)
    case None => Err(ValueError)
    case Some(p) => ParseParts(p, zoneOffset)
  }

  /** The date and clock time handed to `strptime`. */
  function DateOf(p: DateParts): string
  {
    if p.t then p.date + "T" + p.time else p.date
  }

  /** What follows a successful match of the regular expression. */
  function ParseParts(p: DateParts, zoneOffset: string -> Result<int, DateError>): Result<real, DateError>
  {
    match FirstFormat(DateOf(p), Formats)
    case None => Err(ValueError)
    case Some(c) => Finish(Timegm(c) as real, p.ms, p.zone, zoneOffset)
  }

  /** The fraction is added, then the zone's offset subtracted. */
  function Finish(x: real, ms: string, zone: string, zoneOffset: string -> Result<int, DateError>): Result<real, DateError>
  {
    match AddFraction(x, ms)
    case Err(e) => Err(e)
    case Ok(y) => SubtractZone(y, zone, zoneOffset)
  }

  /** `if ms: ret += float(ms)`. */
  function AddFraction(x: real, ms: string): Result<real, DateError>
  {
    if ms == "" then Ok(x)
    else
      match Fraction(ms)
      case Err(e) => Err(e)
      case Ok(f) => Ok(x + f)
  }

  /** `if zone and zone != 'Z': ret -= offset`. */
  function SubtractZone(x: real, zone: string, zoneOffset: string -> Result<int, DateError>): Result<real, DateError>
  {
    if zone == "" || zone == "Z" then Ok(x)
    else
      match zoneOffset(zone)
      case Err(e) => Err(e)
      case Ok(off) => Ok(x - off as real)
  }

  /** `parse_date` as written. */
  function ParseDate(s: string): Result<real, DateError>
  {
    ParseDateUsing(s, ZoneOffsetAsWritten)
  }

  /** `parse_date` with the zone read as the W3C date-time profile describes it: hours and minutes ahead of UTC, or behind it. */
  function ParseDateIntended(s: string): Result<real, DateError>
  {
    ParseDateUsing(s, ZoneOffset)
  }

  // ---------------------------------------------------------------- canonical strings

  function DigitChar(n: nat): (c: char)
    requires n < 10
    ensures IsDigit(c) && DigitValue(c) == n
  {
    ('0' as int + n) as char
  }

  /** `'%02d' % n`. */
  function Two(n: nat): (r: string)
    requires n < 100
    ensures |r| == 2 && AllDigits(r) && DigitsValue(r) == n
  {
    var r := [DigitChar(n / 10), DigitChar(n % 10)];
    DigitsValue2(r);
    r
  }

  /** `'%04d' % n`. */
  function Four(n: nat): (r: string)
    requires n < 10000
    ensures |r| == 4 && AllDigits(r) && DigitsValue(r) == n
  {
    var hi := Two(n / 100);
    var lo := Two(n % 100);
    var r := hi + lo;
    DigitsValue2(hi);
    DigitsValue2(lo);
    DigitsValue4(r);
    assert DigitsValue(r) == 100 * DigitsValue(hi) + DigitsValue(lo);
    r
  }

  /** The value a clock holds for a field of a format. */
  function Get(c: Clock, t: Tok): int
  {
    match t
    case Year => c.year
    case Month => c.month
    case Day => c.day
    case Hour => c.hour
    case Minute => c.minute
    case Second => c.second
    case Lit(_) => 0
  }

  /** Every field of `fmt` can be written for `c` the way `strftime` writes it. */
  predicate Renderable(fmt: seq<Tok>, c: Clock)
  {
    forall i :: 0 <= i < |fmt| ==>
      (fmt[i].Year? ==> 0 <= c.year < 10000) &&
      (!fmt[i].Year? && !fmt[i].Lit? ==> InRange(fmt[i], Get(c, fmt[i])))
  }

  function RenderTok(t: Tok, c: Clock): (r: string)
    requires t.Year? ==> 0 <= c.year < 10000
    requires !t.Year? && !t.Lit? ==> InRange(t, Get(c, t))
    ensures forall i :: 0 <= i < |r| ==> IsDigit(r[i]) || (t.Lit? && r[i] == t.c)
  {
    match t
    case Lit(ch) => [ch]
    case Year => Four(c.year)
    case _ => Two(Get(c, t))
  }

  /** `time.strftime(fmt, c)`: the string the format describes for the clock. */
  function Render(fmt: seq<Tok>, c: Clock): (r: string)
    requires Renderable(fmt, c)
    ensures forall i :: 0 <= i < |r| ==> IsDigit(r[i]) || Lit(r[i]) in fmt
  {
    if fmt == [] then ""
    else
      var head := RenderTok(fmt[0], c);
      var tail := Render(fmt[1..], c);
      assert forall i :: 0 <= i < |tail| && !IsDigit(tail[i]) ==> Lit(tail[i]) in fmt;
      head + tail
  }

  /** The clock `strptime` builds from `acc` by reading the fields of `fmt` off `c`. */
  function Fill(fmt: seq<Tok>, c: Clock, acc: Clock): Clock
  {
    if fmt == [] then acc else Fill(fmt[1..], c, SetField(acc, fmt[0], Get(c, fmt[0])))
  }

  lemma {:induction false} RenderConcat(a: seq<Tok>, b: seq<Tok>, c: Clock)
    requires Renderable(a + b, c)
    ensures Renderable(a, c) && Renderable(b, c)
    ensures Render(a + b, c) == Render(a, c) + Render(b, c)
  {
    assert forall i :: 0 <= i < |a| ==> a[i] == (a + b)[i];
    assert forall i :: 0 <= i < |b| ==> b[i] == (a + b)[|a| + i];
    if a == [] {
      assert a + b == b;
    } else {
      assert (a + b)[1..] == a[1..] + b;
      RenderConcat(a[1..], b, c);
    }
  }

  /** One rendered token is read back by the matcher. */
  lemma MatchStep(t: Tok, c: Clock, tail: string, fmt: seq<Tok>, acc: Clock)
    requires t.Year? ==> 0 <= c.year < 10000
    requires !t.Year? && !t.Lit? ==> InRange(t, Get(c, t))
    ensures MatchFormat(RenderTok(t, c) + tail, [t] + fmt, acc) == MatchFormat(tail, fmt, SetField(acc, t, Get(c, t)))
  {
    var head := RenderTok(t, c);
    var s := head + tail;
    assert ([t] + fmt)[0] == t && ([t] + fmt)[1..] == fmt;
    match t
    case Lit(ch) =>
      assert s[0] == ch && s[1..] == tail;
    case Year =>
      assert s[..4] == head && s[4..] == tail;
    case _ =>
      DigitsValue2(head);
      assert s[0] == head[0] && s[1] == head[1];
      assert Field(s, t) == (2, Get(c, t));
      assert s[2..] == tail;
  }

  /** A rendered prefix of a format is read back field by field. */
  lemma {:induction false} MatchRender(fmt: seq<Tok>, c: Clock, rest: string, more: seq<Tok>, acc: Clock)
    requires Renderable(fmt, c)
    ensures MatchFormat(Render(fmt, c) + rest, fmt + more, acc) == MatchFormat(rest, more, Fill(fmt, c, acc))
    decreases |fmt|
  {
    if fmt == [] {
      assert fmt + more == more;
      assert Render(fmt, c) + rest == rest;
    } else {
      var t := fmt[0];
      assert Render(fmt, c) + rest == RenderTok(t, c) + (Render(fmt[1..], c) + rest);
      assert fmt + more == [t] + (fmt[1..] + more);
      MatchStep(t, c, Render(fmt[1..], c) + rest, fmt[1..] + more, acc);
      MatchRender(fmt[1..], c, rest, more, SetField(acc, t, Get(c, t)));
    }
  }

  /** Nothing but the empty format accepts the empty string. */
  lemma MatchEmpty(fmt: seq<Tok>, acc: Clock)
    requires fmt != []
    ensures MatchFormat("", fmt, acc) == None
  {
  }

  /** When every other format fails, the loop over formats returns the one that is left. */
  lemma {:induction false} FirstFormatPick(s: string, formats: seq<seq<Tok>>, k: nat)
    requires k < |formats|
    requires forall j :: 0 <= j < |formats| && j != k ==> Strptime(s, formats[j]).None?
    ensures FirstFormat(s, formats) == Strptime(s, formats[k])
  {
    if k > 0 {
      assert Strptime(s, formats[0]).None?;
      FirstFormatPick(s, formats[1..], k - 1);
    } else if Strptime(s, formats[0]).None? {
      FirstFormatNone(s, formats[1..]);
    }
  }

  lemma {:induction false} FirstFormatNone(s: string, formats: seq<seq<Tok>>)
    requires forall j :: 0 <= j < |formats| ==> Strptime(s, formats[j]).None?
    ensures FirstFormat(s, formats).None?
  {
    if formats != [] {
      FirstFormatNone(s, formats[1..]);
    }
  }

  /** Each format extends every format tried after it. */
  lemma FormatsNest(j: nat, k: nat)
    requires j < k < |Formats|
    ensures Formats[k] < Formats[j]
  {
  }

  lemma LongerFormatFails(j: nat, k: nat, c: Clock)
    requires j < k < |Formats| && Renderable(Formats[k], c)
    ensures Strptime(Render(Formats[k], c), Formats[j]).None?
  {
    FormatsNest(j, k);
    var more := Formats[j][|Formats[k]|..];
    assert Formats[j] == Formats[k] + more;
    MatchRender(Formats[k], c, "", more, DefaultClock);
    assert Render(Formats[k], c) + "" == Render(Formats[k], c);
    MatchEmpty(more, Fill(Formats[k], c, DefaultClock));
  }

  lemma ShorterFormatFails(j: nat, k: nat, c: Clock)
    requires k < j < |Formats| && Renderable(Formats[k], c)
    ensures Strptime(Render(Formats[k], c), Formats[j]).None?
  {
    FormatsNest(k, j);
    var extra := Formats[k][|Formats[j]|..];
    assert Formats[k] == Formats[j] + extra;
    RenderConcat(Formats[j], extra, c);
    assert |Render(extra, c)| > 0 by {
      assert Render(extra, c) == RenderTok(extra[0], c) + Render(extra[1..], c);
    }
    MatchRender(Formats[j], c, Render(extra, c), [], DefaultClock);
    assert Formats[j] + [] == Formats[j];
  }

  predicate ValidDay(c: Clock)
  {
    1 <= c.year && 1 <= c.month <= 12 && 1 <= c.day <= DaysInMonth(c.year, c.month)
  }

  /** The string of format `k`, for clock `c`, is read by format `k` and by no other. */
  lemma FirstFormatRender(k: nat, c: Clock)
    requires k < |Formats| && Renderable(Formats[k], c)
    ensures FirstFormat(Render(Formats[k], c), Formats) ==
            if ValidDay(Fill(Formats[k], c, DefaultClock)) then Some(Fill(Formats[k], c, DefaultClock)) else None
  {
    var s := Render(Formats[k], c);
    forall j | 0 <= j < |Formats| && j != k
      ensures Strptime(s, Formats[j]).None?
    {
      if j < k {
        LongerFormatFails(j, k, c);
      } else {
        ShorterFormatFails(j, k, c);
      }
    }
    FirstFormatPick(s, Formats, k);
    MatchRender(Formats[k], c, "", [], DefaultClock);
    assert s + "" == s && Formats[k] + [] == Formats[k];
  }

  /** The clock each format yields: fields it lacks keep `strptime`'s defaults. */
  function Truncate(k: nat, c: Clock): Clock
    requires k < |Formats|
  {
    if k == 0 then c
    else if k == 1 then c.(second := 0)
    else if k == 2 then c.(hour := 0, minute := 0, second := 0)
    else if k == 3 then Clock(c.year, c.month, 1, 0, 0, 0)
    else Clock(c.year, 1, 1, 0, 0, 0)
  }

  lemma {:induction false} FillConcat(a: seq<Tok>, b: seq<Tok>, c: Clock, acc: Clock)
    ensures Fill(a + b, c, acc) == Fill(b, c, Fill(a, c, acc))
  {
    if a == [] {
      assert a + b == b;
    } else {
      assert (a + b)[0] == a[0] && (a + b)[1..] == a[1..] + b;
      FillConcat(a[1..], b, c, SetField(acc, a[0], Get(c, a[0])));
    }
  }

  lemma FillFormats(k: nat, c: Clock)
    requires k < |Formats|
    ensures Fill(Formats[k], c, DefaultClock) == Truncate(k, c)
    decreases |Formats| - k
  {
    if k == 4 {
      assert Formats[k][1..] == [];
    } else {
      FillFormats(k + 1, c);
      FormatsNest(k, k + 1);
      var more := Formats[k][|Formats[k + 1]|..];
      assert Formats[k] == Formats[k + 1] + more;
      FillConcat(Formats[k + 1], more, c, DefaultClock);
      var prev := Truncate(k + 1, c);
      if k == 1 {
        assert more == [Lit('T'), Hour, Lit(':'), Minute];
        var hours := SetField(prev, Hour, c.hour);
        assert Fill(more, c, prev) == Fill(more[1..], c, prev) == Fill(more[2..], c, hours);
        assert more[2..] == [Lit(':'), Minute] && more[2..][1..][1..] == [];
        assert Fill(more[2..], c, hours) == Fill(more[3..], c, hours) == hours.(minute := c.minute);
      } else {
        assert |more| == 2 && more[0].Lit? && more[1..][1..] == [];
        assert Fill(more, c, prev) == Fill(more[1..], c, prev) == SetField(prev, more[1], Get(c, more[1]));
        if k == 0 {
          assert more[1] == Second;
        } else if k == 2 {
          assert more[1] == Day;
        } else {
          assert more[1] == Month;
        }
      }
    }
  }

  // ---------------------------------------------------------------- the regular expression on canonical strings

  /** The longest prefix of `a + b` is `a` when `a` qualifies and `b` does not start to. */
  lemma {:induction false} PrefixLengthConcat(a: string, b: string, p: char -> bool)
    requires forall i :: 0 <= i < |a| ==> p(a[i])
    requires b == [] || !p(b[0])
    ensures PrefixLength(a + b, p) == |a|
  {
    if a == [] {
      assert a + b == b;
    } else {
      assert (a + b)[0] == a[0] && (a + b)[1..] == a[1..] + b;
      PrefixLengthConcat(a[1..], b, p);
    }
  }

  /** A zone as the W3C profile writes it. */
  datatype Zone = NoZone | Utc | Offset(ahead: bool, hours: nat, minutes: nat)
  {
    predicate WellFormed()
    {
      Offset? ==> hours < 100 && minutes < 100
    }
  }

  function ZoneText(z: Zone): (r: string)
    requires z.WellFormed()
  {
    match z
    case NoZone => ""
    case Utc => "Z"
    case Offset(ahead, h, m) => [if ahead then '+' else '-'] + Two(h) + ":" + Two(m)
  }

  /** The fraction group for the given decimals: none, or a point and the digits. */
  function FractionText(digits: string): string
  {
    if digits == [] then "" else "." + digits
  }

  /** The value of `.` followed by the digits: each digit is worth a tenth of the one before. */
  function FractionValue(digits: string): (r: real)
    requires AllDigits(digits)
    ensures 0.0 <= r <= 1.0
  {
    if digits == [] then 0.0 else (DigitValue(digits[0]) as real + FractionValue(digits[1..])) / 10.0
  }

  lemma FindAfter(day: string, rest: string)
    requires 'T' !in day
    ensures Find(day + "T" + rest, 'T') == Some(|day|)
  {
    assert (day + "T" + rest)[|day|] == 'T';
  }

  /** The fraction and zone groups take exactly the canonical fraction and zone. */
  lemma FractionZoneLength(digits: string, z: Zone)
    requires AllDigits(digits) && z.WellFormed()
    ensures FractionLength(FractionText(digits) + ZoneText(z)) == |FractionText(digits)|
    ensures ZoneLength(ZoneText(z)) == |ZoneText(z)|
  {
    var ms := FractionText(digits);
    var zone := ZoneText(z);
    assert zone == [] || zone[0] in "Z+-";
    if digits == [] {
      assert ms + zone == zone;
    } else {
      assert (ms + zone)[0] == '.' && (ms + zone)[1..] == digits + zone;
      PrefixLengthConcat(digits, zone, IsDigit);
    }
    if z.Offset? {
      PrefixLengthConcat(zone[1..], [], ZoneChar);
      assert zone[1..] + [] == zone[1..];
    }
  }

  /** A clock time, a fraction and a zone are split back apart. */
  lemma SplitClockCanonical(day: string, time: string, digits: string, z: Zone)
    requires forall i :: 0 <= i < |time| ==> TimeChar(time[i])
    requires AllDigits(digits) && z.WellFormed()
    ensures SplitClock(day, time + FractionText(digits) + ZoneText(z)) ==
            Some(DateParts(day, true, time, FractionText(digits), ZoneText(z)))
  {
    var ms := FractionText(digits);
    var zone := ZoneText(z);
    var rest := time + (ms + zone);
    assert rest == time + ms + zone;
    assert ms + zone == [] || !TimeChar((ms + zone)[0]);
    PrefixLengthConcat(time, ms + zone, TimeChar);
    assert rest[|time|..] == ms + zone && rest[..|time|] == time;
    FractionZoneLength(digits, z);
    assert (ms + zone)[|ms|..] == zone && (ms + zone)[..|ms|] == ms;
    assert zone[|zone|..] == "" && zone[..|zone|] == zone;
  }

  /** A date, a `T`, a clock time, a fraction and a zone are split back apart. */
  lemma SplitDateTimed(day: string, time: string, digits: string, z: Zone)
    requires 'T' !in day
    requires forall i :: 0 <= i < |time| ==> TimeChar(time[i])
    requires AllDigits(digits) && z.WellFormed()
    ensures SplitDate(day + "T" + time + FractionText(digits) + ZoneText(z)) ==
            Some(DateParts(day, true, time, FractionText(digits), ZoneText(z)))
  {
    var rest := time + FractionText(digits) + ZoneText(z);
    var s := day + "T" + rest;
    assert s == day + "T" + time + FractionText(digits) + ZoneText(z);
    FindAfter(day, rest);
    assert s[..|day|] == day && s[|day| + 1..] == rest;
    SplitClockCanonical(day, time, digits, z);
  }

  // ---------------------------------------------------------------- parse_date on canonical strings

  /** Subtract the zone's offset, if it has one, as `zoneOffset` computes it. */
  function ApplyZone(x: real, z: Zone, zoneOffset: string -> Result<int, DateError>): Result<real, DateError>
    requires z.WellFormed()
  {
    if z.Offset? then
      match zoneOffset(ZoneText(z))
      case Err(e) => Err(e)
      case Ok(off) => Ok(x - off as real)
    else Ok(x)
  }

  /** The clock-time tokens of the two formats with a `T`. */
  lemma TimedFormats(k: nat)
    requires k < 2
    ensures Formats[k] == Formats[2] + [Lit('T')] + Formats[k][6..]
    ensures Lit('T') !in Formats[2]
    ensures forall ch :: Lit(ch) in Formats[k][6..] ==> ch == ':'
  {
  }

  /**
   * A date with a clock time, an optional fraction and an optional zone,
   * written as the W3C profile writes it, is read as the clock time the
   * format describes (fields it lacks at their defaults), followed by the
   * fraction and the zone; it fails when the day does not exist.
   * `FinishCanonical` says what the fraction and the zone then contribute.
   */
  lemma ParseDateTimed(k: nat, c: Clock, digits: string, z: Zone, zoneOffset: string -> Result<int, DateError>)
    requires k < 2 && Renderable(Formats[k], c) && AllDigits(digits) && z.WellFormed()
    ensures ValidDay(Truncate(k, c)) ==>
              ParseDateUsing(Render(Formats[k], c) + FractionText(digits) + ZoneText(z), zoneOffset) ==
              Finish(Timegm(Truncate(k, c)) as real, FractionText(digits), ZoneText(z), zoneOffset)
    ensures !ValidDay(Truncate(k, c)) ==>
              ParseDateUsing(Render(Formats[k], c) + FractionText(digits) + ZoneText(z), zoneOffset) == Err(ValueError)
  {
    var parts := SplitTimedFormat(k, c, digits, z);
    FirstFormatRender(k, c);
    FillFormats(k, c);
    assert DateOf(parts) == Render(Formats[k], c);
    ParseDateOfSplit(Render(Formats[k], c) + FractionText(digits) + ZoneText(z), parts, zoneOffset);
  }

  /** The fraction is added and the zone's offset subtracted. */
  lemma FinishCanonical(x: real, digits: string, z: Zone, zoneOffset: string -> Result<int, DateError>)
    requires AllDigits(digits) && z.WellFormed()
    ensures Finish(x, FractionText(digits), ZoneText(z), zoneOffset) == ApplyZone(x + FractionValue(digits), z, zoneOffset)
  {
    AddFractionText(x, digits);
    SubtractZoneText(x + FractionValue(digits), z, zoneOffset);
  }

  lemma ParseDateOfSplit(s: string, parts: DateParts, zoneOffset: string -> Result<int, DateError>)
    requires SplitDate(s) == Some(parts)
    ensures ParseDateUsing(s, zoneOffset) == ParseParts(parts, zoneOffset)
  {
  }


  lemma AddFractionText(x: real, digits: string)
    requires AllDigits(digits)
    ensures AddFraction(x, FractionText(digits)) == Ok(x + FractionValue(digits))
  {
    if digits != [] {
      assert FractionText(digits)[1..] == digits;
    }
  }

  lemma SubtractZoneText(x: real, z: Zone, zoneOffset: string -> Result<int, DateError>)
    requires z.WellFormed()
    ensures SubtractZone(x, ZoneText(z), zoneOffset) == ApplyZone(x, z, zoneOffset)
  {
    if z.Offset? {
      assert |ZoneText(z)| == 6;
    }
  }

  /** How the regular expression splits a canonical string with a clock time. */
  lemma SplitTimedFormat(k: nat, c: Clock, digits: string, z: Zone) returns (parts: DateParts)
    requires k < 2 && Renderable(Formats[k], c) && AllDigits(digits) && z.WellFormed()
    ensures SplitDate(Render(Formats[k], c) + FractionText(digits) + ZoneText(z)) == Some(parts)
    ensures parts.t && parts.date + "T" + parts.time == Render(Formats[k], c)
    ensures parts.ms == FractionText(digits) && parts.zone == ZoneText(z)
  {
    TimedFormats(k);
    var clockPart := Formats[k][6..];
    RenderConcat(Formats[2] + [Lit('T')], clockPart, c);
    RenderConcat(Formats[2], [Lit('T')], c);
    var day := Render(Formats[2], c);
    var time := Render(clockPart, c);
    assert Render([Lit('T')], c) == "T";
    assert Render(Formats[k], c) == day + "T" + time;
    assert 'T' !in day;
    SplitDateTimed(day, time, digits, z);
    parts := DateParts(day, true, time, FractionText(digits), ZoneText(z));
  }

  /** A date alone (year; year and month; or year, month and day) parses to its midnight. */
  lemma ParseDateUntimed(k: nat, c: Clock, zoneOffset: string -> Result<int, DateError>)
    requires 2 <= k < |Formats| && Renderable(Formats[k], c)
    ensures ParseDateUsing(Render(Formats[k], c), zoneOffset) ==
            if ValidDay(Truncate(k, c)) then Ok(Timegm(Truncate(k, c)) as real) else Err(ValueError)
  {
    assert Lit('T') !in Formats[k];
    FirstFormatRender(k, c);
    FillFormats(k, c);
  }

  // ---------------------------------------------------------------- the zone arithmetic

  /** Seconds east of UTC that a zone denotes. */
  function IntendedOffset(z: Zone): int
  {
    if z.Offset? then (if z.ahead then 3600 * z.hours + 60 * z.minutes else -(3600 * z.hours + 60 * z.minutes)) else 0
  }

  /** The multiplier as written is 1 more than ten times the first hour digit, and the hour keeps its sign. */
  lemma ZoneOffsetAsWrittenValue(z: Zone)
    requires z.Offset? && z.WellFormed()
    ensures ZoneOffsetAsWritten(ZoneText(z)) ==
            Ok((10 * (z.hours / 10) + 1) * ((if z.ahead then z.hours as int else -(z.hours as int)) * 3600 + 60 * z.minutes))
  {
    var zone := ZoneText(z);
    var h := Two(z.hours);
    var m := Two(z.minutes);
    assert zone == [zone[0]] + h + ":" + m;
    DigitsValue2(h);
    DigitsValue2([zone[1], '1']);
    assert SignedInt([zone[1], '1']) == Some(10 * (z.hours / 10) + 1);
    assert zone[3] == ':' && ':' !in zone[..3];
    assert Find(zone, ':') == Some(3);
    assert zone[..3][1..] == h;
    assert zone[4..] == m;
  }

  /** The corrected reading gives the offset the zone denotes. */
  lemma ZoneOffsetValue(z: Zone)
    requires z.Offset? && z.WellFormed()
    ensures ZoneOffset(ZoneText(z)) == Ok(IntendedOffset(z))
  {
    var zone := ZoneText(z);
    var h := Two(z.hours);
    var m := Two(z.minutes);
    assert zone == [zone[0]] + h + ":" + m;
    assert zone[3] == ':' && ':' !in zone[..3];
    assert Find(zone, ':') == Some(3);
    assert zone[1..3] == h;
    assert zone[4..] == m;
  }

  lemma Scale(q: int, x: int)
    ensures (10 * q + 1) * x == 10 * (q * x) + x
  {
  }

  lemma AtLeastOnce(q: int, b: int)
    requires q >= 1 && b >= 0
    ensures q * b >= b
  {
  }

  /** The integer facts behind `ZoneOffsetAgreement`. */
  lemma MultiplierAgreement(q: int, h: int, m: int, ahead: bool)
    requires 0 <= h < 100 && 0 <= m < 100 && q == h / 10
    ensures (10 * q + 1) * ((if ahead then h else -h) * 3600 + 60 * m) ==
            (if ahead then 3600 * h + 60 * m else -(3600 * h + 60 * m))
            <==> h < 10 && (ahead || m == 0)
  {
    var sgn := (if ahead then h else -h) * 3600 + 60 * m;
    var target := if ahead then 3600 * h + 60 * m else -(3600 * h + 60 * m);
    Scale(q, sgn);
    if q == 0 {
      assert q * sgn == 0;
    } else if ahead {
      AtLeastOnce(q, sgn);
      assert target == sgn && sgn > 0;
    } else {
      var b := 3600 * h - 60 * m;
      assert b >= 30000 && sgn == -b;
      AtLeastOnce(q, b);
      assert q * sgn == -(q * b);
      assert target == -b - 120 * m;
    }
  }

  /**
   * The arithmetic as written gives the right offset exactly for zones whose
   * hour is below ten and which are either ahead of UTC or a whole number of
   * hours behind it.
   */
  lemma ZoneOffsetAgreement(z: Zone)
    requires z.Offset? && z.WellFormed()
    ensures ZoneOffsetAsWritten(ZoneText(z)) == Ok(IntendedOffset(z)) <==> z.hours < 10 && (z.ahead || z.minutes == 0)
  {
    ZoneOffsetAsWrittenValue(z);
    MultiplierAgreement(z.hours / 10, z.hours, z.minutes, z.ahead);
  }

  /** `+10:00` is taken for 110 hours ahead of UTC. */
  lemma ZoneTenHoursAsWritten()
    ensures ZoneOffsetAsWritten("+10:00") == Ok(396000)
    ensures ZoneOffset("+10:00") == Ok(36000)
  {
    var z := Offset(true, 10, 0);
    assert ZoneText(z) == "+10:00";
    ZoneOffsetAsWrittenValue(z);
    ZoneOffsetValue(z);
  }

  /** `-05:30` is taken for four and a half hours behind UTC. */
  lemma ZoneHalfHourBehindAsWritten()
    ensures ZoneOffsetAsWritten("-05:30") == Ok(-16200)
    ensures ZoneOffset("-05:30") == Ok(-19800)
  {
    var z := Offset(false, 5, 30);
    assert ZoneText(z) == "-05:30";
    ZoneOffsetAsWrittenValue(z);
    ZoneOffsetValue(z);
  }

  // ---------------------------------------------------------------- the documented examples

  /**
   * What a canonical string with a clock time parses to, for every zone the
   * arithmetic as written reads correctly: the clock, plus the fraction,
   * minus the zone's offset east of UTC.  Together with `ParseDateTimed`
   * this is the value of `ParseDate` on such a string.
   */
  lemma FinishDocumented(x: real, digits: string, z: Zone)
    requires AllDigits(digits) && z.WellFormed()
    requires z.Offset? ==> z.hours < 10 && (z.ahead || z.minutes == 0)
    ensures Finish(x, FractionText(digits), ZoneText(z), ZoneOffsetAsWritten) ==
            Ok(x + FractionValue(digits) - IntendedOffset(z) as real)
  {
    if z.Offset? {
      ZoneOffsetAgreement(z);
    }
    FinishWith(x, digits, z, ZoneOffsetAsWritten, IntendedOffset(z));
  }

  /** With the zone read as intended, every well-formed zone shifts the time by its own offset. */
  lemma FinishIntended(x: real, digits: string, z: Zone)
    requires AllDigits(digits) && z.WellFormed()
    ensures Finish(x, FractionText(digits), ZoneText(z), ZoneOffset) ==
            Ok(x + FractionValue(digits) - IntendedOffset(z) as real)
  {
    if z.Offset? {
      ZoneOffsetValue(z);
    }
    FinishWith(x, digits, z, ZoneOffset, IntendedOffset(z));
  }

  /** `Finish` on a canonical tail, for any zone arithmetic that gives the zone the offset `off`. */
  lemma FinishWith(x: real, digits: string, z: Zone, zoneOffset: string -> Result<int, DateError>, off: int)
    requires AllDigits(digits) && z.WellFormed()
    requires z.Offset? ==> zoneOffset(ZoneText(z)) == Ok(off)
    requires !z.Offset? ==> off == 0
    ensures Finish(x, FractionText(digits), ZoneText(z), zoneOffset) == Ok(x + FractionValue(digits) - off as real)
  {
    FinishCanonical(x, digits, z, zoneOffset);
  }

  /** The zones of the examples below, as they are written. */
  lemma ExampleZones()
    ensures ZoneText(Offset(true, 5, 30)) == "+05:30"
    ensures ZoneText(Offset(false, 5, 0)) == "-05:00"
    ensures ZoneText(Utc) == "Z"
  {
  }

  /** `+05:30` (the zone `z`) puts the instant five and a half hours before the same clock time in `Z`. */
  lemma HalfHourAheadShift(x: real, digits: string, z: Zone)
    requires AllDigits(digits) && z == Offset(true, 5, 30)
    ensures Finish(x, FractionText(digits), ZoneText(z), ZoneOffsetAsWritten) == Ok(x + FractionValue(digits) - 19800.0)
    ensures Finish(x, FractionText(digits), ZoneText(Utc), ZoneOffsetAsWritten) == Ok(x + FractionValue(digits))
  {
    FinishDocumented(x, digits, z);
    FinishDocumented(x, digits, Utc);
  }

  /** `08:15:30-05:00` (the zone `z`) is the same instant as `13:15:30Z` of that day. */
  lemma FiveHoursBehindShift(y: int, m: int, d: int, z: Zone)
    requires 1 <= m <= 12 && z == Offset(false, 5, 0)
    ensures Finish(Timegm(Clock(y, m, d, 8, 15, 30)) as real, "", ZoneText(z), ZoneOffsetAsWritten) ==
            Finish(Timegm(Clock(y, m, d, 13, 15, 30)) as real, "", ZoneText(Utc), ZoneOffsetAsWritten)
  {
    assert FractionText("") == "";
    FiveHoursLater(y, m, d);
    FinishDocumented(Timegm(Clock(y, m, d, 8, 15, 30)) as real, "", z);
    FinishDocumented(Timegm(Clock(y, m, d, 13, 15, 30)) as real, "", Utc);
  }

  lemma FiveHoursLater(y: int, m: int, d: int)
    requires 1 <= m <= 12
    ensures Timegm(Clock(y, m, d, 13, 15, 30)) == Timegm(Clock(y, m, d, 8, 15, 30)) + 18000
  {
  }

  /** `2000` is 2000-01-01T00:00Z. */
  lemma YearTwoThousand()
    ensures Timegm(Truncate(4, Clock(2000, 7, 9, 1, 2, 3))) == 946684800
  {
  }

  /** The first of February is 31 days after the first of January (`2000-02`). */
  lemma FebruaryAfterJanuary(y: int)
    ensures Timegm(Clock(y, 2, 1, 0, 0, 0)) == Timegm(Clock(y, 1, 1, 0, 0, 0)) + 31 * 86400
  {
  }

  /** Day `d` of a month is `d - 1` days after its first (`2000-02-12`). */
  lemma {:induction false} DayOfMonth(y: int, m: int, d: nat)
    requires 1 <= m <= 12
    ensures Timegm(Clock(y, m, d + 1, 0, 0, 0)) == Timegm(Clock(y, m, 1, 0, 0, 0)) + d * 86400
  {
    if d > 0 {
      DayOfMonth(y, m, d - 1);
      DaysFromCivilNextDay(y, m, d);
    }
  }

  /** Seconds count one each, as in `:30` adding exactly 30. */
  lemma SecondsAdd(c: Clock)
    requires 1 <= c.month <= 12
    ensures Timegm(c) == Timegm(c.(second := 0)) + c.second
  {
  }
}
