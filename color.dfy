/**
 * Terminal colours: the four standard roles, the SGR escape sequence for a
 * colour (ECMA-48 section 8.3.117, Select Graphic Rendition: parameter 30 + i
 * selects foreground colour i, parameter 0 resets), and colour wrapping.
 */
module Color {

  import opened Outcome

  /** The colour names, in the order of their SGR foreground parameter. */
  const Palette: seq<string> := ["black", "red", "green", "yellow", "blue", "magenta", "cyan", "white"]

  /** The module-wide default for whether colour is used. */
  const UseColor: bool := true

  const Escape: char := 27 as char

  /** `ESC [ 0 m`: back to the default rendition. */
  const Reset: string := [Escape, '[', '0', 'm']

  /** `list.index` fails with a `ValueError` on a name that is not a colour. */
  datatype ColorError = ValueError

  /** The four roles: highlight, lowlight, good and bad. */
  datatype Roles = Roles(highlight: Option<string>, lowlight: Option<string>, good: Option<string>, bad: Option<string>)

  /** `standard_colors`: without an explicit choice the module default decides. */
  function StandardColors(useColor: Option<bool>): (r: Roles)
    ensures useColor.GetOr(UseColor) ==> r == Roles(None, Some("blue"), Some("green"), Some("red"))
    ensures !useColor.GetOr(UseColor) ==> r == Roles(None, None, None, None)
  {
    if useColor.GetOr(UseColor) then Roles(None, Some("blue"), Some("green"), Some("red"))
    else Roles(None, None, None, None)
  }

  /** The default is to colour, so the roles are `(None, 'blue', 'green', 'red')`. */
  lemma StandardColorsDefault()
    ensures StandardColors(None) == Roles(None, Some("blue"), Some("green"), Some("red"))
  {
  }

  /** The position of the first occurrence of `x` in `s`. */
  function IndexOf(s: seq<string>, x: string): (r: Option<nat>)
    ensures r.None? <==> x !in s
    ensures r.Some? ==> r.value < |s| && s[r.value] == x && x !in s[..r.value]
  {
    if s == [] then None
    else if s[0] == x then Some(0)
    else
      match IndexOf(s[1..], x)
      case None => None
      case Some(k) =>
        assert s[..k + 1] == [s[0]] + s[1..][..k];
        Some(k + 1)
  }

  /** The first occurrence is at `i` when `i` holds `x` and nothing before it does. */
  lemma IndexOfAt(s: seq<string>, x: string, i: nat)
    requires i < |s| && s[i] == x && x !in s[..i]
    ensures IndexOf(s, x) == Some(i)
  {
    var j := IndexOf(s, x).value;
    forall k | 0 <= k < i
      ensures s[k] != x
    {
      assert s[k] == s[..i][k];
    }
    forall k | 0 <= k < j
      ensures s[k] != x
    {
      assert s[k] == s[..j][k];
    }
  }

  /** `'\033[3%dm' % i` for a colour index below ten. */
  function Sgr(i: nat): string
    requires i < 10
  {
    [Escape, '[', '3', ('0' as int + i) as char, 'm']
  }

  /** `_ansi_color_code`: the reset sequence for `None`, else the foreground code of the named colour. */
  function AnsiColorCode(color: Option<string>): (r: Result<string, ColorError>)
    ensures color.None? ==> r == Ok(Reset)
    ensures color.Some? ==> (r.Ok? <==> color.value in Palette)
  {
    match color
    case None => Ok(Reset)
    case Some(name) =>
      match IndexOf(Palette, name)
      case None => Err(ValueError)
      case Some(i) => Ok(Sgr(i))
  }

  /** The colour a foreground code selects, read back from its fourth character. */
  function ColorOfCode(code: string): Option<string>
  {
    if |code| == 5 && code[..3] == [Escape, '[', '3'] && code[4] == 'm' && '0' <= code[3] <= '7' then
      Some(Palette[code[3] as int - '0' as int])
    else None
  }

  /** Every colour's code reads back as that colour, so different colours get different codes. */
  lemma AnsiColorCodeReadsBack(name: string)
    requires name in Palette
    ensures ColorOfCode(AnsiColorCode(Some(name)).value) == Some(name)
    ensures AnsiColorCode(Some(name)).value != Reset
  {
    var i := IndexOf(Palette, name).value;
    var code := Sgr(i);
    assert AnsiColorCode(Some(name)) == Ok(code);
    assert code[..3] == [Escape, '[', '3'] && code[4] == 'm';
    assert code[3] as int - '0' as int == i;
    assert |code| != |Reset|;
  }

  lemma AnsiColorCodeInjective(a: string, b: string)
    requires a in Palette && b in Palette
    requires AnsiColorCode(Some(a)) == AnsiColorCode(Some(b))
    ensures a == b
  {
    AnsiColorCodeReadsBack(a);
    AnsiColorCodeReadsBack(b);
  }

  /** `blue` is `ESC[34m`; `None` is `ESC[0m`. */
  lemma AnsiColorCodeExamples()
    ensures AnsiColorCode(Some("blue")) == Ok([Escape, '[', '3', '4', 'm'])
    ensures AnsiColorCode(Some("red")) == Ok([Escape, '[', '3', '1', 'm'])
    ensures AnsiColorCode(None) == Ok(Reset)
  {
    // "blue" and "red" differ in length from every colour before them
    assert |Palette[0]| == 5 && |Palette[1]| == 3 && |Palette[2]| == 5 && |Palette[3]| == 6;
    IndexOfAt(Palette, "blue", 4);
    IndexOfAt(Palette, "red", 1);
  }

  /** Python's truth value of the colour argument: `None` and `''` are false. */
  predicate Truthy(color: Option<string>)
  {
    color.Some? && color.value != ""
  }

  /** `color_string`: a colour's code, the string, then the reset; no colour leaves the string alone. */
  function ColorString(s: string, color: Option<string>): (r: Result<string, ColorError>)
    ensures !Truthy(color) ==> r == Ok(s)
    ensures Truthy(color) ==> (r.Ok? <==> color.value in Palette)
  {
    if Truthy(color) then
      match AnsiColorCode(color)
      case Err(e) => Err(e)
      case Ok(code) => Ok(code + s + Reset)
    else Ok(s)
  }

  /**
   * A coloured string is the colour's code, the string itself and the reset:
   * stripping the five-character code and the four-character reset gives the
   * string back, and the code names the colour.
   */
  lemma ColorStringParts(s: string, color: string)
    requires color in Palette
    ensures var r := ColorString(s, Some(color)).value;
            |r| == |s| + 9 && r[5..|r| - 4] == s && r[|r| - 4..] == Reset && ColorOfCode(r[..5]) == Some(color)
  {
    assert color != "";
    var r := ColorString(s, Some(color)).value;
    var code := AnsiColorCode(Some(color)).value;
    assert r == code + s + Reset;
    assert r[..5] == code;
    AnsiColorCodeReadsBack(color);
  }

  /** `color_string('Hello world', 'red')`. */
  lemma ColorStringExample(s: string)
    requires s == "Hello world"
    ensures ColorString(s, Some("red")) == Ok([Escape, '[', '3', '1', 'm'] + s + Reset)
  {
    AnsiColorCodeExamples();
  }

  /** An output stream: all it keeps is what has been written to it. */
  class Stream {
    var written: string

    constructor ()
      ensures written == ""
    {
      written := "";
    }

    method Write(s: string)
      modifies this
      ensures written == old(written) + s
    {
      written := written + s;
    }
  }

  /**
   * `write_color`: the coloured string is written in one piece; an unknown
   * colour fails before anything is written.
   */
  method WriteColor(s: string, color: Option<string>, stream: Stream) returns (r: Result<(), ColorError>)
    modifies stream
    ensures r.Ok? <==> ColorString(s, color).Ok?
    ensures r.Ok? ==> stream.written == old(stream.written) + ColorString(s, color).value
    ensures r.Err? ==> stream.written == old(stream.written)
  {
    match ColorString(s, color)
    case Err(e) =>
      r := Err(e);
    case Ok(text) =>
      stream.Write(text);
      r := Ok(());
  }
}
