/**
 * The Megaview plugin's calibration reader (`Megaview_ScaleBar.getCalibrationFromFile`).
 * The image file itself is read as text and split into lines; the last line
 * that starts with `Mode ` carries the magnification as its last whitespace
 * token with a one-letter suffix (`98000x`). The magnification is looked up in
 * a fixed table of pixel sizes in nanometres; any other magnification gives
 * a pixel size of 1.
 */
module MegaviewScaleBar {
  import opened Wrappers
  import opened Text
  import opened Numbers
  import opened Calibrations

  const ModePrefix: string := "Mode "

  /** The characters the regular expression `\s` matches. */
  const Whitespace: set<char> := {' ', '\t', '\n', '\U{000B}', '\U{000C}', '\r'}

  predicate IsModeLine(line: string)
  {
    ModePrefix <= line
  }

  // ---------------------------------------------------------------------------
  // The magnification token of one line
  // ---------------------------------------------------------------------------

  /** A `Mode ` line splits into `Mode` followed by the pieces of the rest. */
  lemma ModeLinePieces(line: string)
    requires IsModeLine(line)
    ensures SplitOn(line, Whitespace) == ["Mode"] + SplitOn(line[5..], Whitespace)
  {
    assert line == "Mode" + [' '] + line[5..];
    assert Avoids("Mode", Whitespace);
    SplitOnPrefix("Mode", ' ', line[5..], Whitespace);
  }

  /**
   * `line.split("\\s")` on a `Mode ` line keeps at least the word `Mode`, so
   * taking its last element never goes out of bounds.
   */
  lemma ModeLineTokens(line: string)
    requires IsModeLine(line)
    ensures JavaSplit(line, Whitespace) == DropTrailingEmpty(SplitOn(line, Whitespace))
    ensures |JavaSplit(line, Whitespace)| >= 1
    ensures JavaSplit(line, Whitespace)[0] == "Mode"
  {
    ModeLinePieces(line);
    var raw := SplitOn(line, Whitespace);
    assert |raw| >= 2 && raw[0] == "Mode" != "";
  }

  /** The last whitespace-separated token of a `Mode ` line. */
  function ModeToken(line: string): (t: string)
    requires IsModeLine(line)
    ensures |t| > 0 && Avoids(t, Whitespace)
    ensures exists i :: 0 <= i < |SplitOn(line, Whitespace)| && SplitOn(line, Whitespace)[i] == t
  {
    var tokens := JavaSplit(line, Whitespace);
    ModeLineTokens(line);
    var t := tokens[|tokens| - 1];
    assert t == SplitOn(line, Whitespace)[|tokens| - 1];
    t
  }

  /** The token is the last piece of the line that is not empty. */
  lemma ModeTokenIsLastWord(line: string)
    requires IsModeLine(line)
    ensures var raw := SplitOn(line, Whitespace);
      exists i :: 0 <= i < |raw| && raw[i] == ModeToken(line)
        && forall j :: i < j < |raw| ==> raw[j] == ""
  {
    var raw := SplitOn(line, Whitespace);
    var tokens := JavaSplit(line, Whitespace);
    ModeLineTokens(line);
    var i := |tokens| - 1;
    assert raw[i] == ModeToken(line);
  }

  // ---------------------------------------------------------------------------
  // The last Mode line
  // ---------------------------------------------------------------------------

  /** Index of the last `Mode ` line, if any. */
  function LastModeLine(lines: seq<string>): (r: Option<nat>)
    ensures r.Some? ==> r.value < |lines| && IsModeLine(lines[r.value])
    ensures r.Some? ==> forall j :: r.value < j < |lines| ==> !IsModeLine(lines[j])
    ensures r.None? <==> forall j :: 0 <= j < |lines| ==> !IsModeLine(lines[j])
    decreases |lines|
  {
    if |lines| == 0 then None
    else if IsModeLine(lines[|lines| - 1]) then Some(|lines| - 1)
    else
      var r := LastModeLine(lines[..|lines| - 1]);
      assert forall j :: 0 <= j < |lines| - 1 ==> lines[..|lines| - 1][j] == lines[j];
      r
  }

  /** `mag_string` after the scan: the last Mode line's token, or empty when there is none. */
  function MagnificationText(lines: seq<string>): string
  {
    match LastModeLine(lines)
    case None => ""
    case Some(i) => ModeToken(lines[i])
  }

  /** The token of the `i`-th line wins when no later line is a Mode line. */
  lemma LastModeLineWins(lines: seq<string>, i: nat)
    requires i < |lines| && IsModeLine(lines[i])
    requires forall j :: i < j < |lines| ==> !IsModeLine(lines[j])
    ensures MagnificationText(lines) == ModeToken(lines[i])
  {
    assert LastModeLine(lines) == Some(i);
  }

  /** The scan result is empty exactly when no line is a Mode line. */
  lemma MagnificationTextEmpty(lines: seq<string>)
    ensures MagnificationText(lines) == "" <==> forall j :: 0 <= j < |lines| ==> !IsModeLine(lines[j])
  {
  }

  /** The Mode lines of `lines`, in order. */
  function ModeLines(lines: seq<string>): (r: seq<string>)
    ensures forall j :: 0 <= j < |r| ==> IsModeLine(r[j])
    decreases |lines|
  {
    if |lines| == 0 then []
    else if IsModeLine(lines[|lines| - 1]) then ModeLines(lines[..|lines| - 1]) + [lines[|lines| - 1]]
    else ModeLines(lines[..|lines| - 1])
  }

  /** Only Mode lines influence the scan: dropping every other line changes nothing. */
  lemma {:induction false} OnlyModeLinesMatter(lines: seq<string>)
    ensures MagnificationText(ModeLines(lines)) == MagnificationText(lines)
    decreases |lines|
  {
    if |lines| > 0 {
      var n := |lines| - 1;
      var init := lines[..n];
      if IsModeLine(lines[n]) {
        var m := ModeLines(lines);
        LastModeLineWins(m, |m| - 1);
        LastModeLineWins(lines, n);
      } else {
        OnlyModeLinesMatter(init);
        assert LastModeLine(lines) == LastModeLine(init);
        match LastModeLine(init)
        case None =>
        case Some(i) =>
          assert init[i] == lines[i];
      }
    }
  }

  /** The scan as the plugin writes it: every Mode line overwrites `mag_string`. */
  method ScanModeLines(lines: seq<string>) returns (magString: string)
    ensures magString == "" <==> forall j :: 0 <= j < |lines| ==> !IsModeLine(lines[j])
    ensures forall i :: (0 <= i < |lines| && IsModeLine(lines[i])
                         && forall j :: i < j < |lines| ==> !IsModeLine(lines[j]))
                        ==> magString == ModeToken(lines[i])
  {
    magString := "";
    var last: Option<nat> := None;
    for i := 0 to |lines|
      invariant last.None? <==> forall j :: 0 <= j < i ==> !IsModeLine(lines[j])
      invariant last.Some? ==> last.value < i && IsModeLine(lines[last.value])
      invariant last.Some? ==> forall j :: last.value < j < i ==> !IsModeLine(lines[j])
      invariant last.None? ==> magString == ""
      invariant last.Some? ==> magString == ModeToken(lines[last.value])
    {
      var line := lines[i];
      if IsModeLine(line) {
        var tokens := JavaSplit(line, Whitespace);
        ModeLineTokens(line);
        magString := tokens[|tokens| - 1];
        last := Some(i);
      }
    }
  }

  // ---------------------------------------------------------------------------
  // Magnification and pixel size
  // ---------------------------------------------------------------------------

  datatype MegaviewError =
    | NoModeLine                   // `"".substring(0, -1)` throws
    | NotANumber(text: string)     // `Double.parseDouble` throws

  /** The magnification: the token without its last character, as a number. */
  function Magnification(lines: seq<string>): (r: Result<real, MegaviewError>)
    ensures r == Failure(NoModeLine) <==> forall j :: 0 <= j < |lines| ==> !IsModeLine(lines[j])
    ensures var m := MagnificationText(lines);
      |m| > 0 ==> (r.Success? <==> ParseNumber(m[..|m| - 1]).Some?)
    ensures r.Success? ==> var m := MagnificationText(lines);
      |m| > 0 && ParseNumber(m[..|m| - 1]) == Some(r.value)
  {
    var m := MagnificationText(lines);
    if |m| == 0 then Failure(NoModeLine)
    else
      match ParseNumber(m[..|m| - 1])
      case None => Failure(NotANumber(m[..|m| - 1]))
      case Some(mag) => Success(mag)
  }

  /** The calibration table: magnification to pixel size in nanometres. */
  const PixelSizes: map<real, real> := map[
    340000.0 := 0.2354, 150000.0 := 0.5419, 120000.0 := 0.6821,
    68000.0 := 1.237, 23000.0 := 3.735, 6800.0 := 12.41,
    30000.0 := 2.868, 250000.0 := 0.3216, 18500.0 := 4.635]

  /** The `if`/`else if` chain of the plugin, in its own order. */
  function PixelSizeFor(mag: real): (size: real)
    ensures size > 0.0
  {
    if mag == 340000.0 then 0.2354
    else if mag == 150000.0 then 0.5419
    else if mag == 120000.0 then 0.6821
    else if mag == 68000.0 then 1.237
    else if mag == 23000.0 then 3.735
    else if mag == 6800.0 then 12.41
    else if mag == 30000.0 then 2.868
    else if mag == 250000.0 then 0.3216
    else if mag == 18500.0 then 4.635
    else 1.0
  }

  /** The chain agrees with the table, and every other magnification gets 1. */
  lemma PixelSizeForTable(mag: real)
    ensures mag in PixelSizes ==> PixelSizeFor(mag) == PixelSizes[mag]
    ensures mag !in PixelSizes ==> PixelSizeFor(mag) == 1.0
  {
  }

  /**
   * `getCalibrationFromFile`: `None` stands for a file that cannot be read,
   * which gives a fresh calibration.
   */
  function GetCalibrationFromFile(file: Option<string>): (r: Result<Calibration, MegaviewError>)
    ensures file.None? ==> r == Success(Default)
    ensures file.Some? ==> (r.Success? <==> Magnification(SplitLines(file.value)).Success?)
    ensures file.Some? && r.Failure? ==> r.error == Magnification(SplitLines(file.value)).error
    ensures file.Some? && r.Success? ==>
      r.value.Scaled? && IsIsotropic(r.value) && r.value.unit == "nm" && r.value.pixelWidth > 0.0
    ensures file.Some? && r.Success? ==>
      var mag := Magnification(SplitLines(file.value)).value;
      r.value.pixelWidth == (if mag in PixelSizes then PixelSizes[mag] else 1.0)
  {
    match file
    case None => Success(Default)
    case Some(text) =>
      var mag :- Magnification(SplitLines(text));
      PixelSizeForTable(mag);
      Success(SquarePixels("nm", PixelSizeFor(mag)))
  }

  /** A single header line is one line of text. */
  lemma ExampleLines(line: string)
    requires NoLineBreak(line)
    ensures SplitLines(line) == [line]
  {
    RawLinesSingle(line);
  }

  lemma ExampleWords()
    ensures SplitOn("Mode TEM 150000x", Whitespace) == ["Mode", "TEM", "150000x"]
  {
    var words := ["Mode", "TEM", "150000x"];
    assert Join(words, [' ']) == "Mode TEM 150000x";
    SplitOnJoin(words, ' ', Whitespace);
  }

  lemma ExampleToken()
    ensures ModeToken("Mode TEM 150000x") == "150000x"
  {
    ExampleWords();
    ModeLineTokens("Mode TEM 150000x");
  }

  lemma ExampleNumber()
    ensures ParseNumber("150000") == Some(150000.0)
  {
    assert NatToString(15) == "15";
    assert NatToString(150) == "150";
    assert NatToString(1500) == "1500";
    assert NatToString(15000) == "15000";
    assert NatToString(150000) == "150000";
    ParseNatToString(150000);
  }

  /** A scan that yields `token` gives the number before its last character. */
  lemma MagnificationOfToken(lines: seq<string>, token: string, x: real)
    requires MagnificationText(lines) == token && |token| > 0
    requires ParseNumber(token[..|token| - 1]) == Some(x)
    ensures Magnification(lines) == Success(x)
  {
  }

  /** A text that is a single Mode line yields that line's token. */
  lemma SingleModeLineText(line: string)
    requires NoLineBreak(line) && IsModeLine(line)
    ensures MagnificationText(SplitLines(line)) == ModeToken(line)
  {
    ExampleLines(line);
    LastModeLineWins([line], 0);
  }

  lemma ExampleText()
    ensures MagnificationText(SplitLines("Mode TEM 150000x")) == "150000x"
  {
    var line := "Mode TEM 150000x";
    assert ModePrefix <= line;
    assert NoLineBreak(line);
    SingleModeLineText(line);
    ExampleToken();
  }

  lemma ExampleMagnification()
    ensures Magnification(SplitLines("Mode TEM 150000x")) == Success(150000.0)
  {
    var token := "150000x";
    ExampleText();
    assert token[..|token| - 1] == "150000";
    ExampleNumber();
    MagnificationOfToken(SplitLines("Mode TEM 150000x"), token, 150000.0);
  }

  /** A header line with a known magnification. */
  lemma KnownMagnificationExample()
    ensures GetCalibrationFromFile(Some("Mode TEM 150000x")) == Success(Scaled("nm", 0.5419, 0.5419))
  {
    ExampleMagnification();
  }
}
