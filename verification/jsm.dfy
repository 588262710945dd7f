/**
 * The JEOL JSM plugin's metadata path: the `.txt` sidecar named after the
 * image, parsed line by line against a fixed chain of sixteen literal
 * prefixes into a key/value record, and the record turned into an isotropic
 * pixel calibration corrected by the ratio of the measured image width to the
 * declared one.
 */
module JsmScaleBar {
  import opened Wrappers
  import opened Text
  import opened Numbers
  import opened Calibrations
  import opened LineRecords

  // ---------------------------------------------------------------------------
  // The record
  // ---------------------------------------------------------------------------

  /** The keys the plugin stores; `Name` gives the string it uses for each. */
  datatype Key =
    | MicronBarPx | MicronBar | MicronBarUnit
    | ImageWidth | ImageHeight
    | Title | Instrument | Date | Time | Vacuum | Signal | SignalName
    | AccelerationVoltage | BiasVoltage
    | WorkingDistance | Magnification | ColumnMode
    | StageX | StageY | StageZ | StageR | StageT
    | ScalingFactor

  function Name(k: Key): string
  {
    match k
    case MicronBarPx => "micron bar px"
    case MicronBar => "micron bar"
    case MicronBarUnit => "micron bar unit"
    case ImageWidth => "image width"
    case ImageHeight => "image height"
    case Title => "title"
    case Instrument => "instrument"
    case Date => "date"
    case Time => "time"
    case Vacuum => "vacuum"
    case Signal => "signal"
    case SignalName => "signal name"
    case AccelerationVoltage => "acceleration voltage"
    case BiasVoltage => "bias voltage"
    case WorkingDistance => "working distance"
    case Magnification => "magnification"
    case ColumnMode => "column mode"
    case StageX => "stage x"
    case StageY => "stage y"
    case StageZ => "stage z"
    case StageR => "stage r"
    case StageT => "stage t"
    case ScalingFactor => "scaling factor"
  }

  /** Different keys have different names, so the keys stand for the plugin's strings one to one. */
  lemma NameInjective(a: Key, b: Key)
    requires Name(a) == Name(b)
    ensures a == b
  {
  }

  /** Keys whose values are stored as `Double`; the others hold strings. */
  predicate IsNumeric(k: Key)
  {
    !(k.MicronBarUnit? || k.Title? || k.Instrument? || k.Date? || k.Time? || k.Vacuum?
      || k.Signal? || k.SignalName? || k.AccelerationVoltage? || k.BiasVoltage? || k.ColumnMode?)
  }

  datatype Value = Num(x: real) | Str(s: string)

  type Record = map<Key, Value>

  predicate WellTyped(rec: Record)
  {
    forall k :: k in rec ==> (rec[k].Num? <==> IsNumeric(k))
  }

  /**
   * What every record the parser produces satisfies: values typed by key, the
   * micron bar stored with its unit, and no scaling factor yet.
   */
  predicate Consistent(rec: Record)
  {
    && WellTyped(rec)
    && (MicronBar in rec <==> MicronBarUnit in rec)
    && ScalingFactor !in rec
  }

  // ---------------------------------------------------------------------------
  // The prefix chain
  // ---------------------------------------------------------------------------

  /** How the text after a prefix is stored. */
  datatype Field =
    | NumberField(key: Key)
    | TextField(key: Key)
      /** A number up to the last two characters, which are its unit. */
    | MarkerField(numberKey: Key, unitKey: Key)
      /** Space-separated numbers, one per key. */
    | TokenFields(keys: seq<Key>)

  /** The body of a branch: the `substring` offset it uses and the fields it fills. */
  datatype Action = Action(offset: nat, field: Field)

  /** The words the chain tests for, in the order the plugin tests them. */
  const Keywords: seq<string> := [
    "$$SM_MICRON_BAR", "$$SM_MICRON_MARKER", "$CM_FULL_SIZE", "$CM_TITLE",
    "$CM_INSTRUMENT", "$CM_DATE", "$CM_TIME", "$SM_PENNING_VAC",
    "$CM_SIGNAL", "$CM_SIGNAL_NAME", "$CM_ACCEL_VOLT", "$SM_GB_BIAS_VOLT",
    "$$SM_WD", "$CM_MAG", "$$SM_COLUMN_MODE", "$CM_STAGE_POS"
  ]

  /** What each branch does, in the same order. */
  const Actions: seq<Action> := [
    Action(16, NumberField(MicronBarPx)),
    Action(19, MarkerField(MicronBar, MicronBarUnit)),
    Action(14, TokenFields([ImageWidth, ImageHeight])),
    Action(10, TextField(Title)),
    Action(15, TextField(Instrument)),
    Action(9, TextField(Date)),
    Action(9, TextField(Time)),
    Action(16, TextField(Vacuum)),
    Action(11, TextField(Signal)),
    Action(16, TextField(SignalName)),
    Action(15, TextField(AccelerationVoltage)),
    Action(17, TextField(BiasVoltage)),
    Action(8, NumberField(WorkingDistance)),
    Action(8, NumberField(Magnification)),
    Action(17, TextField(ColumnMode)),
    Action(14, TokenFields([StageX, StageY, StageZ, StageR, StageT]))
  ]

  /** Branch `i` fires on lines that start with its keyword and a space. */
  function Prefix(i: nat): string
    requires i < |Keywords|
  {
    Keywords[i] + " "
  }

  const MarkerRule := 1
  const FullSizeRule := 2
  const StagePosRule := 15

  /** A key a single field writes: typed as declared, and not one of the marker pair or the factor. */
  predicate IsPlainKey(k: Key, numeric: bool)
  {
    IsNumeric(k) == numeric && !k.MicronBar? && !k.MicronBarUnit? && !k.ScalingFactor?
  }

  predicate FieldTyped(f: Field)
  {
    match f
    case NumberField(k) => IsPlainKey(k, true)
    case TextField(k) => IsPlainKey(k, false)
    case MarkerField(nk, uk) => nk == MicronBar && uk == MicronBarUnit
    case TokenFields(keys) =>
      && (forall i :: 0 <= i < |keys| ==> IsPlainKey(keys[i], true))
      && (forall i, j :: 0 <= i < j < |keys| ==> keys[i] != keys[j])
  }

  /** There are sixteen branches, and each one's `substring` offset is the length of its prefix. */
  lemma RulesOffsets()
    ensures |Keywords| == |Actions| == 16
    ensures forall i :: 0 <= i < |Actions| ==> Actions[i].offset == |Keywords[i]| + 1
  {
  }

  /** No keyword contains a space, so each prefix holds exactly one space, at its end. */
  lemma RulesKeywords()
    ensures forall i :: 0 <= i < |Keywords| ==> ' ' !in Keywords[i]
  {
  }

  /** No keyword appears twice. */
  lemma RulesDistinct()
    ensures forall i, j :: 0 <= i < j < |Keywords| ==> Keywords[i] != Keywords[j]
  {
  }

  /** Every branch stores values of the declared types under keys of its own. */
  lemma RulesTyped()
    ensures forall i :: 0 <= i < |Actions| ==> FieldTyped(Actions[i].field)
  {
    forall i | 0 <= i < |Actions|
      ensures FieldTyped(Actions[i].field)
    {
      if i == 15 {
        StageKeysTyped();
      }
    }
  }

  /** The five stage coordinates are distinct numeric keys. */
  lemma StageKeysTyped()
    ensures FieldTyped(TokenFields([StageX, StageY, StageZ, StageR, StageT]))
  {
  }

  /** The index of the first branch from `i` on whose prefix starts `line`. */
  function FirstRuleFrom(line: string, i: nat): (r: Option<nat>)
    requires i <= |Keywords|
    ensures r.Some? ==> i <= r.value < |Keywords| && Prefix(r.value) <= line
    ensures r.Some? ==> r.value < |Actions| && Actions[r.value].offset == |Prefix(r.value)|
    ensures forall j :: i <= j < |Keywords| && Prefix(j) <= line ==> r.Some? && r.value <= j
    decreases |Keywords| - i
  {
    if i == |Keywords| then None
    else if Prefix(i) <= line then RulesOffsets(); Some(i)
    else FirstRuleFrom(line, i + 1)
  }

  /** The branch of the if/else-if chain that fires on `line`, if any. */
  function MatchingRule(line: string): (r: Option<nat>)
    ensures r.Some? ==> r.value < |Actions| && Prefix(r.value) <= line
    ensures r.None? <==> forall j :: 0 <= j < |Keywords| ==> !(Prefix(j) <= line)
  {
    FirstRuleFrom(line, 0)
  }

  // ---------------------------------------------------------------------------
  // Parsing
  // ---------------------------------------------------------------------------

  /** The exceptions that abort parsing a sidecar. */
  datatype ParseError =
      /** `new Double(text)` threw `NumberFormatException`. */
    | NotANumber(key: Key, text: string)
      /** Indexing the `split(" ")` result threw `ArrayIndexOutOfBoundsException`. */
    | MissingToken(key: Key, line: string)
      /** `substring(19, length() - 2)` threw on a marker line shorter than 21 characters. */
    | MarkerTooShort(line: string)

  /** `new Double(text)` stored under `key`. */
  function NumberEntry(key: Key, text: string): (r: Result<Record, ParseError>)
    ensures r.Success? <==> ParseNumber(text).Some?
    ensures r.Success? ==> r.value == map[key := Num(ParseNumber(text).value)]
    ensures r.Failure? ==> r.error == NotANumber(key, text)
  {
    match ParseNumber(text)
    case None => Failure(NotANumber(key, text))
    case Some(x) => Success(map[key := Num(x)])
  }

  /** There is a token for every key, and each of those tokens is a number. */
  predicate NumericTokens(keys: seq<Key>, tokens: seq<string>)
  {
    |tokens| >= |keys| && forall i :: 0 <= i < |keys| ==> ParseNumber(tokens[i]).Some?
  }

  /** `rec` holds numbers under exactly the keys listed. */
  predicate FilledWith(rec: Record, keys: seq<Key>)
  {
    && (forall k :: k in rec <==> k in keys)
    && (forall k :: k in rec ==> rec[k].Num?)
  }

  /** The keys filled in order from the tokens: each token must exist and be a number. */
  function TokenValues(keys: seq<Key>, tokens: seq<string>, line: string): (r: Result<Record, ParseError>)
    ensures r.Success? <==> NumericTokens(keys, tokens)
    ensures r.Success? ==> FilledWith(r.value, keys)
    decreases |keys|
  {
    if |keys| == 0 then Success(map[])
    else if |tokens| == 0 then Failure(MissingToken(keys[0], line))
    else
      NumericTokensCons(keys, tokens);
      match ParseNumber(tokens[0])
      case None => Failure(NotANumber(keys[0], tokens[0]))
      case Some(x) =>
        match TokenValues(keys[1..], tokens[1..], line)
        case Failure(e) => Failure(e)
        case Success(rest) =>
          FilledWithCons(keys, x, rest);
          Success(map[keys[0] := Num(x)] + rest)
  }

  /** The first token decides for the first key, the remaining tokens for the remaining keys. */
  lemma NumericTokensCons(keys: seq<Key>, tokens: seq<string>)
    requires |keys| > 0 && |tokens| > 0
    ensures NumericTokens(keys, tokens)
        <==> ParseNumber(tokens[0]).Some? && NumericTokens(keys[1..], tokens[1..])
  {
    var later := tokens[1..];
    assert forall i :: 0 <= i < |later| ==> later[i] == tokens[i + 1];
  }

  /** One more key in front, filled with a number. */
  lemma FilledWithCons(keys: seq<Key>, x: real, rest: Record)
    requires |keys| > 0 && FilledWith(rest, keys[1..])
    ensures FilledWith(map[keys[0] := Num(x)] + rest, keys)
  {
    assert keys == [keys[0]] + keys[1..];
  }

  /** Too few tokens, all of them numbers: the first key without a token is reported missing. */
  lemma {:induction false} TokenValuesMissing(keys: seq<Key>, tokens: seq<string>, line: string)
    requires |tokens| < |keys|
    requires forall i :: 0 <= i < |tokens| ==> ParseNumber(tokens[i]).Some?
    ensures TokenValues(keys, tokens, line) == Failure(MissingToken(keys[|tokens|], line))
    decreases |tokens|
  {
    if |tokens| > 0 {
      var later := tokens[1..];
      assert forall i :: 0 <= i < |later| ==> later[i] == tokens[i + 1];
      TokenValuesMissing(keys[1..], later, line);
      assert keys[1..][|later|] == keys[|tokens|];
      TokenValuesFailStep(keys, tokens, line);
    }
  }

  /** A failure after the first token is the failure of the whole list. */
  lemma TokenValuesFailStep(keys: seq<Key>, tokens: seq<string>, line: string)
    requires |keys| > 0 && |tokens| > 0 && ParseNumber(tokens[0]).Some?
    requires TokenValues(keys[1..], tokens[1..], line).Failure?
    ensures TokenValues(keys, tokens, line) == TokenValues(keys[1..], tokens[1..], line)
  {
  }

  /** With distinct keys, each key holds the number its own token spells. */
  lemma {:induction false} TokenValuesStored(keys: seq<Key>, tokens: seq<string>, line: string)
    requires forall i, j :: 0 <= i < j < |keys| ==> keys[i] != keys[j]
    requires TokenValues(keys, tokens, line).Success?
    ensures forall i :: 0 <= i < |keys| ==>
      TokenValues(keys, tokens, line).value[keys[i]] == Num(ParseNumber(tokens[i]).value)
    decreases |keys|
  {
    if |keys| > 0 {
      NumericTokensCons(keys, tokens);
      var rest := TokenValues(keys[1..], tokens[1..], line);
      TokenValuesStored(keys[1..], tokens[1..], line);
      var x := ParseNumber(tokens[0]).value;
      var rec := TokenValues(keys, tokens, line).value;
      assert rec == map[keys[0] := Num(x)] + rest.value;
      assert keys[0] !in rest.value;
      forall i | 0 < i < |keys|
        ensures rec[keys[i]] == Num(ParseNumber(tokens[i]).value)
      {
        assert keys[i] == keys[1..][i - 1] && tokens[i] == tokens[1..][i - 1];
      }
    }
  }

  /** The entries one branch stores for `line`, or the exception it throws. */
  function ActionFields(action: Action, line: string): Result<Record, ParseError>
    requires action.offset <= |line|
  {
    var rest := line[action.offset..];
    match action.field
    case NumberField(key) => NumberEntry(key, rest)
    case TextField(key) => Success(map[key := Str(rest)])
    case MarkerField(numberKey, unitKey) =>
      if |line| - 2 < action.offset then Failure(MarkerTooShort(line))
      else
        var unit := line[|line| - 2..];
        (match NumberEntry(numberKey, line[action.offset..|line| - 2])
         case Failure(e) => Failure(e)
         case Success(entry) => Success(entry[unitKey := Str(unit)]))
    case TokenFields(keys) => TokenValues(keys, JavaSplit(rest, {' '}), line)
  }

  /** The entries `line` contributes: none when no prefix matches. */
  function LineFields(line: string): Result<Record, ParseError>
  {
    match MatchingRule(line)
    case None => Success(map[])
    case Some(i) => ActionFields(Actions[i], line)
  }

  /** The record the plugin builds from the sidecar's lines, or the first line's exception. */
  function ParseLines(lines: seq<string>): Result<Record, ParseError>
  {
    Fold(LineFields, lines)
  }

  /** The plugin's loop over the lines, stopping at the first exception. */
  method ParseSidecar(lines: seq<string>) returns (r: Result<Record, ParseError>)
    ensures r == ParseLines(lines)
  {
    var rec: Record := map[];
    for i := 0 to |lines|
      invariant Fold(LineFields, lines[..i]) == Success(rec)
    {
      FoldStep(LineFields, lines, i);
      var entries := LineFields(lines[i]);
      if entries.Failure? {
        FoldFailurePersists(LineFields, lines, i + 1);
        return Failure(entries.error);
      }
      rec := rec + entries.value;
    }
    assert lines[..|lines|] == lines;
    r := Success(rec);
  }

  /** The sidecar parses exactly when no line throws; otherwise the first throwing line's error is reported. */
  lemma SidecarOutcome(lines: seq<string>)
    ensures ParseLines(lines).Success? <==> forall i :: 0 <= i < |lines| ==> LineFields(lines[i]).Success?
    ensures ParseLines(lines).Failure? ==>
      exists i :: 0 <= i < |lines|
        && LineFields(lines[i]) == Failure(ParseLines(lines).error)
        && forall j :: 0 <= j < i ==> LineFields(lines[j]).Success?
  {
    FoldOutcome(LineFields, lines);
  }

  /** A key is in the record exactly when some line stores it. */
  lemma SidecarKeys(lines: seq<string>, k: Key)
    requires ParseLines(lines).Success?
    ensures k in ParseLines(lines).value <==> exists i :: 0 <= i < |lines| && Writes(LineFields, lines[i], k)
  {
    FoldKeys(LineFields, lines, k);
  }

  /** Last write wins: a key holds what the last line storing it stored. */
  lemma SidecarLastWrite(lines: seq<string>, k: Key, i: nat)
    requires ParseLines(lines).Success?
    requires i < |lines| && Writes(LineFields, lines[i], k)
    requires forall j :: i < j < |lines| ==> !Writes(LineFields, lines[j], k)
    ensures k in ParseLines(lines).value && ParseLines(lines).value[k] == LineFields(lines[i]).value[k]
  {
    FoldLastWrite(LineFields, lines, k, i);
  }

  // ---------------------------------------------------------------------------
  // Properties of the chain
  // ---------------------------------------------------------------------------

  /** A space-free word followed by a space cannot run past another such prefix of the same line. */
  lemma KeywordNotLonger(a: string, b: string, line: string)
    requires ' ' !in a
    requires a + " " <= line && b + " " <= line
    ensures |a| <= |b|
  {
    assert line[|b|] == (b + " ")[|b|] == ' ';
    assert forall k :: 0 <= k < |a| ==> line[k] == (a + " ")[k] == a[k] != ' ';
  }

  /** Two space-free words that each start the line followed by a space are the same word. */
  lemma KeywordPrefixesAgree(a: string, b: string, line: string)
    requires ' ' !in a && ' ' !in b
    requires a + " " <= line && b + " " <= line
    ensures a == b
  {
    KeywordNotLonger(a, b, line);
    KeywordNotLonger(b, a, line);
    assert forall k :: 0 <= k < |a| ==> a[k] == (a + " ")[k] == line[k] == (b + " ")[k] == b[k];
  }

  /** No prefix of the chain is a prefix of another, so at most one branch can fire. */
  lemma AtMostOneRule(line: string, i: nat, j: nat)
    requires i < |Keywords| && j < |Keywords|
    requires Prefix(i) <= line && Prefix(j) <= line
    ensures i == j
  {
    RulesKeywords();
    RulesDistinct();
    KeywordPrefixesAgree(Keywords[i], Keywords[j], line);
  }

  /** The branch whose prefix starts the line is the one that fires, wherever it sits in the chain. */
  lemma MatchedRule(line: string, i: nat)
    requires i < |Keywords| && Prefix(i) <= line
    ensures MatchingRule(line) == Some(i)
  {
    var m := MatchingRule(line);
    assert m.Some?;
    AtMostOneRule(line, i, m.value);
  }

  /** A line some prefix starts is handled by that branch alone. */
  lemma LineFieldsAt(line: string, i: nat)
    requires i < |Keywords| && Prefix(i) <= line
    ensures i < |Actions| && Actions[i].offset == |Prefix(i)| <= |line|
    ensures LineFields(line) == ActionFields(Actions[i], line)
  {
    RulesOffsets();
    MatchedRule(line, i);
  }

  /** A line that starts with none of the prefixes stores nothing. */
  lemma UnmatchedLineIgnored(line: string)
    requires forall i :: 0 <= i < |Keywords| ==> !(Prefix(i) <= line)
    ensures LineFields(line) == Success(map[])
  {
  }

  /** A text field stores the line with its prefix removed, verbatim. */
  lemma TextFieldVerbatim(line: string, i: nat)
    requires i < |Keywords| && Prefix(i) <= line
    requires i < |Actions| && Actions[i].field.TextField?
    ensures var rest := line[|Prefix(i)|..];
      && Prefix(i) + rest == line
      && LineFields(line) == Success(map[Actions[i].field.key := Str(rest)])
  {
    LineFieldsAt(line, i);
    PrefixRest(Prefix(i), line);
  }

  /** A numeric field stores the number the rest of the line spells, or the line fails. */
  lemma NumberFieldParsed(line: string, i: nat)
    requires i < |Keywords| && Prefix(i) <= line
    requires i < |Actions| && Actions[i].field.NumberField?
    ensures var rest := line[|Prefix(i)|..];
      && Prefix(i) + rest == line
      && (ParseNumber(rest).None? ==> LineFields(line) == Failure(NotANumber(Actions[i].field.key, rest)))
      && (ParseNumber(rest).Some? ==>
            LineFields(line) == Success(map[Actions[i].field.key := Num(ParseNumber(rest).value)]))
  {
    LineFieldsAt(line, i);
    PrefixRest(Prefix(i), line);
  }

  /** What a marker branch stores: the number before the last two characters, and those two as its unit. */
  lemma MarkerFields(action: Action, line: string)
    requires action.field == MarkerField(MicronBar, MicronBarUnit) && action.offset <= |line|
    ensures |line| - 2 < action.offset ==> ActionFields(action, line) == Failure(MarkerTooShort(line))
    ensures |line| - 2 >= action.offset ==>
      var text, unit := line[action.offset..|line| - 2], line[|line| - 2..];
      && (ParseNumber(text).None? ==> ActionFields(action, line) == Failure(NotANumber(MicronBar, text)))
      && (ParseNumber(text).Some? ==>
            ActionFields(action, line) == Success(map[MicronBar := Num(ParseNumber(text).value), MicronBarUnit := Str(unit)]))
  {
    if |line| - 2 >= action.offset {
      var text, unit := line[action.offset..|line| - 2], line[|line| - 2..];
      var entry := NumberEntry(MicronBar, text);
      if entry.Success? {
        assert entry.value[MicronBarUnit := Str(unit)]
            == map[MicronBar := Num(ParseNumber(text).value), MicronBarUnit := Str(unit)];
      }
    }
  }

  /** The marker branch, as the table lists it. */
  lemma MarkerLine(line: string)
    requires Prefix(MarkerRule) <= line
    ensures |Prefix(MarkerRule)| == 19 <= |line|
    ensures LineFields(line) == ActionFields(Action(19, MarkerField(MicronBar, MicronBarUnit)), line)
  {
    assert Keywords[MarkerRule] == "$$SM_MICRON_MARKER";
    assert Actions[MarkerRule] == Action(19, MarkerField(MicronBar, MicronBarUnit));
    LineFieldsAt(line, MarkerRule);
  }

  /** A marker line shorter than 21 characters makes `substring` throw. */
  lemma MarkerTooShortFails(line: string)
    requires Prefix(MarkerRule) <= line && |line| < 21
    ensures LineFields(line) == Failure(MarkerTooShort(line))
  {
    MarkerLine(line);
    MarkerFields(Action(19, MarkerField(MicronBar, MicronBarUnit)), line);
  }

  /**
   * The marker line is prefix, number text and a two-character unit; the number
   * and its unit are stored together or not at all.
   */
  lemma MarkerSplit(line: string)
    requires Prefix(MarkerRule) <= line && |line| >= 21
    ensures var text, unit := line[19..|line| - 2], line[|line| - 2..];
      && Prefix(MarkerRule) + text + unit == line
      && |unit| == 2
      && (ParseNumber(text).None? ==> LineFields(line) == Failure(NotANumber(MicronBar, text)))
      && (ParseNumber(text).Some? ==>
            LineFields(line) == Success(map[MicronBar := Num(ParseNumber(text).value), MicronBarUnit := Str(unit)]))
  {
    MarkerLine(line);
    MarkerFields(Action(19, MarkerField(MicronBar, MicronBarUnit)), line);
    PrefixMiddleSuffix(Prefix(MarkerRule), line, 2);
  }

  /** A token branch fails when the line has fewer tokens than the branch has keys. */
  lemma TokenFieldsShort(action: Action, line: string)
    requires action.field.TokenFields? && action.offset <= |line|
    requires |JavaSplit(line[action.offset..], {' '})| < |action.field.keys|
    ensures ActionFields(action, line).Failure?
  {
  }

  /** The full-size branch, as the table lists it. */
  lemma FullSizeLine(line: string)
    requires Prefix(FullSizeRule) <= line
    ensures |Prefix(FullSizeRule)| == 14 <= |line|
    ensures LineFields(line) == ActionFields(Action(14, TokenFields([ImageWidth, ImageHeight])), line)
  {
    assert Keywords[FullSizeRule] == "$CM_FULL_SIZE";
    assert Actions[FullSizeRule] == Action(14, TokenFields([ImageWidth, ImageHeight]));
    LineFieldsAt(line, FullSizeRule);
  }

  /** The stage-position branch, as the table lists it. */
  lemma StagePosLine(line: string)
    requires Prefix(StagePosRule) <= line
    ensures |Prefix(StagePosRule)| == 14 <= |line|
    ensures LineFields(line) == ActionFields(Action(14, TokenFields([StageX, StageY, StageZ, StageR, StageT])), line)
  {
    assert Keywords[StagePosRule] == "$CM_STAGE_POS";
    assert Actions[StagePosRule] == Action(14, TokenFields([StageX, StageY, StageZ, StageR, StageT]));
    LineFieldsAt(line, StagePosRule);
  }

  /** `$CM_FULL_SIZE ` needs two space-separated tokens. */
  lemma FullSizeTooFewTokens(line: string)
    requires Prefix(FullSizeRule) <= line
    requires |JavaSplit(line[14..], {' '})| < 2
    ensures LineFields(line).Failure?
  {
    FullSizeLine(line);
    TokenFieldsShort(Action(14, TokenFields([ImageWidth, ImageHeight])), line);
  }

  /** `$CM_STAGE_POS ` needs five space-separated tokens. */
  lemma StagePosTooFewTokens(line: string)
    requires Prefix(StagePosRule) <= line
    requires |JavaSplit(line[14..], {' '})| < 5
    ensures LineFields(line).Failure?
  {
    StagePosLine(line);
    TokenFieldsShort(Action(14, TokenFields([StageX, StageY, StageZ, StageR, StageT])), line);
  }

  /** Two distinct keys filled from two numeric tokens hold exactly those two numbers. */
  lemma TokenValuesPair(a: Key, b: Key, tokens: seq<string>, line: string, x: real, y: real)
    requires a != b && |tokens| >= 2
    requires ParseNumber(tokens[0]) == Some(x) && ParseNumber(tokens[1]) == Some(y)
    ensures TokenValues([a, b], tokens, line) == Success(map[a := Num(x), b := Num(y)])
  {
    TokenValuesOne(b, tokens[1..], line, y);
    TokenValuesCons(a, [b], tokens, line, x);
    PairMap(a, b, Num(x), Num(y));
    assert [a] + [b] == [a, b];
  }

  /** One key filled from one numeric token. */
  lemma TokenValuesOne(b: Key, tokens: seq<string>, line: string, y: real)
    requires |tokens| >= 1 && ParseNumber(tokens[0]) == Some(y)
    ensures TokenValues([b], tokens, line) == Success(map[b := Num(y)])
  {
    TokenValuesCons(b, [], tokens, line, y);
    assert [b] + [] == [b] && map[b := Num(y)] + map[] == map[b := Num(y)];
  }

  lemma PairMap(a: Key, b: Key, u: Value, v: Value)
    ensures map[a := u] + map[b := v] == map[a := u, b := v]
  {
  }

  /** One more key in front, filled from one more numeric token. */
  lemma TokenValuesCons(k: Key, keys: seq<Key>, tokens: seq<string>, line: string, x: real)
    requires |tokens| >= 1 && ParseNumber(tokens[0]) == Some(x)
    requires TokenValues(keys, tokens[1..], line).Success?
    ensures TokenValues([k] + keys, tokens, line)
         == Success(map[k := Num(x)] + TokenValues(keys, tokens[1..], line).value)
  {
    assert ([k] + keys)[0] == k && ([k] + keys)[1..] == keys;
  }

  /** A token branch with two distinct keys and two numeric tokens stores exactly those two numbers. */
  lemma TokenFieldsPair(action: Action, line: string, a: Key, b: Key)
    requires action.field == TokenFields([a, b]) && a != b && action.offset <= |line|
    requires var tokens := JavaSplit(line[action.offset..], {' '});
      |tokens| >= 2 && ParseNumber(tokens[0]).Some? && ParseNumber(tokens[1]).Some?
    ensures var tokens := JavaSplit(line[action.offset..], {' '});
      ActionFields(action, line) == Success(map[a := Num(ParseNumber(tokens[0]).value),
                                                b := Num(ParseNumber(tokens[1]).value)])
  {
    var tokens := JavaSplit(line[action.offset..], {' '});
    TokenValuesPair(a, b, tokens, line, ParseNumber(tokens[0]).value, ParseNumber(tokens[1]).value);
  }

  /** The full-size line, when its two tokens are numbers, stores exactly the width and height. */
  lemma FullSizeStored(line: string)
    requires Prefix(FullSizeRule) <= line
    requires var tokens := JavaSplit(line[14..], {' '});
      |tokens| >= 2 && ParseNumber(tokens[0]).Some? && ParseNumber(tokens[1]).Some?
    ensures var tokens := JavaSplit(line[14..], {' '});
      LineFields(line) == Success(map[ImageWidth := Num(ParseNumber(tokens[0]).value),
                                      ImageHeight := Num(ParseNumber(tokens[1]).value)])
  {
    FullSizeLine(line);
    TokenFieldsPair(Action(14, TokenFields([ImageWidth, ImageHeight])), line, ImageWidth, ImageHeight);
  }

  // ---------------------------------------------------------------------------
  // Properties of the whole parse
  // ---------------------------------------------------------------------------

  /** One entry under a key of its declared type, which is not part of the marker pair. */
  lemma PlainEntryConsistent(k: Key, v: Value)
    requires IsPlainKey(k, v.Num?)
    ensures Consistent(map[k := v])
  {
  }

  /** The marker pair, stored together. */
  lemma MarkerEntriesConsistent(x: real, unit: string)
    ensures Consistent(map[MicronBar := Num(x), MicronBarUnit := Str(unit)])
  {
    var m := map[MicronBar := Num(x), MicronBarUnit := Str(unit)];
    assert m.Keys == {MicronBar, MicronBarUnit};
  }

  /** Numbers stored under plain numeric keys. */
  lemma TokenEntriesConsistent(keys: seq<Key>, rec: Record)
    requires forall i :: 0 <= i < |keys| ==> IsPlainKey(keys[i], true)
    requires forall k :: k in rec <==> k in keys
    requires forall k :: k in rec ==> rec[k].Num?
    ensures Consistent(rec)
  {
    assert forall k :: k in rec ==> IsPlainKey(k, true);
  }

  /** A branch whose field is typed stores consistent entries. */
  lemma ActionFieldsConsistent(action: Action, line: string)
    requires action.offset <= |line| && FieldTyped(action.field)
    requires ActionFields(action, line).Success?
    ensures Consistent(ActionFields(action, line).value)
  {
    var rest := line[action.offset..];
    match action.field
    case NumberField(k) =>
      PlainEntryConsistent(k, Num(ParseNumber(rest).value));
    case TextField(k) =>
      PlainEntryConsistent(k, Str(rest));
    case MarkerField(nk, uk) =>
      MarkerFields(action, line);
      var text := line[action.offset..|line| - 2];
      MarkerEntriesConsistent(ParseNumber(text).value, line[|line| - 2..]);
    case TokenFields(keys) =>
      var tokens := JavaSplit(rest, {' '});
      TokenEntriesConsistent(keys, TokenValues(keys, tokens, line).value);
  }

  /** The entries of every line that parses are consistent. */
  lemma LineFieldsConsistent(line: string)
    requires LineFields(line).Success?
    ensures Consistent(LineFields(line).value)
  {
    var m := MatchingRule(line);
    if m.Some? {
      RulesOffsets();
      RulesTyped();
      ActionFieldsConsistent(Actions[m.value], line);
    }
  }

  /** Every record the parser produces is consistent. */
  lemma {:induction false} ParseLinesConsistent(lines: seq<string>)
    requires ParseLines(lines).Success?
    ensures Consistent(ParseLines(lines).value)
    decreases |lines|
  {
    if |lines| > 0 {
      var init := lines[..|lines| - 1];
      ParseLinesConsistent(init);
      LineFieldsConsistent(lines[|lines| - 1]);
    }
  }

  // ---------------------------------------------------------------------------
  // Calibration
  // ---------------------------------------------------------------------------

  /** The record after the derivation, and the calibration the image ends up with. */
  datatype JsmState = JsmState(record: Record, calibration: Calibration)

  predicate HasCalibrationFields(rec: Record)
  {
    ImageWidth in rec && MicronBar in rec && MicronBarPx in rec
  }

  /**
   * The divisors of the derivation are not zero: the declared width and the
   * bar length in pixels. Zero gives IEEE infinities in the plugin, which this
   * model does not represent.
   */
  predicate NonzeroDivisors(rec: Record)
  {
    HasCalibrationFields(rec) && rec[ImageWidth].Num? && rec[MicronBarPx].Num? ==>
      rec[ImageWidth].x != 0.0 && rec[MicronBarPx].x != 0.0
  }

  /**
   * The derivation: when the declared width, the bar length and the bar length
   * in pixels are all present, store the size-scale factor and set a square
   * pixel of the bar's length over its corrected pixel count; when any is
   * missing, the `NullPointerException` is caught and nothing changes.
   */
  function Derive(rec: Record, measuredWidth: real, current: Calibration): (out: JsmState)
    requires measuredWidth > 0.0
    requires Consistent(rec) && NonzeroDivisors(rec)
    ensures !HasCalibrationFields(rec) ==> out == JsmState(rec, current)
    ensures HasCalibrationFields(rec) ==>
      && ScalingFactor in out.record && out.record[ScalingFactor].Num?
      && var factor := out.record[ScalingFactor].x;
      && factor * rec[ImageWidth].x == measuredWidth
      && out.record == rec[ScalingFactor := Num(factor)]
      && out.calibration.Scaled? && IsIsotropic(out.calibration)
      && out.calibration.unit == rec[MicronBarUnit].s
      && out.calibration.pixelWidth * (rec[MicronBarPx].x * factor) == rec[MicronBar].x
  {
    if !HasCalibrationFields(rec) then JsmState(rec, current)
    else
      var factor := measuredWidth / rec[ImageWidth].x;
      var pixelSize := rec[MicronBar].x / (rec[MicronBarPx].x * factor);
      JsmState(rec[ScalingFactor := Num(factor)], SquarePixels(rec[MicronBarUnit].s, pixelSize))
  }

  /** The sidecar, if it parses, yields nonzero divisors. */
  predicate SidecarDivisorsNonzero(sidecar: Option<string>)
  {
    sidecar.Some? && ParseLines(SplitLines(sidecar.value)).Success? ==>
      NonzeroDivisors(ParseLines(SplitLines(sidecar.value)).value)
  }

  /**
   * `getCalibration` after the image is open: `sidecar` is the text of the
   * `.txt` file, or `None` when reading it failed; `measuredWidth` is the
   * loaded image's width; `current` is the calibration the image already has.
   * An unreadable sidecar resets the calibration to ImageJ's default and is
   * then parsed as empty text.
   */
  function GetCalibration(sidecar: Option<string>, measuredWidth: real, current: Calibration)
    : (r: Result<JsmState, ParseError>)
    requires measuredWidth > 0.0
    requires SidecarDivisorsNonzero(sidecar)
    ensures sidecar.None? ==> r == Success(JsmState(map[], Default))
    ensures sidecar.Some? ==> (r.Success? <==> ParseLines(SplitLines(sidecar.value)).Success?)
    ensures sidecar.Some? && r.Failure? ==> r.error == ParseLines(SplitLines(sidecar.value)).error
    ensures r.Success? && IsIsotropic(current) ==> IsIsotropic(r.value.calibration)
    ensures sidecar.Some? && r.Success? ==>
      && ParseLines(SplitLines(sidecar.value)).Success?
      && var rec := ParseLines(SplitLines(sidecar.value)).value;
      && Consistent(rec) && NonzeroDivisors(rec)
      && r.value == Derive(rec, measuredWidth, current)
  {
    var text := if sidecar.Some? then sidecar.value else "";
    var start := if sidecar.Some? then current else Default;
    assert sidecar.None? ==> SplitLines(text) == [""];
    match ParseLines(SplitLines(text))
    case Failure(e) => Failure(e)
    case Success(rec) =>
      ParseLinesConsistent(SplitLines(text));
      Success(Derive(rec, measuredWidth, start))
  }

  /** The worked example: declared 1024, measured 512, bar 10 µm over 100 px. */
  lemma DeriveExample()
    ensures var rec := map[ImageWidth := Num(1024.0), ImageHeight := Num(768.0),
                           MicronBar := Num(10.0), MicronBarUnit := Str("um"),
                           MicronBarPx := Num(100.0)];
      Derive(rec, 512.0, Default)
        == JsmState(rec[ScalingFactor := Num(0.5)], Scaled("um", 0.2, 0.2))
  {
  }

  // ---------------------------------------------------------------------------
  // File naming
  // ---------------------------------------------------------------------------

  datatype SidecarNames = SidecarNames(baseName: string, extension: string, txtFileName: string)

  /** `s.lastIndexOf(c)`: the last position of `c`, or -1. */
  function LastIndexOf(s: string, c: char): (k: int)
    ensures -1 <= k < |s|
    ensures k >= 0 ==> s[k] == c
    ensures forall j :: k < j < |s| ==> s[j] != c
    decreases |s|
  {
    if |s| == 0 then -1
    else if s[|s| - 1] == c then |s| - 1
    else LastIndexOf(s[..|s| - 1], c)
  }

  /**
   * The naming step of `exec`: everything before the last point, everything
   * after it, and the sidecar name. Without a point `substring(0, -1)` throws,
   * which is `None` here.
   */
  function NamesFor(fileName: string): (r: Option<SidecarNames>)
    ensures r.None? <==> '.' !in fileName
    ensures r.Some? ==> r.value.baseName + "." + r.value.extension == fileName
    ensures r.Some? ==> '.' !in r.value.extension
    ensures r.Some? ==> r.value.txtFileName == r.value.baseName + ".txt"
  {
    var dot := LastIndexOf(fileName, '.');
    if dot < 0 then None
    else
      var base, ext := fileName[..dot], fileName[dot + 1..];
      assert base + "." + ext == fileName;
      assert forall j :: 0 <= j < |ext| ==> ext[j] == fileName[dot + 1 + j];
      Some(SidecarNames(base, ext, base + ".txt"))
  }

  /** A point followed only by point-free text is the extension point. */
  lemma PointSplit(fileName: string, base: string, ext: string)
    requires fileName == base + "." + ext && '.' !in ext
    ensures forall j :: |base| < j < |fileName| ==> fileName[j] != '.'
  {
    assert forall j :: |base| < j < |fileName| ==> fileName[j] == ext[j - |base| - 1];
  }

  /** Round trip: a base name and a point-free extension are recovered from their join. */
  lemma NamesForJoin(base: string, ext: string)
    requires '.' !in ext
    ensures NamesFor(base + "." + ext) == Some(SidecarNames(base, ext, base + ".txt"))
  {
    var fileName := base + "." + ext;
    assert fileName[|base|] == '.';
    var n := NamesFor(fileName).value;
    PointSplit(fileName, base, ext);
    PointSplit(fileName, n.baseName, n.extension);
    assert |n.baseName| == |base|;
    assert n.baseName == fileName[..|base|] == base;
    assert n.extension == fileName[|base| + 1..] == ext;
  }
}
