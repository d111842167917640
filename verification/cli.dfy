/**
 * The console application's argument parser: "-f" names the file of phone
 * numbers and "-d" the dictionary file. The value of an indicator is the
 * argument right after its first occurrence that is not the last argument;
 * a blank value, or no such occurrence, is an `ArgumentMissingException`.
 */
module CommandLine {
  import opened Wrappers
  import opened JavaLang

  const InputFileIndicator: string := "-f"
  const DictionaryFileIndicator: string := "-d"

  /** `ArgumentMissingException`, carrying the indicator its message names. */
  datatype ParseError = ArgumentMissing(indicator: string)

  datatype CommandLineInfo = CommandLineInfo(inputFileName: string, dictionaryFileName: string)

  /** What the scan from index `i` on returns or throws. */
  function ExtractFrom(args: seq<string>, indicator: string, i: nat): Result<string, ParseError>
    decreases |args| - i
  {
    if i >= |args| then Failure(ArgumentMissing(indicator))
    else if args[i] == indicator && i < |args| - 1 then
      if IsBlank(args[i + 1]) then Failure(ArgumentMissing(indicator)) else Success(args[i + 1])
    else ExtractFrom(args, indicator, i + 1)
  }

  function Extract(args: seq<string>, indicator: string): Result<string, ParseError>
  {
    ExtractFrom(args, indicator, 0)
  }

  /** `extractParameter`: the indexed scan with its early return and its two throws. */
  method ExtractParameter(commandLineArgs: seq<string>, indicator: string) returns (r: Result<string, ParseError>)
    ensures r == Extract(commandLineArgs, indicator)
  {
    var length := |commandLineArgs|;
    var i := 0;
    while i < length
      invariant 0 <= i <= length
      invariant ExtractFrom(commandLineArgs, indicator, i) == Extract(commandLineArgs, indicator)
    {
      var arg := commandLineArgs[i];
      if arg == indicator {
        if i < length - 1 {
          var inputFileName := commandLineArgs[i + 1];
          if IsBlank(inputFileName) {
            return Failure(ArgumentMissing(indicator));
          }
          return Success(inputFileName);
        }
      }
      i := i + 1;
    }
    return Failure(ArgumentMissing(indicator));
  }

  method ExtractInputFileName(commandLineArgs: seq<string>) returns (r: Result<string, ParseError>)
    ensures r == Extract(commandLineArgs, "-f")
  {
    r := ExtractParameter(commandLineArgs, InputFileIndicator);
  }

  method ExtractDictionaryFileName(commandLineArgs: seq<string>) returns (r: Result<string, ParseError>)
    ensures r == Extract(commandLineArgs, "-d")
  {
    r := ExtractParameter(commandLineArgs, DictionaryFileIndicator);
  }

  /** `parse` on values: the input file first, so its error wins, then the dictionary file. */
  function ParseSpec(args: seq<string>): Result<CommandLineInfo, ParseError>
  {
    match Extract(args, InputFileIndicator)
    case Failure(e) => Failure(e)
    case Success(input) =>
      match Extract(args, DictionaryFileIndicator)
      case Failure(e) => Failure(e)
      case Success(dictionary) => Success(CommandLineInfo(input, dictionary))
  }

  method Parse(commandLineArgs: seq<string>) returns (r: Result<CommandLineInfo, ParseError>)
    ensures r == ParseSpec(commandLineArgs)
  {
    var inputFileName := ExtractInputFileName(commandLineArgs);
    if inputFileName.Failure? {
      return Failure(inputFileName.error);
    }
    var dictionaryFileName := ExtractDictionaryFileName(commandLineArgs);
    if dictionaryFileName.Failure? {
      return Failure(dictionaryFileName.error);
    }
    r := Success(CommandLineInfo(inputFileName.value, dictionaryFileName.value));
  }

  // ---------------------------------------------------------------- properties

  /** `i` is the first occurrence of the indicator with an argument after it. */
  predicate FirstWithValue(args: seq<string>, indicator: string, i: int)
  {
    && 0 <= i < |args| - 1 && args[i] == indicator
    && forall j :: 0 <= j < i ==> args[j] != indicator
  }

  lemma {:induction false} ExtractFromFirst(args: seq<string>, indicator: string, i: nat, first: nat)
    requires i <= first && FirstWithValue(args, indicator, first)
    ensures ExtractFrom(args, indicator, i) ==
      if IsBlank(args[first + 1]) then Failure(ArgumentMissing(indicator)) else Success(args[first + 1])
    decreases first - i
  {
    if i < first {
      ExtractFromFirst(args, indicator, i + 1, first);
    }
  }

  lemma {:induction false} ExtractFromNone(args: seq<string>, indicator: string, i: nat)
    requires forall j :: i <= j < |args| - 1 ==> args[j] != indicator
    ensures ExtractFrom(args, indicator, i) == Failure(ArgumentMissing(indicator))
    decreases |args| - i
  {
    if i < |args| {
      ExtractFromNone(args, indicator, i + 1);
    }
  }

  /**
   * The value is the argument after the first occurrence of the indicator
   * that is not the last argument, unless it is blank.
   */
  lemma ExtractFirst(args: seq<string>, indicator: string, first: nat)
    requires FirstWithValue(args, indicator, first)
    ensures !IsBlank(args[first + 1]) ==> Extract(args, indicator) == Success(args[first + 1])
    ensures IsBlank(args[first + 1]) ==> Extract(args, indicator) == Failure(ArgumentMissing(indicator))
  {
    ExtractFromFirst(args, indicator, 0, first);
  }

  /** With no occurrence of the indicator before the last argument (none at all, only last, or no arguments) the argument is missing. */
  lemma ExtractMissing(args: seq<string>, indicator: string)
    requires forall j :: 0 <= j < |args| - 1 ==> args[j] != indicator
    ensures Extract(args, indicator) == Failure(ArgumentMissing(indicator))
  {
    ExtractFromNone(args, indicator, 0);
  }

  lemma {:induction false} ExtractFromSound(args: seq<string>, indicator: string, i: nat)
    requires ExtractFrom(args, indicator, i).Success?
    ensures exists k :: i <= k < |args| - 1 && args[k] == indicator && args[k + 1] == ExtractFrom(args, indicator, i).value
    ensures !IsBlank(ExtractFrom(args, indicator, i).value)
    decreases |args| - i
  {
    if !(args[i] == indicator && i < |args| - 1) {
      ExtractFromSound(args, indicator, i + 1);
    }
  }

  /** A value returned follows an occurrence of the indicator and is never blank. */
  lemma ExtractSound(args: seq<string>, indicator: string)
    requires Extract(args, indicator).Success?
    ensures exists k :: 0 <= k < |args| - 1 && args[k] == indicator && args[k + 1] == Extract(args, indicator).value
    ensures !IsBlank(Extract(args, indicator).value)
  {
    ExtractFromSound(args, indicator, 0);
  }

  /** "-f in.txt -d dict.txt" parses to both names; "-f" followed by a space is missing. */
  lemma ParseExamples(args: seq<string>)
    requires args == ["-f", "in.txt", "-d", "dict.txt"]
    ensures ParseSpec(args) == Success(CommandLineInfo("in.txt", "dict.txt"))
    ensures Extract(["-f", " "], "-f") == Failure(ArgumentMissing("-f"))
    ensures Extract(["-d", "dict.txt", "-f"], "-f") == Failure(ArgumentMissing("-f"))
  {
    assert FirstWithValue(args, "-f", 0);
    assert args[1][0] > ' ';
    ExtractFirst(args, "-f", 0);
    assert args[0] != "-d" && args[1] != "-d";
    assert FirstWithValue(args, "-d", 2);
    assert args[3][0] > ' ';
    ExtractFirst(args, "-d", 2);
    var blank := ["-f", " "];
    assert FirstWithValue(blank, "-f", 0);
    ExtractFirst(blank, "-f", 0);
    var last := ["-d", "dict.txt", "-f"];
    assert last[0] != "-f" && last[1] != "-f";
    ExtractMissing(last, "-f");
  }
}
