/**
 * The command-line settings of a run (Driver.java): the run length and the
 * print interval, each given in hours or in seconds with defaults for
 * neither; the list of species to print, where `all` stands for every
 * species; the name of the preprocessed model file and the recognition of
 * `include` lines; and the command that starts Python, read from a file.
 */
module Driver {
  import opened Wrappers
  import opened Text
  import opened Logging
  import opened Collections

  /** `numHours * 60 * 60` in Java `int` arithmetic: each product wraps. */
  function HoursToSeconds(hours: int): int {
    ToInt(ToInt(hours * 60) * 60)
  }

  /** Adding a multiple of 2^32 does not change the wrapped `int`. */
  lemma ToIntShift(x: int, k: int)
    ensures ToInt(x + k * 0x1_0000_0000) == ToInt(x)
  {
    var a := x - IntMin;
    var b := a + k * 0x1_0000_0000;
    assert a == 0x1_0000_0000 * (a / 0x1_0000_0000) + a % 0x1_0000_0000;
    assert b == 0x1_0000_0000 * (b / 0x1_0000_0000) + b % 0x1_0000_0000;
    var d := b / 0x1_0000_0000 - a / 0x1_0000_0000 - k;
    assert 0x1_0000_0000 * d == a % 0x1_0000_0000 - b % 0x1_0000_0000;
    assert d == 0;
  }

  /** The two wrapping products are one product by 3600, wrapped; without overflow, just the product. */
  lemma HoursToSecondsIsProduct(hours: int)
    ensures HoursToSeconds(hours) == ToInt(hours * 3600)
    ensures -596523 <= hours <= 596523 ==> HoursToSeconds(hours) == hours * 3600
  {
    var x := hours * 60;
    var q := (x - IntMin) / 0x1_0000_0000;
    assert x - IntMin == 0x1_0000_0000 * q + (x - IntMin) % 0x1_0000_0000;
    assert ToInt(x) == x + (-q) * 0x1_0000_0000;
    assert ToInt(x) * 60 == hours * 3600 + (-60 * q) * 0x1_0000_0000;
    ToIntShift(hours * 3600, -60 * q);
  }

  /** From 596524 hours on, the seconds overflow and come out negative. */
  lemma HoursOverflow()
    ensures HoursToSeconds(596524) == -2147480896
  {
    HoursToSecondsIsProduct(596524);
  }

  /** The run-length and print-interval settings (`null` when not given). */
  datatype Timing = Timing(numHours: Option<int>, numSeconds: Option<int>,
                           hoursBeforePrint: Option<int>, secondsBeforePrint: Option<int>,
                           runHours: bool, printHours: bool)

  /**
   * `tidyInputParameters`: the run length in seconds, from hours when only
   * hours are given and 30 hours when neither is (`runHours` says hours
   * were used); then the print interval likewise, with 1 hour as default
   * when the length was in hours and 5 seconds otherwise. Giving both forms
   * of either setting is an error that ends the tidying there.
   */
  function Tidy(t: Timing): Timing {
    var t1 := t.(runHours := false);
    if t1.numHours.Some? && t1.numSeconds.Some? then t1
    else
      var t2 :=
        if t1.numHours.None? && t1.numSeconds.None? then
          t1.(numHours := Some(30), numSeconds := Some(HoursToSeconds(30)), runHours := true)
        else if t1.numSeconds.None? then t1.(numSeconds := Some(HoursToSeconds(t1.numHours.value)), runHours := true)
        else t1;
      var t3 := t2.(printHours := false);
      if t3.hoursBeforePrint.Some? && t3.secondsBeforePrint.Some? then t3
      else if t3.hoursBeforePrint.None? && t3.secondsBeforePrint.None? then
        if t3.runHours then t3.(hoursBeforePrint := Some(1), secondsBeforePrint := Some(HoursToSeconds(1)), printHours := true)
        else t3.(secondsBeforePrint := Some(5))
      else if t3.secondsBeforePrint.None? then
        t3.(secondsBeforePrint := Some(HoursToSeconds(t3.hoursBeforePrint.value)), printHours := true)
      else t3
  }

  /** Neither run length given: 30 hours, that is 108000 seconds, counted in hours. */
  lemma DefaultRunLength(t: Timing)
    requires t.numHours.None? && t.numSeconds.None?
    ensures Tidy(t).numHours == Some(30) && Tidy(t).numSeconds == Some(108000) && Tidy(t).runHours
  {
    HoursToSecondsIsProduct(30);
  }

  /** Only hours given: the seconds are the hours times 3600, in `int` arithmetic. */
  lemma RunLengthFromHours(t: Timing)
    requires t.numHours.Some? && t.numSeconds.None?
    ensures Tidy(t).numHours == t.numHours && Tidy(t).runHours
    ensures Tidy(t).numSeconds == Some(ToInt(t.numHours.value * 3600))
  {
    HoursToSecondsIsProduct(t.numHours.value);
  }

  /** Only seconds given: they are kept, and the length is not counted in hours. */
  lemma RunLengthFromSeconds(t: Timing)
    requires t.numHours.None? && t.numSeconds.Some?
    ensures Tidy(t).numHours.None? && Tidy(t).numSeconds == t.numSeconds && !Tidy(t).runHours
  {
  }

  /** Both run lengths given: nothing is tidied, not even the print interval. */
  lemma BothRunLengths(t: Timing)
    requires t.numHours.Some? && t.numSeconds.Some?
    ensures Tidy(t) == t.(runHours := false)
  {
  }

  /** Neither print interval given: 1 hour (3600 seconds) when the run length is in hours, otherwise 5 seconds. */
  lemma DefaultPrintInterval(t: Timing)
    requires !(t.numHours.Some? && t.numSeconds.Some?)
    requires t.hoursBeforePrint.None? && t.secondsBeforePrint.None?
    ensures Tidy(t).runHours ==>
              Tidy(t).hoursBeforePrint == Some(1) && Tidy(t).secondsBeforePrint == Some(3600) && Tidy(t).printHours
    ensures !Tidy(t).runHours ==>
              Tidy(t).hoursBeforePrint.None? && Tidy(t).secondsBeforePrint == Some(5) && !Tidy(t).printHours
  {
    HoursToSecondsIsProduct(1);
  }

  /** Only print hours given: the print interval is the hours times 3600, and in hours. */
  lemma PrintIntervalFromHours(t: Timing)
    requires !(t.numHours.Some? && t.numSeconds.Some?)
    requires t.hoursBeforePrint.Some? && t.secondsBeforePrint.None?
    ensures Tidy(t).secondsBeforePrint == Some(ToInt(t.hoursBeforePrint.value * 3600)) && Tidy(t).printHours
  {
    HoursToSecondsIsProduct(t.hoursBeforePrint.value);
  }

  /** Both print intervals given: they are kept as they are and not counted in hours. */
  lemma BothPrintIntervals(t: Timing)
    requires !(t.numHours.Some? && t.numSeconds.Some?)
    requires t.hoursBeforePrint.Some? && t.secondsBeforePrint.Some?
    ensures Tidy(t).hoursBeforePrint == t.hoursBeforePrint && Tidy(t).secondsBeforePrint == t.secondsBeforePrint
    ensures !Tidy(t).printHours
  {
  }

  /**
   * Without a conflict, tidying settles both settings: the run length and the
   * print interval are known in seconds, hours are used exactly when no
   * seconds were given, and a second tidying changes nothing but the flags.
   */
  lemma TidySettles(t: Timing)
    requires !(t.numHours.Some? && t.numSeconds.Some?)
    requires !(t.hoursBeforePrint.Some? && t.secondsBeforePrint.Some?)
    ensures Tidy(t).numSeconds.Some? && Tidy(t).secondsBeforePrint.Some?
    ensures Tidy(t).runHours <==> t.numSeconds.None?
    ensures Tidy(t).printHours <==> t.secondsBeforePrint.None? && (t.hoursBeforePrint.Some? || Tidy(t).runHours)
  {
  }

  /** `-p all`, in any case, as the only name to print. */
  predicate PrintsAll(names: seq<string>) {
    |names| == 1 && ToLower(names[0]) == "all"
  }

  /** Only a list of exactly one `all`, in any mixture of cases, means every species. */
  lemma PrintsAllSpellings()
    ensures PrintsAll(["all"]) && PrintsAll(["ALL"]) && PrintsAll(["aLl"])
    ensures !PrintsAll(["all", "LD"]) && !PrintsAll(["al"]) && !PrintsAll([])
  {
    assert ToLower("ALL") == "all";
    assert ToLower("aLl") == "all";
    assert ToLower("al") == "al";
  }

  /** The file name of the preprocessed model: `x.mdsl` becomes `x.preprocessed.mdsl`, anything else `preprocessed.mdsl`. */
  function PreprocessedName(fileName: string): (r: string)
    ensures EndsWith(r, "preprocessed.mdsl")
  {
    if EndsWith(fileName, ".mdsl") then fileName[..|fileName| - 5] + ".preprocessed.mdsl"
    else "preprocessed.mdsl"
  }

  /** The stem of an `.mdsl` file name is kept. */
  lemma PreprocessedNameOfModel(stem: string)
    ensures PreprocessedName(stem + ".mdsl") == stem + ".preprocessed.mdsl"
  {
    var f := stem + ".mdsl";
    assert f[|f| - 5..] == ".mdsl";
    assert f[..|f| - 5] == stem;
  }

  /** Any other name gives the same fixed name. */
  lemma PreprocessedNameOfOther(fileName: string)
    requires !EndsWith(fileName, ".mdsl")
    ensures PreprocessedName(fileName) == "preprocessed.mdsl"
  {
  }

  /** A line is an `include` directive when, trimmed and lower-cased, it starts with `include`. */
  predicate IsInclude(line: string) {
    StartsWith(ToLower(Trim(line)), "include")
  }

  /** The file an `include` line names: the trimmed text after the seven letters of the keyword. */
  function IncludeTarget(line: string): string
    requires IsInclude(line)
  {
    Trim(Trim(line)[7..])
  }

  /** No blanks at either end. */
  predicate Trimmed(s: string) {
    s != [] && !IsTrimmable(s[0]) && !IsTrimmable(s[|s| - 1])
  }

  /** Blanks before a string without blanks at its ends are trimmed away, and nothing else is. */
  lemma {:induction false} TrimBlanks(blanks: string, s: string)
    requires forall i :: 0 <= i < |blanks| ==> IsTrimmable(blanks[i])
    requires Trimmed(s)
    ensures Trim(blanks + s) == s
    decreases |blanks|
  {
    if blanks != [] {
      assert (blanks + s)[1..] == blanks[1..] + s;
      TrimBlanks(blanks[1..], s);
    } else {
      assert blanks + s == s;
    }
  }

  /** A keyword that lower-cases to `include` starts a text that lower-cases to something starting with `include`. */
  lemma {:induction false} KeywordStarts(keyword: string, rest: string)
    requires |keyword| == 7 && ToLower(keyword) == "include"
    ensures StartsWith(ToLower(keyword + rest), "include")
    ensures !IsTrimmable(keyword[0])
  {
    var body := keyword + rest;
    assert LowerChar(keyword[0]) == ToLower(keyword)[0];
    forall i | 0 <= i < 7
      ensures ToLower(body)[i] == "include"[i]
    {
      assert body[i] == keyword[i];
      assert ToLower(keyword)[i] == LowerChar(keyword[i]);
    }
    assert ToLower(body)[..7] == "include";
  }

  /** The keyword, blanks and a name form an `include` of that name once blanks are put before them. */
  lemma {:induction false} IncludeBody(lead: string, body: string, rest: string, name: string)
    requires forall i :: 0 <= i < |lead| ==> IsTrimmable(lead[i])
    requires Trimmed(body) && |body| >= 7 && body[7..] == rest
    requires StartsWith(ToLower(body), "include")
    requires Trim(rest) == name
    ensures IsInclude(lead + body)
    ensures IncludeTarget(lead + body) == name
  {
    TrimBlanks(lead, body);
  }

  /**
   * A line of leading blanks, the keyword in any case, blanks and a name
   * without blanks at its ends is an `include` of that name.
   */
  lemma {:induction false} IncludeLine(lead: string, keyword: string, gap: string, name: string)
    requires forall i :: 0 <= i < |lead| ==> IsTrimmable(lead[i])
    requires forall i :: 0 <= i < |gap| ==> IsTrimmable(gap[i])
    requires |keyword| == 7 && ToLower(keyword) == "include"
    requires Trimmed(name)
    ensures IsInclude(lead + (keyword + (gap + name)))
    ensures IncludeTarget(lead + (keyword + (gap + name))) == name
  {
    var rest := gap + name;
    KeywordThenName(keyword, rest, name);
    KeywordStarts(keyword, rest);
    DropKeyword(keyword, rest);
    TrimBlanks(gap, name);
    IncludeBody(lead, keyword + rest, rest, name);
  }

  /** The keyword, then text ending like a name: nothing trimmable at either end. */
  lemma {:induction false} KeywordThenName(keyword: string, rest: string, name: string)
    requires |keyword| == 7 && ToLower(keyword) == "include"
    requires Trimmed(name) && |rest| >= |name| && rest[|rest| - 1] == name[|name| - 1]
    ensures Trimmed(keyword + rest) && |keyword + rest| >= 7
  {
    KeywordStarts(keyword, rest);
    var body := keyword + rest;
    assert body[0] == keyword[0];
    assert body[|body| - 1] == rest[|rest| - 1];
  }

  /** The text after the keyword's seven letters. */
  lemma DropKeyword(keyword: string, rest: string)
    requires |keyword| == 7
    ensures (keyword + rest)[7..] == rest
  {
  }

  /** A line too short for the keyword, once trimmed, is copied, not included. */
  lemma NotIncludeLine(line: string)
    requires |Trim(line)| < 7
    ensures !IsInclude(line)
  {
  }

  /** The whitespace characters of the regular expression `\s`. */
  predicate IsSpace(c: char) {
    c == ' ' || c == '\t' || c == '\n' || c == '\U{000B}' || c == '\U{000C}' || c == '\r'
  }

  predicate NoSpace(s: string) {
    forall k :: 0 <= k < |s| ==> !IsSpace(s[k])
  }

  /** The pieces of a line between single whitespace characters (`split("\\s")`, empty pieces included). */
  function SpacePieces(s: string): (r: seq<string>)
    ensures |r| >= 1
    ensures forall i :: 0 <= i < |r| ==> NoSpace(r[i])
  {
    if s == [] then [""]
    else
      var rest := SpacePieces(s[1..]);
      if IsSpace(s[0]) then [""] + rest else [[s[0]] + rest[0]] + rest[1..]
  }

  /** The pieces, trimmed, without the empty ones. */
  function Kept(parts: seq<string>): (r: seq<string>)
    ensures forall i :: 0 <= i < |r| ==> r[i] != ""
  {
    if parts == [] then []
    else Kept(parts[..|parts| - 1]) + (if Trim(parts[|parts| - 1]) != "" then [Trim(parts[|parts| - 1])] else [])
  }

  /** The command words of one line. */
  function LineWords(line: string): seq<string> {
    Kept(SpacePieces(line))
  }

  /** The command words of the whole file, line after line. */
  function Words(lines: seq<string>): seq<string> {
    if lines == [] then [] else Words(lines[..|lines| - 1]) + LineWords(lines[|lines| - 1])
  }

  /** A word of a command: not empty, no whitespace in it and nothing trimmable at its ends. */
  predicate IsWord(w: string) {
    Trimmed(w) && NoSpace(w)
  }

  /** Words separated by single spaces. */
  function Spaced(words: seq<string>): string {
    if words == [] then "" else if |words| == 1 then words[0] else words[0] + " " + Spaced(words[1..])
  }

  /** A word has no whitespace, so it is one piece. */
  lemma {:induction false} WordPieces(w: string, rest: string)
    requires NoSpace(w)
    ensures SpacePieces(w + rest)[0] == w + SpacePieces(rest)[0]
    ensures SpacePieces(w + rest)[1..] == SpacePieces(rest)[1..]
    decreases |w|
  {
    if w != [] {
      assert (w + rest)[1..] == w[1..] + rest;
      assert !IsSpace(w[0]);
      WordPieces(w[1..], rest);
      assert [w[0]] + (w[1..] + SpacePieces(rest)[0]) == w + SpacePieces(rest)[0];
    } else {
      assert w + rest == rest;
    }
  }

  /** The pieces of words joined by spaces are the words. */
  lemma {:induction false} SpacedPieces(words: seq<string>)
    requires words != [] && forall i :: 0 <= i < |words| ==> IsWord(words[i])
    ensures SpacePieces(Spaced(words)) == words
  {
    var w := words[0];
    assert IsWord(w);
    if |words| == 1 {
      WordPieces(w, "");
      assert w + "" == w;
      var sp := SpacePieces(w);
      assert sp == [sp[0]] + sp[1..];
    } else {
      var rest := Spaced(words[1..]);
      SpacedPieces(words[1..]);
      assert Spaced(words) == w + (" " + rest);
      WordPieces(w, " " + rest);
      assert (" " + rest)[1..] == rest;
      assert SpacePieces(" " + rest) == [""] + SpacePieces(rest);
      var sp := SpacePieces(Spaced(words));
      assert sp[0] == w;
      assert sp[1..] == words[1..];
      assert sp == [sp[0]] + sp[1..];
      assert words == [w] + words[1..];
    }
  }

  /** Trimming a text without blanks at its ends changes nothing. */
  lemma TrimmedTrim(s: string)
    requires Trimmed(s)
    ensures Trim(s) == s
  {
    assert TrimLeft(s) == s;
  }

  /** Keeping the words of pieces that are all words keeps them all. */
  lemma {:induction false} KeptWords(words: seq<string>)
    requires forall i :: 0 <= i < |words| ==> IsWord(words[i])
    ensures Kept(words) == words
  {
    if words != [] {
      var front := words[..|words| - 1];
      var w := words[|words| - 1];
      forall i | 0 <= i < |front|
        ensures IsWord(front[i])
      {
        assert front[i] == words[i];
      }
      KeptWords(front);
      assert IsWord(w);
      TrimmedTrim(w);
      assert Trim(w) == w && w != "";
      assert Kept(words) == Kept(front) + [w];
      assert words == front + [w];
    }
  }

  /** A line of words separated by single spaces reads back as exactly those words. */
  lemma WordsRoundTrip(words: seq<string>)
    requires forall i :: 0 <= i < |words| ==> IsWord(words[i])
    ensures LineWords(Spaced(words)) == words
  {
    if words == [] {
      assert SpacePieces("") == [""];
      assert Kept([""]) == Kept([]) + [];
    } else {
      SpacedPieces(words);
      KeptWords(words);
    }
  }

  /** Trimming a piece without whitespace leaves a word, when anything is left. */
  lemma TrimWord(p: string)
    requires NoSpace(p) && Trim(p) != ""
    ensures IsWord(Trim(p))
  {
    var l := TrimLeft(p);
    var t := TrimRight(l);
    assert t == Trim(p);
    assert t[0] == l[0];
    forall k | 0 <= k < |t|
      ensures !IsSpace(t[k])
    {
      assert t[k] == l[k] == p[|p| - |l| + k];
    }
  }

  /** Every word of the command has no whitespace and no trimmable ends. */
  lemma {:induction false} KeptAreWords(parts: seq<string>)
    requires forall i :: 0 <= i < |parts| ==> NoSpace(parts[i])
    ensures forall i :: 0 <= i < |Kept(parts)| ==> IsWord(Kept(parts)[i])
  {
    if parts != [] {
      var front := parts[..|parts| - 1];
      KeptAreWords(front);
      var p := parts[|parts| - 1];
      assert NoSpace(p);
      if Trim(p) != "" {
        TrimWord(p);
      }
    }
  }

  /** All command words are words. */
  lemma {:induction false} WordsAreWords(lines: seq<string>)
    ensures forall i :: 0 <= i < |Words(lines)| ==> IsWord(Words(lines)[i])
  {
    if lines != [] {
      WordsAreWords(lines[..|lines| - 1]);
      KeptAreWords(SpacePieces(lines[|lines| - 1]));
    }
  }

  /** One more piece adds its trimmed text, when there is any. */
  lemma KeptStep(parts: seq<string>, j: nat)
    requires j < |parts|
    ensures Kept(parts[..j + 1]) == Kept(parts[..j]) + (if Trim(parts[j]) != "" then [Trim(parts[j])] else [])
  {
    assert parts[..j + 1][..j] == parts[..j];
  }

  /** Appending to a concatenation regroups. */
  lemma AppendAssoc(a: seq<string>, b: seq<string>, c: seq<string>)
    ensures (a + b) + c == a + (b + c)
  {
  }

  /** The inner loop of `readPythonCommand`: the words of one line, appended. */
  method AppendWords(command: seq<string>, line: string) returns (extended: seq<string>)
    ensures extended == command + LineWords(line)
  {
    var parts := SpacePieces(line);
    extended := command;
    var j := 0;
    while j < |parts|
      invariant 0 <= j <= |parts|
      invariant extended == command + Kept(parts[..j])
    {
      var part := Trim(parts[j]);
      var piece: seq<string> := if part != "" then [part] else [];
      KeptStep(parts, j);
      AppendAssoc(command, Kept(parts[..j]), piece);
      extended := extended + piece;
      j := j + 1;
    }
    assert parts[..j] == parts;
  }

  /** One more line adds its words. */
  lemma WordsStep(lines: seq<string>, i: nat)
    requires i < |lines|
    ensures Words(lines[..i + 1]) == Words(lines[..i]) + LineWords(lines[i])
  {
    assert lines[..i + 1][..i] == lines[..i];
  }

  /** `readPythonCommand`: the words of the file, or `python` alone when it cannot be read. */
  method PythonCommand(contents: Option<seq<string>>) returns (command: seq<string>)
    ensures contents.None? ==> command == ["python"]
    ensures contents.Some? ==> command == Words(contents.value)
    ensures forall i :: 0 <= i < |command| ==> IsWord(command[i])
  {
    if contents.None? {
      return ["python"];
    }
    var lines := contents.value;
    command := [];
    var i := 0;
    while i < |lines|
      invariant 0 <= i <= |lines|
      invariant command == Words(lines[..i])
    {
      command := AppendWords(command, lines[i]);
      WordsStep(lines, i);
      i := i + 1;
    }
    assert lines[..i] == lines;
    WordsAreWords(lines);
  }

  /** The settings of one run, with the defaults of the command-line options. */
  class Driver {
    var numHours: Option<int>
    var numSeconds: Option<int>
    var hoursBeforePrint: Option<int>
    var secondsBeforePrint: Option<int>
    var namesToPrint: seq<string>
    var logLevel: LogType
    var logsDirectoryName: string
    var runAnalysis: bool
    var runHours: bool
    var printHours: bool

    /** The settings as one value. */
    function Settings(): Timing
      reads this
    {
      Timing(numHours, numSeconds, hoursBeforePrint, secondsBeforePrint, runHours, printHours)
    }

    /** No lengths given, the three default species printed, logging at the printed species into `logs`. */
    constructor ()
      ensures Settings() == Timing(None, None, None, None, false, false)
      ensures namesToPrint == ["LD", "INFg", "IL10"] && logLevel == PrintedSpecies
      ensures logsDirectoryName == "logs" && !runAnalysis
    {
      numHours, numSeconds, hoursBeforePrint, secondsBeforePrint := None, None, None, None;
      namesToPrint := ["LD", "INFg", "IL10"];
      logLevel := PrintedSpecies;
      logsDirectoryName := "logs";
      runAnalysis, runHours, printHours := false, false, false;
    }

    /** `tidyInputParameters`, as `Tidy` describes. */
    method TidyInputParameters()
      modifies this
      ensures Settings() == Tidy(old(Settings()))
      ensures namesToPrint == old(namesToPrint) && logLevel == old(logLevel)
      ensures logsDirectoryName == old(logsDirectoryName) && runAnalysis == old(runAnalysis)
    {
      runHours := false;
      if numHours.Some? && numSeconds.Some? {
        return;
      }
      if numHours.None? && numSeconds.None? {
        numHours := Some(30);
        numSeconds := Some(HoursToSeconds(numHours.value));
        runHours := true;
      } else if numSeconds.None? {
        numSeconds := Some(HoursToSeconds(numHours.value));
        runHours := true;
      }
      printHours := false;
      if hoursBeforePrint.Some? && secondsBeforePrint.Some? {
        return;
      }
      if hoursBeforePrint.None? && secondsBeforePrint.None? {
        if runHours {
          hoursBeforePrint := Some(1);
          secondsBeforePrint := Some(HoursToSeconds(hoursBeforePrint.value));
          printHours := true;
        } else {
          secondsBeforePrint := Some(5);
        }
      } else if secondsBeforePrint.None? {
        secondsBeforePrint := Some(HoursToSeconds(hoursBeforePrint.value));
        printHours := true;
      }
    }

    /**
     * `tidySimulationParameters`: a print list of just `all` becomes every
     * species of the model, in the order its set hands them out.
     */
    method TidySimulationParameters(speciesNames: set<string>)
      modifies this
      ensures PrintsAll(old(namesToPrint)) ==>
        |namesToPrint| == |speciesNames| && (forall s :: s in namesToPrint <==> s in speciesNames) &&
        forall i, j :: 0 <= i < j < |namesToPrint| ==> namesToPrint[i] != namesToPrint[j]
      ensures !PrintsAll(old(namesToPrint)) ==> namesToPrint == old(namesToPrint)
      ensures Settings() == old(Settings())
      ensures logLevel == old(logLevel) && logsDirectoryName == old(logsDirectoryName) && runAnalysis == old(runAnalysis)
    {
      if PrintsAll(namesToPrint) {
        namesToPrint := Enumerate(speciesNames);
      }
    }
  }
}
