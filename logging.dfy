/**
 * The log registry (Logging.java): fourteen kinds of log, ordered from the
 * most to the least important. Setting a level enables that kind and every
 * more important one, each with its own output; asking for a kind that is
 * not enabled gives the logger that discards everything.
 */
module Logging {
  import opened Wrappers

  /** `LogType`, in declaration order. */
  datatype LogType =
    | Error | Warning | WarningFix | Progress | Parameters | Tags | FullStateAtEnd
    | PrintedSpecies | PrintedSpeciesPerMembrane | ReactionNumbers | PrintedPropensities
    | Detail | Debug | Full

  /** The position of a kind in the declaration (`ordinal`). */
  function Ordinal(t: LogType): (o: nat)
    ensures o <= 13
  {
    match t
    case Error => 0
    case Warning => 1
    case WarningFix => 2
    case Progress => 3
    case Parameters => 4
    case Tags => 5
    case FullStateAtEnd => 6
    case PrintedSpecies => 7
    case PrintedSpeciesPerMembrane => 8
    case ReactionNumbers => 9
    case PrintedPropensities => 10
    case Detail => 11
    case Debug => 12
    case Full => 13
  }

  /** The ordinal identifies the kind. */
  lemma OrdinalInjective(s: LogType, t: LogType)
    requires Ordinal(s) == Ordinal(t)
    ensures s == t
  {
  }

  /** The constant's name (`name()`), the key of the registry. */
  function Name(t: LogType): string {
    match t
    case Error => "ERROR"
    case Warning => "WARNING"
    case WarningFix => "WARNING_FIX"
    case Progress => "PROGRESS"
    case Parameters => "PARAMETERS"
    case Tags => "TAGS"
    case FullStateAtEnd => "FULL_STATE_AT_END"
    case PrintedSpecies => "PRINTED_SPECIES"
    case PrintedSpeciesPerMembrane => "PRINTED_SPECIES_PER_MEMBRANE"
    case ReactionNumbers => "REACTION_NUMBERS"
    case PrintedPropensities => "PRINTED_PROPENSITIES"
    case Detail => "DETAIL"
    case Debug => "DEBUG"
    case Full => "FULL"
  }

  /** The kind with a given name (`LogType.valueOf`), if any. */
  function FromName(k: string): (t: Option<LogType>)
    ensures t.Some? ==> Name(t.value) == k
  {
    if k == "ERROR" then Some(Error)
    else if k == "WARNING" then Some(Warning)
    else if k == "WARNING_FIX" then Some(WarningFix)
    else if k == "PROGRESS" then Some(Progress)
    else if k == "PARAMETERS" then Some(Parameters)
    else if k == "TAGS" then Some(Tags)
    else if k == "FULL_STATE_AT_END" then Some(FullStateAtEnd)
    else if k == "PRINTED_SPECIES" then Some(PrintedSpecies)
    else if k == "PRINTED_SPECIES_PER_MEMBRANE" then Some(PrintedSpeciesPerMembrane)
    else if k == "REACTION_NUMBERS" then Some(ReactionNumbers)
    else if k == "PRINTED_PROPENSITIES" then Some(PrintedPropensities)
    else if k == "DETAIL" then Some(Detail)
    else if k == "DEBUG" then Some(Debug)
    else if k == "FULL" then Some(Full)
    else None
  }

  /** Every kind is found again from its name, so no two kinds share a name. */
  lemma FromNameOfName(t: LogType)
    ensures FromName(Name(t)) == Some(t)
  {
    assert "DEBUG"[0] != "ERROR"[0] && "FULL"[0] != "TAGS"[0];
  }

  /** Where a log's lines also appear besides its file. */
  datatype Screen = FileOnly | StandardOut | StandardError

  /**
   * A logger: the name and extension of its file, the screen stream it also
   * writes to, whether lines get a timestamp and what follows the timestamp,
   * and the text put before each message.
   */
  datatype Sink = Sink(logName: string, extension: string, screen: Screen, timestamped: bool,
                       afterTimestamp: string, prefix: string)

  /** The logger `setLogLevel` installs for each kind. */
  function SinkFor(t: LogType): Sink {
    match t
    case Full => Sink("Full", "txt", FileOnly, true, "", "")
    case Debug => Sink("Debug", "txt", StandardOut, true, "", "")
    case Detail => Sink("Detail", "txt", StandardOut, true, "", "")
    case PrintedPropensities => Sink("Propensities", "csv", FileOnly, false, "", "")
    case ReactionNumbers => Sink("Reaction Numbers", "csv", FileOnly, false, "", "")
    case PrintedSpeciesPerMembrane => Sink("SpeciesPerMembrane", "csv", FileOnly, false, "", "")
    case PrintedSpecies => Sink("Species", "csv", StandardOut, true, ",", "")
    case FullStateAtEnd => Sink("FullState", "mdsl", StandardOut, false, "", "")
    case Tags => Sink("Tags", "txt", StandardOut, false, "", "")
    case Parameters => Sink("Parameters", "txt", StandardOut, false, "", "")
    case Progress => Sink("Progress", "txt", StandardOut, true, "", "")
    case WarningFix => Sink("FixWarnings", "mdsl", FileOnly, false, "", "")
    case Warning => Sink("Warnings", "txt", StandardError, true, "", "WARNING: ")
    case Error => Sink("Errors", "txt", StandardError, true, "", "ERROR: ")
  }

  /**
   * The registry holds exactly the kinds whose ordinals lie from lo to hi,
   * each with the logger `setLogLevel` installs for it.
   */
  ghost predicate Holds(enabled: map<LogType, Sink>, lo: nat, hi: nat) {
    forall t: LogType :: (t in enabled <==> lo <= Ordinal(t) <= hi) && (t in enabled ==> enabled[t] == SinkFor(t))
  }

  /** The registry `setLogLevel(level)` builds: a kind is enabled exactly when it comes no later than the level. */
  ghost predicate EnabledFor(enabled: map<LogType, Sink>, level: LogType) {
    Holds(enabled, 0, Ordinal(level))
  }

  /**
   * `getLogger(String)`: the enabled logger of the kind with that name, or
   * `None` for the logger that discards everything, also for a name that
   * is no kind's.
   */
  function Lookup(enabled: map<LogType, Sink>, name: string): (s: Option<Sink>)
    ensures s.Some? <==> FromName(name).Some? && FromName(name).value in enabled
  {
    match FromName(name)
    case None => None
    case Some(t) => if t in enabled then Some(enabled[t]) else None
  }

  /** After a level is set, a kind is loggable exactly when it is no less important than the level. */
  lemma LoggableIff(enabled: map<LogType, Sink>, level: LogType, t: LogType)
    requires EnabledFor(enabled, level)
    ensures Lookup(enabled, Name(t)).Some? <==> Ordinal(t) <= Ordinal(level)
    ensures Lookup(enabled, Name(t)).Some? ==> Lookup(enabled, Name(t)).value == SinkFor(t)
  {
    FromNameOfName(t);
  }

  /** Errors are logged at every level. */
  lemma ErrorAlwaysLogged(enabled: map<LogType, Sink>, level: LogType)
    requires EnabledFor(enabled, level)
    ensures Lookup(enabled, "ERROR") == Some(Sink("Errors", "txt", StandardError, true, "", "ERROR: "))
  {
    assert Error in enabled;
  }

  /** A lower level enables a subset of what a higher one does. */
  lemma LevelsNest(low: map<LogType, Sink>, lowLevel: LogType, high: map<LogType, Sink>, highLevel: LogType)
    requires EnabledFor(low, lowLevel) && EnabledFor(high, highLevel) && Ordinal(lowLevel) <= Ordinal(highLevel)
    ensures forall t :: t in low ==> t in high && low[t] == high[t]
  {
  }

  /** The registry for a level is unique: it depends on nothing that was enabled before. */
  lemma EnabledForUnique(a: map<LogType, Sink>, b: map<LogType, Sink>, level: LogType)
    requires EnabledFor(a, level) && EnabledFor(b, level)
    ensures a == b
  {
    LevelsNest(a, level, b, level);
    LevelsNest(b, level, a, level);
  }

  /** The default level enables exactly the eight kinds up to the printed species. */
  lemma DefaultLevel(enabled: map<LogType, Sink>)
    requires EnabledFor(enabled, PrintedSpecies)
    ensures enabled.Keys == {Error, Warning, WarningFix, Progress, Parameters, Tags, FullStateAtEnd, PrintedSpecies}
  {
    assert Error in enabled && Warning in enabled && WarningFix in enabled && Progress in enabled;
    assert Parameters in enabled && Tags in enabled && FullStateAtEnd in enabled && PrintedSpecies in enabled;
  }

  /** The kind declared at a position. */
  function KindAt(k: nat): (t: LogType)
    requires k <= 13
    ensures Ordinal(t) == k
  {
    if k == 0 then Error
    else if k == 1 then Warning
    else if k == 2 then WarningFix
    else if k == 3 then Progress
    else if k == 4 then Parameters
    else if k == 5 then Tags
    else if k == 6 then FullStateAtEnd
    else if k == 7 then PrintedSpecies
    else if k == 8 then PrintedSpeciesPerMembrane
    else if k == 9 then ReactionNumbers
    else if k == 10 then PrintedPropensities
    else if k == 11 then Detail
    else if k == 12 then Debug
    else Full
  }

  /** The registry once the fall-through has passed the cases from `FULL` down to position k, for a level at position n. */
  function Installed(k: nat, n: nat): map<LogType, Sink>
    decreases 14 - k
  {
    if k > 13 then map[]
    else if k <= n then Installed(k + 1, n)[KindAt(k) := SinkFor(KindAt(k))]
    else Installed(k + 1, n)
  }

  /** Those cases install exactly the kinds from position k up to the level. */
  lemma {:induction false} InstalledHolds(k: nat, n: nat)
    ensures Holds(Installed(k, n), k, n)
    decreases 14 - k
  {
    if k <= 13 {
      InstalledHolds(k + 1, n);
      var here := KindAt(k);
      forall t: LogType
        ensures t in Installed(k, n) <==> k <= Ordinal(t) <= n
        ensures t in Installed(k, n) ==> Installed(k, n)[t] == SinkFor(t)
      {
        if Ordinal(t) == k {
          OrdinalInjective(t, here);
        }
      }
    }
  }

  /** The static state of `Logging`: the enabled loggers by name. */
  class Logs {
    var enabled: map<LogType, Sink>

    /** The class initialiser: the level starts at the printed species. */
    constructor ()
      ensures EnabledFor(enabled, PrintedSpecies)
    {
      enabled := map[];
      new;
      SetLogLevel(PrintedSpecies);
    }

    /**
     * `setLogLevel`: the registry is emptied, then the switch on the level
     * falls through from that level down to `ERROR`, installing each kind's logger.
     */
    method SetLogLevel(level: LogType)
      modifies this
      ensures EnabledFor(enabled, level)
    {
      var n := Ordinal(level);
      enabled := map[];
      DetailCases(n);
      BasicCases(n);
      InstalledHolds(0, n);
    }

    /** The cases of the switch from `FULL` down to `PRINTED_SPECIES`, each reached when the level is that kind or a later one. */
    method DetailCases(n: nat)
      requires enabled == map[]
      modifies this
      ensures enabled == Installed(7, n)
    {
      var m := enabled;
      if n >= 13 { m := m[Full := SinkFor(Full)]; }
      assert m == Installed(13, n);
      if n >= 12 { m := m[Debug := SinkFor(Debug)]; }
      assert m == Installed(12, n);
      if n >= 11 { m := m[Detail := SinkFor(Detail)]; }
      assert m == Installed(11, n);
      if n >= 10 { m := m[PrintedPropensities := SinkFor(PrintedPropensities)]; }
      assert m == Installed(10, n);
      if n >= 9 { m := m[ReactionNumbers := SinkFor(ReactionNumbers)]; }
      assert m == Installed(9, n);
      if n >= 8 { m := m[PrintedSpeciesPerMembrane := SinkFor(PrintedSpeciesPerMembrane)]; }
      assert m == Installed(8, n);
      if n >= 7 { m := m[PrintedSpecies := SinkFor(PrintedSpecies)]; }
      assert m == Installed(7, n);
      enabled := m;
    }

    /** The remaining cases, from `FULL_STATE_AT_END` down to `ERROR`, which every level reaches. */
    method BasicCases(n: nat)
      requires enabled == Installed(7, n)
      modifies this
      ensures enabled == Installed(0, n)
    {
      var m := enabled;
      if n >= 6 { m := m[FullStateAtEnd := SinkFor(FullStateAtEnd)]; }
      assert m == Installed(6, n);
      if n >= 5 { m := m[Tags := SinkFor(Tags)]; }
      assert m == Installed(5, n);
      if n >= 4 { m := m[Parameters := SinkFor(Parameters)]; }
      assert m == Installed(4, n);
      if n >= 3 { m := m[Progress := SinkFor(Progress)]; }
      assert m == Installed(3, n);
      if n >= 2 { m := m[WarningFix := SinkFor(WarningFix)]; }
      assert m == Installed(2, n);
      if n >= 1 { m := m[Warning := SinkFor(Warning)]; }
      assert m == Installed(1, n);
      m := m[Error := SinkFor(Error)];
      assert m == Installed(0, n);
      enabled := m;
    }

    /** `getLogger(LogType)`: the lookup by the kind's name. */
    function GetLogger(t: LogType): Option<Sink>
      reads this
    {
      Lookup(enabled, Name(t))
    }

    /** `isLoggable`: the kind has an enabled logger. */
    predicate IsLoggable(t: LogType)
      reads this
    {
      t in enabled
    }
  }
}
