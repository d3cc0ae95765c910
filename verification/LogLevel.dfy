/** Log levels, their order and their names. */
module LogLevels {
  datatype Level = Unknow | Debug | Info | Warn | Error | Fatal {

    /** The numeric value that the filters compare. */
    function Rank(): nat {
      match this
      case Unknow => 0
      case Debug => 1
      case Info => 2
      case Warn => 3
      case Error => 4
      case Fatal => 5
    }

    function ToString(): string {
      match this
      case Debug => "DEBUG"
      case Info => "INFO"
      case Warn => "WARN"
      case Error => "ERROR"
      case Fatal => "FATAL"
      case Unknow => "UNKNOW"
    }

    static function FromString(s: string): Level {
      if s == "debug" then Debug
      else if s == "info" then Info
      else if s == "warn" then Warn
      else if s == "error" then Error
      else if s == "fatal" then Fatal
      else if s == "DEBUG" then Debug
      else if s == "INFO" then Info
      else if s == "WARN" then Warn
      else if s == "ERROR" then Error
      else if s == "FATAL" then Fatal
      else Unknow
    }
  }

  /** Reading a level's name gives the level, for UNKNOW too, although its name is not in the reader's table. */
  lemma NameRoundTrip(level: Level)
    ensures Level.FromString(level.ToString()) == level
  {
    match level {
      case Unknow =>
        var s := "UNKNOW";
        assert |s| == 6 && s[0] == 'U';
      case _ =>
    }
  }

  /** The levels, in their order. */
  const LEVELS := [Unknow, Debug, Info, Warn, Error, Fatal]
  const LEVEL_NAMES := ["UNKNOW", "DEBUG", "INFO", "WARN", "ERROR", "FATAL"]
  const LOWER_NAMES := ["unknow", "debug", "info", "warn", "error", "fatal"]

  /** a stands where b does in the list of levels, or after it. */
  predicate AtLeast(a: Level, b: Level) {
    exists i, j :: 0 <= j <= i < 6 && LEVELS[i] == a && LEVELS[j] == b
  }

  function Position(level: Level): (i: nat)
    ensures i < 6 && LEVELS[i] == level
  {
    match level
    case Unknow => 0
    case Debug => 1
    case Info => 2
    case Warn => 3
    case Error => 4
    case Fatal => 5
  }

  /** The filters compare by the order of the list. */
  lemma RankOrder(a: Level, b: Level)
    ensures a.Rank() >= b.Rank() <==> AtLeast(a, b)
  {
    if a.Rank() >= b.Rank() {
      assert LEVELS[Position(a)] == a && LEVELS[Position(b)] == b;
    }
  }

  lemma NamesExactly(i: nat)
    requires i < 6
    ensures LEVELS[i].ToString() == LEVEL_NAMES[i]
  {}

  /** The reader knows the names of five levels, in upper and in lower case; any other text is UNKNOW. */
  lemma ReadLevels(s: string)
    ensures forall i :: 1 <= i < 6 ==>
              (Level.FromString(s) == LEVELS[i] <==> s == LEVEL_NAMES[i] || s == LOWER_NAMES[i])
  {
    Different();
  }

  lemma Different()
    ensures forall i, j :: 0 <= i < j < 6 ==> LEVEL_NAMES[i] != LEVEL_NAMES[j] && LOWER_NAMES[i] != LOWER_NAMES[j]
    ensures forall i, j :: 0 <= i < 6 && 0 <= j < 6 ==> LEVEL_NAMES[i] != LOWER_NAMES[j]
  {}

  /** No level stands twice in the list. */
  lemma Places(i: nat, j: nat)
    requires i < 6 && j < 6
    ensures AtLeast(LEVELS[i], LEVELS[j]) <==> i >= j
  {}
}
