/** Severity levels of the logger and their printed names (the `[LEVEL]`
    prefix of every emitted line). */
module LogLevels {
  import opened Wrappers

  /** `enum class LogLevel : uint8_t`: a scoped enumeration whose values are
      any byte, of which five are named. */
  newtype LogLevel = x: int | 0 <= x < 256

  const Debug: LogLevel := 0
  const Info: LogLevel := 1
  const Warning: LogLevel := 2
  const Error: LogLevel := 3
  const Unknown: LogLevel := 4

  /** The four levels a call site can log at. */
  predicate IsNamed(lvl: LogLevel)
  {
    lvl == Debug || lvl == Info || lvl == Warning || lvl == Error
  }

  /** `to_string(LogLevel)`: each named level prints as its upper-case name,
      every other value (Unknown, or a byte outside the declared enumerators)
      as "UNKNOWN". */
  function ToString(lvl: LogLevel): (name: string)
    ensures name == "DEBUG" <==> lvl == Debug
    ensures name == "INFO" <==> lvl == Info
    ensures name == "WARNING" <==> lvl == Warning
    ensures name == "ERROR" <==> lvl == Error
    ensures name == "UNKNOWN" <==> !IsNamed(lvl)
  {
    if lvl == Debug then "DEBUG"
    else if lvl == Info then "INFO"
    else if lvl == Warning then "WARNING"
    else if lvl == Error then "ERROR"
    else "UNKNOWN"
  }

  /** The prefix the logger's output thread writes before each message:
      the level's name in brackets, then a space. */
  function Prefix(lvl: LogLevel): (p: string)
    ensures |p| == |ToString(lvl)| + 3
    ensures p[0] == '[' && p[1..|p| - 2] == ToString(lvl) && p[|p| - 2..] == "] "
  {
    "[" + ToString(lvl) + "] "
  }

  /** Reads a printed name back; the inverse of ToString on its image. */
  function Parse(name: string): (r: Option<LogLevel>)
    ensures r.Some? ==> ToString(r.value) == name
  {
    if name == "DEBUG" then Some(Debug)
    else if name == "INFO" then Some(Info)
    else if name == "WARNING" then Some(Warning)
    else if name == "ERROR" then Some(Error)
    else if name == "UNKNOWN" then Some(Unknown)
    else None
  }

  /** Printing and reading back recovers the level, except that every
      unnamed value collapses onto Unknown. */
  lemma ParseToString(lvl: LogLevel)
    ensures Parse(ToString(lvl)) == Some(if IsNamed(lvl) then lvl else Unknown)
  {
  }

  /** Two levels print the same `[LEVEL]` prefix exactly when they have the
      same name: the named levels are pairwise distinguishable. */
  lemma PrefixesDistinguishLevels(a: LogLevel, b: LogLevel)
    ensures Prefix(a) == Prefix(b) <==> (a == b || (!IsNamed(a) && !IsNamed(b)))
  {
  }
}
