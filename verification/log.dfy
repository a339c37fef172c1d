/**
 * Log levels and the level filter of a logger. Formatting and the output
 * channels (stdout, syslog) are outside the model: a log call is given the
 * formatted line, or `None` when formatting it throws.
 */
module Log {
  import opened Wrappers

  /** Levels in increasing verbosity: enabling one enables every level before it. */
  datatype LogLevel = Error | Warn | Info | Debug | Trace

  /** The enumerator's underlying value. */
  function Rank(l: LogLevel): (n: nat)
    ensures n < 5
    ensures n == 0 <==> l == Error
    ensures n == 1 <==> l == Warn
    ensures n == 2 <==> l == Info
    ensures n == 3 <==> l == Debug
    ensures n == 4 <==> l == Trace
  {
    match l
    case Error => 0
    case Warn => 1
    case Info => 2
    case Debug => 3
    case Trace => 4
  }

  predicate AtMost(a: LogLevel, b: LogLevel) {
    Rank(a) <= Rank(b)
  }

  /** The level order is a total order: distinct levels have distinct ranks. */
  lemma RankInjective(a: LogLevel, b: LogLevel)
    ensures Rank(a) == Rank(b) <==> a == b
  {
  }

  lemma AtMostTotal(a: LogLevel, b: LogLevel)
    ensures AtMost(a, b) || AtMost(b, a)
    ensures AtMost(a, b) && AtMost(b, a) ==> a == b
  {
    RankInjective(a, b);
  }

  datatype Logger = Logger(name: string, level: LogLevel)

  /** A new logger starts at `info`. */
  function NewLogger(name: string): (lg: Logger)
    ensures lg.name == name && lg.level == Info
    ensures IsEnabled(lg, Error) && IsEnabled(lg, Warn) && IsEnabled(lg, Info)
    ensures !IsEnabled(lg, Debug) && !IsEnabled(lg, Trace)
  {
    Logger(name, Info)
  }

  predicate IsEnabled(lg: Logger, l: LogLevel) {
    AtMost(l, lg.level)
  }

  /** The current threshold. */
  function Level(lg: Logger): (l: LogLevel)
    ensures IsEnabled(lg, l)
    ensures forall m :: IsEnabled(lg, m) <==> AtMost(m, l)
  {
    lg.level
  }

  /** Replaces the threshold and nothing else. */
  function SetLevel(lg: Logger, l: LogLevel): (r: Logger)
    ensures r.name == lg.name
    ensures Level(r) == l
    ensures forall m :: IsEnabled(r, m) <==> AtMost(m, l)
  {
    lg.(level := l)
  }

  /** The enabled levels are always a prefix of the level order. */
  lemma EnabledDownwardClosed(lg: Logger, a: LogLevel, b: LogLevel)
    requires AtMost(a, b) && IsEnabled(lg, b)
    ensures IsEnabled(lg, a)
  {
  }

  /** Errors are never filtered out, whatever the threshold. */
  lemma ErrorAlwaysEnabled(lg: Logger)
    ensures IsEnabled(lg, Error)
  {
  }

  datatype LogLine = LogLine(level: LogLevel, text: string)

  /**
   * What one `log` call does: nothing when the level is disabled, the line
   * when it is enabled, and a report through the failure path (never an
   * exception to the caller) when formatting throws.
   */
  datatype Outcome = Skipped | Emitted(line: LogLine) | FailedToLog

  function LogCall(lg: Logger, l: LogLevel, formatted: Option<string>): (o: Outcome)
    ensures o.Skipped? <==> !IsEnabled(lg, l)
    ensures o.Emitted? <==> IsEnabled(lg, l) && formatted.Some?
    ensures o.Emitted? ==> o.line == LogLine(l, formatted.value)
    ensures o.FailedToLog? <==> IsEnabled(lg, l) && formatted.None?
  {
    if !IsEnabled(lg, l) then Skipped
    else if formatted.Some? then Emitted(LogLine(l, formatted.value))
    else FailedToLog
  }

  datatype Request = Request(level: LogLevel, formatted: Option<string>)

  /** The lines a logger emits for a series of calls, in call order. */
  function Emit(lg: Logger, calls: seq<Request>): (out: seq<LogLine>)
    ensures |out| <= |calls|
  {
    if calls == [] then []
    else
      var o := LogCall(lg, calls[0].level, calls[0].formatted);
      (if o.Emitted? then [o.line] else []) + Emit(lg, calls[1..])
  }

  /** Every line a logger emits has an enabled level. */
  lemma {:induction false} EmitOnlyEnabled(lg: Logger, calls: seq<Request>)
    ensures forall k :: 0 <= k < |Emit(lg, calls)| ==> IsEnabled(lg, Emit(lg, calls)[k].level)
  {
    if calls != [] {
      EmitOnlyEnabled(lg, calls[1..]);
    }
  }

  /** At `trace` nothing is filtered: every call that formats is emitted, in call order. */
  lemma {:induction false} EmitAllWhenTrace(lg: Logger, calls: seq<Request>)
    requires lg.level == Trace
    requires forall k :: 0 <= k < |calls| ==> calls[k].formatted.Some?
    ensures |Emit(lg, calls)| == |calls|
    ensures forall k :: 0 <= k < |calls| ==> Emit(lg, calls)[k] == LogLine(calls[k].level, calls[k].formatted.value)
  {
    if calls != [] {
      EmitAllWhenTrace(lg, calls[1..]);
    }
  }
}
