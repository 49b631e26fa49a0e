/**
 * The log-level filter: a process-wide minimum level, `log(level, msg)`
 * that emits `(level, msg)` on the logger signal only when the level
 * reaches it, and the five named levels.
 */
module Logging {

  const DEBUG: int := 10
  const INFO: int := 20
  const WARNING: int := 30
  const ERROR: int := 40
  const CRITICAL: int := 50

  /** One `(level, msg)` emission of the logger signal. */
  datatype LogRecord = LogRecord(level: int, msg: string)

  /** The static minimum level and every emission of the logger so far. */
  datatype Logger = Logger(minLevel: int, emitted: seq<LogRecord>)

  /** Program start: the minimum level is INFO and nothing has been logged. */
  function InitialLogger(): (l: Logger)
    ensures l.minLevel == INFO && l.emitted == []
  {
    Logger(20, [])
  }

  /** `get_min_log_level()`: the threshold `log` filters at. */
  function GetMinLogLevel(l: Logger): (r: int)
    ensures forall level, msg :: r <= level <==> Log(l, level, msg).emitted == l.emitted + [LogRecord(level, msg)]
  {
    l.minLevel
  }

  /** `set_min_log_level(level)`: changes the filter and logs nothing. */
  function SetMinLogLevel(l: Logger, level: int): (r: Logger)
    ensures r.emitted == l.emitted
    ensures GetMinLogLevel(r) == level
  {
    l.(minLevel := level)
  }

  /** `log(level, msg)`: emits the record iff the minimum level is at most `level`. */
  function Log(l: Logger, level: int, msg: string): (r: Logger)
    ensures r.minLevel == l.minLevel
    ensures l.minLevel <= level <==> r.emitted == l.emitted + [LogRecord(level, msg)]
    ensures level < l.minLevel <==> r == l
  {
    if l.minLevel <= level then l.(emitted := l.emitted + [LogRecord(level, msg)]) else l
  }

  function Debug(l: Logger, msg: string): (r: Logger)
    ensures r.emitted == l.emitted + (if l.minLevel <= DEBUG then [LogRecord(DEBUG, msg)] else [])
    ensures r.minLevel == l.minLevel
  {
    Log(l, 10, msg)
  }

  function Info(l: Logger, msg: string): (r: Logger)
    ensures r.emitted == l.emitted + (if l.minLevel <= INFO then [LogRecord(INFO, msg)] else [])
    ensures r.minLevel == l.minLevel
  {
    Log(l, 20, msg)
  }

  function Warning(l: Logger, msg: string): (r: Logger)
    ensures r.emitted == l.emitted + (if l.minLevel <= WARNING then [LogRecord(WARNING, msg)] else [])
    ensures r.minLevel == l.minLevel
  {
    Log(l, 30, msg)
  }

  function Error(l: Logger, msg: string): (r: Logger)
    ensures r.emitted == l.emitted + (if l.minLevel <= ERROR then [LogRecord(ERROR, msg)] else [])
    ensures r.minLevel == l.minLevel
  {
    Log(l, 40, msg)
  }

  function Critical(l: Logger, msg: string): (r: Logger)
    ensures r.emitted == l.emitted + (if l.minLevel <= CRITICAL then [LogRecord(CRITICAL, msg)] else [])
    ensures r.minLevel == l.minLevel
  {
    Log(l, 50, msg)
  }

  /** Setting the level and reading it back returns what was set. */
  lemma SetThenGet(l: Logger, level: int)
    ensures GetMinLogLevel(SetMinLogLevel(l, level)) == level
  {
  }

  /** The default filter drops DEBUG and lets INFO and above through. */
  lemma DefaultFilter(msg: string)
    ensures Debug(InitialLogger(), msg).emitted == []
    ensures Info(InitialLogger(), msg).emitted == [LogRecord(INFO, msg)]
  {
  }

  // ---- A sequence of log calls ----

  /** Reference definition: the records of `calls` whose level reaches `minLevel`, in order. */
  function Passing(calls: seq<LogRecord>, minLevel: int): seq<LogRecord>
  {
    if |calls| == 0 then []
    else (if minLevel <= calls[0].level then [calls[0]] else []) + Passing(calls[1..], minLevel)
  }

  /** `log(level, msg)` for each record of `calls`, in order. */
  function LogAll(l: Logger, calls: seq<LogRecord>): Logger
    decreases |calls|
  {
    if |calls| == 0 then l
    else LogAll(Log(l, calls[0].level, calls[0].msg), calls[1..])
  }

  /** Logging a sequence emits exactly its passing records, in order, and keeps the level. */
  lemma {:induction false} LogAllFilters(l: Logger, calls: seq<LogRecord>)
    ensures LogAll(l, calls).emitted == l.emitted + Passing(calls, l.minLevel)
    ensures LogAll(l, calls).minLevel == l.minLevel
    decreases |calls|
  {
    if |calls| > 0 {
      var l' := Log(l, calls[0].level, calls[0].msg);
      LogAllFilters(l', calls[1..]);
    }
  }

  lemma {:induction false} LogAllAppend(l: Logger, calls: seq<LogRecord>, x: LogRecord)
    ensures LogAll(l, calls + [x]) == Log(LogAll(l, calls), x.level, x.msg)
    decreases |calls|
  {
    if |calls| == 0 {
      assert calls + [x] == [x];
    } else {
      assert (calls + [x])[1..] == calls[1..] + [x];
      LogAllAppend(Log(l, calls[0].level, calls[0].msg), calls[1..], x);
    }
  }

  lemma {:induction false} PassingAppend(a: seq<LogRecord>, b: seq<LogRecord>, minLevel: int)
    ensures Passing(a + b, minLevel) == Passing(a, minLevel) + Passing(b, minLevel)
  {
    if |a| > 0 {
      assert (a + b)[1..] == a[1..] + b;
      PassingAppend(a[1..], b, minLevel);
    } else {
      assert a + b == b;
    }
  }

  /** A record passes iff it is at or above the minimum level. */
  lemma {:induction false} PassingMembers(calls: seq<LogRecord>, minLevel: int, x: LogRecord)
    ensures x in Passing(calls, minLevel) <==> x in calls && minLevel <= x.level
  {
    if |calls| > 0 {
      PassingMembers(calls[1..], minLevel, x);
      assert calls == [calls[0]] + calls[1..];
    }
  }

  /** When every record reaches the level, nothing is dropped. */
  lemma {:induction false} PassingAll(calls: seq<LogRecord>, minLevel: int)
    requires forall i :: 0 <= i < |calls| ==> minLevel <= calls[i].level
    ensures Passing(calls, minLevel) == calls
  {
    if |calls| > 0 {
      PassingAll(calls[1..], minLevel);
    }
  }

  /** A higher threshold drops more: filtering at `lo` then at `hi` is filtering at `hi`. */
  lemma {:induction false} PassingMonotone(calls: seq<LogRecord>, lo: int, hi: int)
    requires lo <= hi
    ensures Passing(Passing(calls, lo), hi) == Passing(calls, hi)
  {
    if |calls| > 0 {
      var head := if lo <= calls[0].level then [calls[0]] else [];
      PassingAppend(head, Passing(calls[1..], lo), hi);
      PassingMonotone(calls[1..], lo, hi);
      if lo <= calls[0].level {
        assert Passing(head, hi) == if hi <= calls[0].level then [calls[0]] else [] by {
          assert head[1..] == [];
        }
      }
    }
  }

  // ---- The C++ logging test ----

  /** `std::to_string` of a non-negative int, in decimal. */
  function NatToString(n: nat): string
  {
    if n < 10 then ['0' + n as char] else NatToString(n / 10) + ['0' + (n % 10) as char]
  }

  /** The five named calls the test makes first. */
  function NamedCalls(): seq<LogRecord>
  {
    [LogRecord(DEBUG, "debug msg"), LogRecord(INFO, "info msg"), LogRecord(WARNING, "warning msg"),
     LogRecord(ERROR, "error msg"), LogRecord(CRITICAL, "critical msg")]
  }

  /** The first `n` calls of the loop `log(i, to_string(i))` for i = 0, 5, 10, …. */
  function LoopCalls(n: nat): (r: seq<LogRecord>)
    ensures |r| == n && forall k :: 0 <= k < n ==> r[k] == LogRecord(5 * k, NatToString(5 * k))
  {
    seq(n, k requires 0 <= k < n => LogRecord(5 * k, NatToString(5 * k)))
  }

  /** Logging a sequence one record at a time, from its start. */
  lemma LogAllCons(l: Logger, x: LogRecord, rest: seq<LogRecord>)
    ensures LogAll(l, [x] + rest) == LogAll(Log(l, x.level, x.msg), rest)
  {
    assert ([x] + rest)[1..] == rest;
  }

  /** The five named helpers are `log` at their levels, applied in the test's order. */
  lemma {:induction false} NamedCallsLogged(l: Logger)
    ensures Critical(Error(Warning(Info(Debug(l, "debug msg"), "info msg"), "warning msg"), "error msg"), "critical msg")
            == LogAll(l, NamedCalls())
  {
    var c := NamedCalls();
    var l1 := Debug(l, "debug msg");
    var l2 := Info(l1, "info msg");
    var l3 := Warning(l2, "warning msg");
    var l4 := Error(l3, "error msg");
    var l5 := Critical(l4, "critical msg");
    assert LogAll(l5, []) == l5;
    LogAllCons(l4, c[4], []);
    assert [c[4]] == c[4..];
    LogAllCons(l3, c[3], c[4..]);
    assert [c[3]] + c[4..] == c[3..];
    LogAllCons(l2, c[2], c[3..]);
    assert [c[2]] + c[3..] == c[2..];
    LogAllCons(l1, c[1], c[2..]);
    assert [c[1]] + c[2..] == c[1..];
    LogAllCons(l, c[0], c[1..]);
    assert [c[0]] + c[1..] == c;
  }

  /** One more turn of the test's loop logs `to_string(5k)` at level 5k. */
  lemma LoopCallsStep(l: Logger, k: nat)
    ensures LogAll(l, NamedCalls() + LoopCalls(k + 1))
            == Log(LogAll(l, NamedCalls() + LoopCalls(k)), 5 * k, NatToString(5 * k))
  {
    var x := LogRecord(5 * k, NatToString(5 * k));
    assert LoopCalls(k + 1) == LoopCalls(k) + [x];
    assert NamedCalls() + LoopCalls(k + 1) == (NamedCalls() + LoopCalls(k)) + [x];
    LogAllAppend(l, NamedCalls() + LoopCalls(k), x);
  }

  /** `logging_tests()`: the five named levels, then `log(i, to_string(i))` for i in 0, 5, …, 55. */
  method LoggingTests(l: Logger) returns (r: Logger)
    ensures r == LogAll(l, NamedCalls() + LoopCalls(12))
  {
    r := Debug(l, "debug msg");
    r := Info(r, "info msg");
    r := Warning(r, "warning msg");
    r := Error(r, "error msg");
    r := Critical(r, "critical msg");
    NamedCallsLogged(l);
    assert NamedCalls() + LoopCalls(0) == NamedCalls();
    var i := 0;
    ghost var k: nat := 0; // turns of the loop so far
    while i < 60
      invariant i == 5 * k && k <= 12
      invariant r == LogAll(l, NamedCalls() + LoopCalls(k))
    {
      LoopCallsStep(l, k);
      r := Log(r, i, NatToString(i));
      i := i + 5;
      k := k + 1;
    }
  }

  /** The loop's calls from i = 10 on: `log(i, to_string(i))` for i = 10, 15, …, 55. */
  function LoopTail(): (r: seq<LogRecord>)
    ensures |r| == 10 && forall k :: 0 <= k < 10 ==> r[k] == LogRecord(10 + 5 * k, NatToString(10 + 5 * k))
  {
    seq(10, k requires 0 <= k < 10 => LogRecord(10 + 5 * k, NatToString(10 + 5 * k)))
  }

  /** What the Python test expects the handler to have received at minimum level 10. */
  function ExpectedTestMessages(): seq<LogRecord>
  {
    NamedCalls() + LoopTail()
  }

  /** When every record falls below the level, everything is dropped. */
  lemma {:induction false} PassingNone(calls: seq<LogRecord>, minLevel: int)
    requires forall i :: 0 <= i < |calls| ==> calls[i].level < minLevel
    ensures Passing(calls, minLevel) == []
  {
    if |calls| > 0 {
      PassingNone(calls[1..], minLevel);
    }
  }

  /** The loop's calls from the third on are the calls from i = 10 on. */
  lemma LoopTailIsSuffix()
    ensures LoopCalls(12)[2..] == LoopTail()
  {
    var loop := LoopCalls(12);
    forall k | 0 <= k < 10
      ensures loop[2..][k] == LoopTail()[k]
    {
      assert loop[2..][k] == loop[k + 2];
      assert 5 * (k + 2) == 10 + 5 * k;
    }
  }

  /** The loop's first two calls, at levels 0 and 5, fall below level 10; the rest pass. */
  lemma LoopPassingAtTen()
    ensures Passing(LoopCalls(12), 10) == LoopTail()
  {
    var loop := LoopCalls(12);
    assert loop == loop[..2] + loop[2..];
    PassingAppend(loop[..2], loop[2..], 10);
    PassingNone(loop[..2], 10);
    LoopTailIsSuffix();
    PassingAll(loop[2..], 10);
  }

  /** Every named call reaches level 10. */
  lemma NamedPassAtTen()
    ensures Passing(NamedCalls(), 10) == NamedCalls()
  {
    PassingAll(NamedCalls(), 10);
  }

  /** At minimum level 10 the test run emits exactly the expected records: levels 0 and 5 are dropped. */
  lemma TestRunAtLevelTen()
    ensures LogAll(Logger(10, []), NamedCalls() + LoopCalls(12)).emitted == ExpectedTestMessages()
  {
    LogAllFilters(Logger(10, []), NamedCalls() + LoopCalls(12));
    PassingAppend(NamedCalls(), LoopCalls(12), 10);
    NamedPassAtTen();
    LoopPassingAtTen();
  }
}
