/**
 * The logger's process-wide state and its lifecycle (logger/src/sub_func.rs: the `TX` and
 * `MIN_LEVEL_LOG` globals, `init_logger`, `init_logger_with_handlers`, `internal_send_log` and
 * `is_my_level`). The globals become the fields of one `Logger` object; the channel is the
 * sequence of records sent into it, and the handler list is the one the spawned dispatcher
 * thread owns.
 */
module Runtime {
  import opened Outcomes
  import opened Records
  import opened Dispatch

  /** The refusal of a second initialisation (the source panics instead of returning). */
  datatype InitError = AlreadyInitialized

  class Logger {
    /** Whether `TX` holds the channel's sending end, that is, whether the logger is initialised. */
    var initialized: bool
    /** `MIN_LEVEL_LOG`: the threshold, absent until an initialisation sets it. */
    var minLevelLog: Option<Int32>
    /** The handlers the dispatcher thread owns, console first. */
    var handlers: seq<Handler>
    /** The records sent into the channel, oldest first: what the dispatcher receives. */
    var sent: seq<LogRecord>

    /**
     * The two globals are set together; before that there is no channel and no dispatcher.
     * After it, the console handler comes first and only there (callers cannot name it).
     */
    ghost predicate Valid()
      reads this
    {
      (initialized <==> minLevelLog.Some?)
      && (!initialized ==> handlers == [] && sent == [])
      && (initialized ==> |handlers| > 0 && handlers[0] == Console && Console !in handlers[1..])
    }

    /** The state at program start: both `OnceLock`s empty. */
    constructor ()
      ensures Valid()
      ensures !initialized && minLevelLog == None && handlers == [] && sent == []
    {
      initialized := false;
      minLevelLog := None;
      handlers := [];
      sent := [];
    }

    /**
     * `is_my_level`: whether `lvl` reaches the threshold, which counts as 0 while unset.
     * No send path consults it.
     */
    function IsMyLevel(lvl: Int32): (active: bool)
      reads this
      ensures minLevelLog.Some? ==> (active <==> lvl >= minLevelLog.value)
      ensures minLevelLog.None? ==> (active <==> lvl >= 0)
    {
      lvl >= minLevelLog.GetOr(0)
    }

    /**
     * `init_logger`: on an uninitialised logger, opens the channel, starts the dispatcher with
     * the console handler alone and stores the threshold. A second call is refused and changes nothing.
     */
    method InitLogger(minLevel: Int32) returns (r: Result<(), InitError>)
      requires Valid()
      modifies this
      ensures Valid()
      ensures old(initialized) ==> r == Err(AlreadyInitialized) && unchanged(this)
      ensures !old(initialized) ==> r == Ok(()) && initialized && minLevelLog == Some(minLevel)
                                    && handlers == [Console] && sent == []
    {
      if initialized {
        return Err(AlreadyInitialized);
      }
      handlers := [Console];
      sent := [];
      initialized := true;
      minLevelLog := Some(minLevel);
      r := Ok(());
    }

    /**
     * `init_logger_with_handlers`: as `InitLogger`, with the dispatcher owning the console
     * handler followed by the caller's handlers in the order given.
     */
    method InitLoggerWithHandlers(custom: seq<Handler>, minLevel: Int32) returns (r: Result<(), InitError>)
      requires Valid()
      requires Console !in custom
      modifies this
      ensures Valid()
      ensures old(initialized) ==> r == Err(AlreadyInitialized) && unchanged(this)
      ensures !old(initialized) ==> r == Ok(()) && initialized && minLevelLog == Some(minLevel)
                                    && handlers == [Console] + custom && sent == []
    {
      if initialized {
        return Err(AlreadyInitialized);
      }
      handlers := [Console] + custom;
      assert handlers[1..] == custom;
      sent := [];
      initialized := true;
      minLevelLog := Some(minLevel);
      r := Ok(());
    }

    /**
     * `internal_send_log`: an uninitialised logger is first initialised with threshold 0 and the
     * console handler; then the record is appended to the channel, whatever its level.
     */
    method InternalSendLog(data: LogRecord)
      requires Valid()
      modifies this
      ensures Valid() && initialized
      ensures old(initialized) ==> minLevelLog == old(minLevelLog) && handlers == old(handlers)
      ensures !old(initialized) ==> minLevelLog == Some(0) && handlers == [Console]
      ensures sent == old(sent) + [data]
    {
      if !initialized {
        var _ := InitLogger(0);
      }
      sent := sent + [data];
    }

    /**
     * The dispatcher's run as if the channel closed after the records sent: every record is
     * handed to every handler in order, then every handler is flushed. In the program the
     * static sender is never dropped, so that close, and with it the flush, never comes.
     */
    method Drain() returns (calls: seq<Call>)
      requires Valid()
      ensures calls == DispatchTrace(sent, |handlers|)
    {
      calls := LoggerThread(sent, handlers);
    }
  }

  /** The console handler comes first and is the only console: position 0 is the one printing. */
  lemma ConsoleIsFirstAndOnly(logger: Logger, k: nat)
    requires logger.Valid() && logger.initialized && k < |logger.handlers|
    ensures logger.handlers[k] == Console <==> k == 0
  {
    if k > 0 {
      assert logger.handlers[k] == logger.handlers[1..][k - 1];
    }
  }

  /**
   * A second initialisation is refused and the first handlers stay the only ones: a probe handler
   * offered by the refused call never receives a record, while the console sees the record and is
   * flushed.
   */
  method SecondInitIgnored(first: Int32, second: Int32, probe: nat, data: LogRecord)
    returns (r: Result<(), InitError>, calls: seq<Call>)
    ensures r == Err(AlreadyInitialized)
    ensures calls == [Handle(0, data), Flush(0)]
  {
    var logger := new Logger();
    var _ := logger.InitLogger(first);
    r := logger.InitLoggerWithHandlers([Custom(probe)], second);
    logger.InternalSendLog(data);
    calls := logger.Drain();
    assert logger.handlers == [Console] && logger.sent == [data];
    assert HandleTrace([data], 1) == HandleTrace([], 1) + HandleRound(data, 1);
    assert HandleRound(data, 1) == HandleRound(data, 0) + [Handle(0, data)];
    assert FlushRound(1) == FlushRound(0) + [Flush(0)];
  }

  /**
   * Sending on an uninitialised logger initialises it with threshold 0 and the console handler:
   * the record is printed, the gate then admits exactly the levels from 0 on, and a later
   * initialisation is refused.
   */
  method SendBeforeInit(data: LogRecord, lvl: Int32, later: Int32)
    returns (active: bool, r: Result<(), InitError>, calls: seq<Call>)
    ensures active <==> lvl >= 0
    ensures r == Err(AlreadyInitialized)
    ensures calls == [Handle(0, data), Flush(0)]
  {
    var logger := new Logger();
    logger.InternalSendLog(data);
    active := logger.IsMyLevel(lvl);
    r := logger.InitLogger(later);
    calls := logger.Drain();
    assert HandleTrace([data], 1) == HandleTrace([], 1) + HandleRound(data, 1);
    assert HandleRound(data, 1) == HandleRound(data, 0) + [Handle(0, data)];
    assert FlushRound(1) == FlushRound(0) + [Flush(0)];
  }

  /**
   * The send path does not filter by level: after `init_logger_with_handlers(custom, minLevel)`,
   * every record sent reaches the console and each custom handler, in send order, even those the
   * gate would reject, and each handler is flushed once.
   */
  method SendDoesNotFilter(custom: seq<Handler>, minLevel: Int32, records: seq<LogRecord>)
    returns (rejected: seq<bool>, calls: seq<Call>)
    requires Console !in custom
    ensures |rejected| == |records|
    ensures forall i :: 0 <= i < |records| ==> (rejected[i] <==> records[i].lvl < minLevel)
    ensures forall h :: 0 <= h <= |custom| ==> SeenBy(calls, h) == records && FlushCount(calls, h) == 1
  {
    var logger := new Logger();
    var _ := logger.InitLoggerWithHandlers(custom, minLevel);
    rejected := [];
    var i := 0;
    while i < |records|
      invariant 0 <= i <= |records|
      invariant logger.Valid() && logger.initialized
      invariant logger.minLevelLog == Some(minLevel) && logger.handlers == [Console] + custom
      invariant logger.sent == records[..i]
      invariant |rejected| == i
      invariant forall k :: 0 <= k < i ==> (rejected[k] <==> records[k].lvl < minLevel)
    {
      var active := logger.IsMyLevel(records[i].lvl);
      rejected := rejected + [!active];
      logger.InternalSendLog(records[i]);
      assert records[..i + 1] == records[..i] + [records[i]];
      i := i + 1;
    }
    assert records[..i] == records;
    calls := logger.Drain();
    forall h | 0 <= h <= |custom|
      ensures SeenBy(calls, h) == records && FlushCount(calls, h) == 1
    {
      EachHandlerSeesAll(records, 1 + |custom|, h);
    }
  }
}
