/**
 * The dispatcher thread (logger/src/sub_func.rs, `logger_thread`), run sequentially: the records
 * it receives before the channel closes are a finite sequence, and its effect is the sequence of
 * calls it makes on its handlers.
 */
module Dispatch {
  import opened Records

  /** A handler of the registry: the built-in console handler or one supplied by the caller. */
  datatype Handler = Console | Custom(id: nat)

  /** One call the dispatcher makes on the handler at position `handler` of its list. */
  datatype Call = Handle(handler: nat, record: LogRecord) | Flush(handler: nat)

  /** `record` handed to the first `n` handlers, in list order. */
  function HandleRound(record: LogRecord, n: nat): seq<Call>
  {
    if n == 0 then [] else HandleRound(record, n - 1) + [Handle(n - 1, record)]
  }

  /** Every record of `received`, in order, handed to each of `n` handlers. */
  function HandleTrace(received: seq<LogRecord>, n: nat): seq<Call>
  {
    if received == [] then []
    else HandleTrace(received[..|received| - 1], n) + HandleRound(received[|received| - 1], n)
  }

  /** The first `n` handlers flushed, in list order. */
  function FlushRound(n: nat): seq<Call>
  {
    if n == 0 then [] else FlushRound(n - 1) + [Flush(n - 1)]
  }

  /** The calls of a dispatcher with `n` handlers that receives `received` and then sees the channel close. */
  function DispatchTrace(received: seq<LogRecord>, n: nat): seq<Call>
  {
    HandleTrace(received, n) + FlushRound(n)
  }

  /**
   * `logger_thread`: each received record is handed to every handler in list order; once the
   * channel is closed every handler is flushed, in list order.
   */
  method LoggerThread(received: seq<LogRecord>, handlers: seq<Handler>) returns (calls: seq<Call>)
    ensures calls == DispatchTrace(received, |handlers|)
  {
    calls := [];
    var i := 0;
    while i < |received|
      invariant 0 <= i <= |received|
      invariant calls == HandleTrace(received[..i], |handlers|)
    {
      var j := 0;
      while j < |handlers|
        invariant 0 <= j <= |handlers|
        invariant calls == HandleTrace(received[..i], |handlers|) + HandleRound(received[i], j)
      {
        calls := calls + [Handle(j, received[i])];
        j := j + 1;
      }
      assert received[..i + 1][..i] == received[..i];
      i := i + 1;
    }
    assert received[..i] == received;
    var j := 0;
    while j < |handlers|
      invariant 0 <= j <= |handlers|
      invariant calls == HandleTrace(received, |handlers|) + FlushRound(j)
    {
      calls := calls + [Flush(j)];
      j := j + 1;
    }
  }

  // ---- What the trace promises ----

  lemma {:induction false} HandleRoundAt(record: LogRecord, n: nat, j: nat)
    requires j < n
    ensures |HandleRound(record, n)| == n && HandleRound(record, n)[j] == Handle(j, record)
    decreases n
  {
    HandleRoundLength(record, n - 1);
    if j < n - 1 {
      HandleRoundAt(record, n - 1, j);
    }
  }

  lemma {:induction false} HandleRoundLength(record: LogRecord, n: nat)
    ensures |HandleRound(record, n)| == n
    decreases n
  {
    if n > 0 {
      HandleRoundLength(record, n - 1);
    }
  }

  lemma {:induction false} FlushRoundAt(n: nat, j: nat)
    requires j < n
    ensures |FlushRound(n)| == n && FlushRound(n)[j] == Flush(j)
    decreases n
  {
    FlushRoundLength(n - 1);
    if j < n - 1 {
      FlushRoundAt(n - 1, j);
    }
  }

  lemma {:induction false} FlushRoundLength(n: nat)
    ensures |FlushRound(n)| == n
    decreases n
  {
    if n > 0 {
      FlushRoundLength(n - 1);
    }
  }

  lemma {:induction false} HandleTraceLength(received: seq<LogRecord>, n: nat)
    ensures |HandleTrace(received, n)| == |received| * n
    decreases |received|
  {
    if received != [] {
      HandleTraceLength(received[..|received| - 1], n);
      HandleRoundLength(received[|received| - 1], n);
      assert |received| * n == (|received| - 1) * n + n;
    }
  }

  /**
   * The `j`-th call for the `i`-th record is that record handed to handler `j`: the handle calls
   * run record by record and, within a record, handler by handler.
   */
  lemma {:induction false} HandleTraceAt(received: seq<LogRecord>, n: nat, i: nat, j: nat)
    requires i < |received| && j < n
    ensures |HandleTrace(received, n)| == |received| * n
    ensures i * n + j < |received| * n
    ensures HandleTrace(received, n)[i * n + j] == Handle(j, received[i])
    decreases |received|
  {
    HandleTraceLength(received, n);
    var m := |received| - 1;
    var front := received[..m];
    HandleTraceLength(front, n);
    assert m * n + n == |received| * n;
    if i < m {
      HandleTraceAt(front, n, i, j);
      assert i * n + j < m * n;
    } else {
      assert i * n == m * n;
      HandleRoundAt(received[m], n, j);
    }
  }

  lemma DispatchTraceLength(received: seq<LogRecord>, n: nat)
    ensures |DispatchTrace(received, n)| == |received| * n + n
  {
    HandleTraceLength(received, n);
    FlushRoundLength(n);
  }

  /** In the whole trace, the handle call for record `i` and handler `j` sits at `i * n + j`. */
  lemma DispatchTraceHandleAt(received: seq<LogRecord>, n: nat, i: nat, j: nat)
    requires i < |received| && j < n
    ensures |DispatchTrace(received, n)| == |received| * n + n
    ensures i * n + j < |received| * n
    ensures DispatchTrace(received, n)[i * n + j] == Handle(j, received[i])
  {
    HandleTraceAt(received, n, i, j);
    FlushRoundLength(n);
  }

  /** After the |received| * n handle calls come the flushes of handlers 0 .. n-1, in that order. */
  lemma DispatchTraceFlushAt(received: seq<LogRecord>, n: nat, j: nat)
    requires j < n
    ensures |received| * n + j < |DispatchTrace(received, n)|
    ensures DispatchTrace(received, n)[|received| * n + j] == Flush(j)
  {
    HandleTraceLength(received, n);
    FlushRoundAt(n, j);
  }

  /** Every position before |received| * n holds a handle call. */
  lemma HandleCallsFirst(received: seq<LogRecord>, n: nat, p: nat)
    requires p < |received| * n
    ensures |DispatchTrace(received, n)| == |received| * n + n
    ensures DispatchTrace(received, n)[p].Handle?
  {
    assert n > 0;
    var i, j := p / n, p % n;
    assert i * n + j == p;
    assert i < |received| by {
      if i >= |received| {
        MulMonotone(|received|, i, n);
      }
    }
    DispatchTraceHandleAt(received, n, i, j);
  }

  lemma MulMonotone(a: nat, b: nat, n: nat)
    requires a <= b
    ensures a * n <= b * n
  {
  }

  /** The record one call hands to handler `h`, if any. */
  function SeenIn(call: Call, h: nat): seq<LogRecord>
  {
    if call.Handle? && call.handler == h then [call.record] else []
  }

  /** The records handed to handler `h`, in the order of the calls. */
  function SeenBy(calls: seq<Call>, h: nat): seq<LogRecord>
  {
    if calls == [] then [] else SeenBy(calls[..|calls| - 1], h) + SeenIn(calls[|calls| - 1], h)
  }

  /** The number of flush calls on handler `h`. */
  function FlushCount(calls: seq<Call>, h: nat): nat
  {
    if calls == [] then 0
    else FlushCount(calls[..|calls| - 1], h) + (if calls[|calls| - 1] == Flush(h) then 1 else 0)
  }

  lemma {:induction false} SeenByAppend(a: seq<Call>, b: seq<Call>, h: nat)
    ensures SeenBy(a + b, h) == SeenBy(a, h) + SeenBy(b, h)
    ensures FlushCount(a + b, h) == FlushCount(a, h) + FlushCount(b, h)
    decreases |b|
  {
    if b == [] {
      assert a + b == a;
    } else {
      var b' := b[..|b| - 1];
      assert (a + b)[..|a + b| - 1] == a + b';
      SeenByAppend(a, b', h);
    }
  }

  lemma SeenBySingle(call: Call, h: nat)
    ensures SeenBy([call], h) == SeenIn(call, h)
    ensures FlushCount([call], h) == if call == Flush(h) then 1 else 0
  {
    assert [call][..0] == [];
  }

  /** Within one record's round, a listed handler sees that record once; a handler past the list sees nothing. */
  lemma {:induction false} SeenInRound(record: LogRecord, n: nat, h: nat)
    ensures SeenBy(HandleRound(record, n), h) == if h < n then [record] else []
    ensures FlushCount(HandleRound(record, n), h) == 0
    decreases n
  {
    if n > 0 {
      var front, call := HandleRound(record, n - 1), Handle(n - 1, record);
      assert HandleRound(record, n) == front + [call];
      SeenInRound(record, n - 1, h);
      SeenByAppend(front, [call], h);
      SeenBySingle(call, h);
    } else {
      assert HandleRound(record, n) == [];
    }
  }

  lemma {:induction false} FlushedInRound(n: nat, h: nat)
    ensures SeenBy(FlushRound(n), h) == []
    ensures FlushCount(FlushRound(n), h) == if h < n then 1 else 0
    decreases n
  {
    if n > 0 {
      var front, call := FlushRound(n - 1), Flush(n - 1);
      assert FlushRound(n) == front + [call];
      FlushedInRound(n - 1, h);
      SeenByAppend(front, [call], h);
      SeenBySingle(call, h);
    } else {
      assert FlushRound(n) == [];
    }
  }

  lemma SplitLast<T>(s: seq<T>)
    requires s != []
    ensures s[..|s| - 1] + [s[|s| - 1]] == s
  {
  }

  lemma {:induction false} SeenInTrace(received: seq<LogRecord>, n: nat, h: nat)
    requires h < n
    ensures SeenBy(HandleTrace(received, n), h) == received
    decreases |received|
  {
    if received != [] {
      var front, last := received[..|received| - 1], received[|received| - 1];
      var a, b := HandleTrace(front, n), HandleRound(last, n);
      assert HandleTrace(received, n) == a + b;
      SeenInTrace(front, n, h);
      SeenInRound(last, n, h);
      SeenByAppend(a, b, h);
      SplitLast(received);
    }
  }

  lemma {:induction false} NoFlushInTrace(received: seq<LogRecord>, n: nat, h: nat)
    ensures FlushCount(HandleTrace(received, n), h) == 0
    decreases |received|
  {
    if received != [] {
      var front, last := received[..|received| - 1], received[|received| - 1];
      var a, b := HandleTrace(front, n), HandleRound(last, n);
      assert HandleTrace(received, n) == a + b;
      NoFlushInTrace(front, n, h);
      SeenInRound(last, n, h);
      SeenByAppend(a, b, h);
    }
  }

  /**
   * Every handler of the list receives every record exactly once, in receive order, and is
   * flushed exactly once.
   */
  lemma EachHandlerSeesAll(received: seq<LogRecord>, n: nat, h: nat)
    requires h < n
    ensures SeenBy(DispatchTrace(received, n), h) == received
    ensures FlushCount(DispatchTrace(received, n), h) == 1
  {
    SeenInTrace(received, n, h);
    NoFlushInTrace(received, n, h);
    FlushedInRound(n, h);
    SeenByAppend(HandleTrace(received, n), FlushRound(n), h);
  }

  /** No handle call comes after a flush: the flushes run only once every record is handled. */
  lemma FlushesLast(received: seq<LogRecord>, n: nat, p: nat, q: nat)
    requires p < q < |DispatchTrace(received, n)|
    requires DispatchTrace(received, n)[p].Flush?
    ensures DispatchTrace(received, n)[q].Flush?
  {
    var m := |received| * n;
    if p < m {
      HandleCallsFirst(received, n, p);
    }
    DispatchTraceLength(received, n);
    DispatchTraceFlushAt(received, n, q - m);
  }
}
