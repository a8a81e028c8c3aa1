# sim_log_azot logger core in Dafny

This project models the runtime of the `logger` crate (`logger/src/sub_func.rs`): a
process-wide logger that is initialised at most once, a channel from the send path to a
dispatcher thread, the handlers that thread owns (the built-in console handler first, then the
caller's handlers), and the two pure helpers the console handler uses: the ANSI colour lookup
and the timestamp pattern formatter.

Modules:

- `Outcomes`: `Option` and `Result`.
- `Records`: `LogRecord` and its UTC timestamp. The level is an `i32` (`Int32`).
- `Ansi`: `ansi_to_colored` as `AnsiToColored`. It recognises 16 colours, each in two
  spellings, and falls back to white.
- `TimeFormat`: `format_log_record_time` as six ordered replace-all passes. It also covers
  `{:02}` padding and Rust's truncating `%`.
- `Console`: the console handler's output line and how to read it back.
- `Dispatch`: `logger_thread` as a method that builds the trace of `handle`/`flush` calls it
  makes. Handlers are identities; the `LogHandler` interface (`logger/src/lib.rs:30-36`) is
  represented by the two kinds of call it offers.
- `Runtime`: the `TX` and `MIN_LEVEL_LOG` globals as the fields of one `Logger` object. Its
  methods are `init_logger`, `init_logger_with_handlers`, `internal_send_log`, `is_my_level`,
  and the dispatcher's run as if the channel closed, which it never does in the program (see
  "## Left out").

The model follows the code as written, with one departure: the panic on a second
initialisation (`logger/src/sub_func.rs:126`, `:153`) becomes an error result. Behaviours worth
knowing:

- The send path never consults `is_my_level`. Every record sent reaches every handler,
  whatever its level (`Runtime.SendDoesNotFilter`).
- Sending on an uninitialised logger first initialises it with threshold 0 and the console
  handler (`Runtime.SendBeforeInit`).
- A second initialisation panics in the source. Here it returns `Err(AlreadyInitialized)`
  and leaves the state unchanged.
- The pattern letters `MM` are replaced by the minute, never the month. The console pattern
  `"YY-MM-DD HH:MM:SS"` therefore prints the minute twice (`TimeFormat.ConsolePatternFields`,
  `TimeFormat.MonthNeverPrinted`).
- The escape `"\033"` in the colour literals is a NUL character followed by `33`, not ESC.
  Both spellings are modelled as the bytes they denote.

## Model

| member | source | states |
|---|---|---|
| Ansi.NulSpellingSelects | logger/src/sub_func.rs:62-83 | the `"\033[NNm"` spelling of each of the 16 codes selects its colour and passes the text through unchanged |
| Ansi.EscSpellingSelects | logger/src/sub_func.rs:62-83 | the `"\x1b[NNm"` spelling of each of the 16 codes selects its colour and passes the text through unchanged |
| Ansi.UnknownIsWhite | logger/src/sub_func.rs:84-85 | a string that spells no colour is rendered white, with the text unchanged |
| Ansi.LookupCharacterised | logger/src/sub_func.rs:62-86 | the text is unchanged, and the colour is `c` if and only if the string spells `c`, or `c` is white and the string spells no colour |
| TimeFormat.SkipPrefix | logger/src/sub_func.rs:93-99 | `str::replace` copies a prefix that cannot start the pattern and replaces in the rest |
| TimeFormat.FreeTextUnchanged | logger/src/sub_func.rs:93-99 | replacing a pattern whose first character does not occur leaves the text unchanged |
| TimeFormat.NoOccurrenceLeft | logger/src/sub_func.rs:93-99 | when the replacement is non-empty and shares no character with the pattern, as with every pass here (digits and a sign against letters), the result contains no occurrence of the pattern at any position |
| TimeFormat.ReplaceBySelf | logger/src/sub_func.rs:93-99 | replacing a pattern by itself is the identity |
| TimeFormat.ParseNatDecimal | logger/src/sub_func.rs:94 | the decimal `to_string` of a natural reads back as that number |
| TimeFormat.Pad2TwoDigits | logger/src/sub_func.rs:95-99 | `{:02}` of a value in 0..99 is exactly two digits, tens then units, and reads back as the value |
| TimeFormat.ConsoleLikePatternFields | logger/src/sub_func.rs:92-100 | for `YY?MM?DD?HH?MM?SS` with letter-free separators, the first of them non-empty, the six passes print two-digit year, minute, day, hour, minute, second in that order, with the separators untouched |
| TimeFormat.ConsolePatternFields | logger/src/sub_func.rs:36 | the console pattern prints `yy-mi-dd hh:mi:ss`: the minute stands where the month is expected |
| TimeFormat.ConsoleTimestampReadBack | logger/src/sub_func.rs:92-100 | for a valid timestamp from year 0 on, the console time is 17 characters, and year mod 100, minute, day, hour and second read back from their fixed positions |
| TimeFormat.FullYearPattern | logger/src/sub_func.rs:94 | `YYYY` prints the full year, with no padding |
| TimeFormat.PlainPatternUnchanged | logger/src/sub_func.rs:92-100 | a pattern without Y, D, H, M or S is returned unchanged |
| TimeFormat.NoSecondsLeft | logger/src/sub_func.rs:92-100 | for every pattern and record, the formatted text contains no `SS`: a formatted value is never taken for a pattern again |
| TimeFormat.MonthNeverPrinted | logger/src/sub_func.rs:92-100 | changing a timestamp's month never changes the formatted result, for any pattern |
| Console.ParsePrintedRoundTrip | logger/src/sub_func.rs:38 | the line `[heading] : time -> msg` gives back heading, time and message for a heading without `]` and a 17-character time |
| Console.ConsoleHandleLine | logger/src/sub_func.rs:35-39 | the console handler prints the record's heading, its time in the console pattern and its message, in that layout |
| Dispatch.LoggerThread | logger/src/sub_func.rs:45-57 | the dispatcher's calls are exactly: each received record handed to every handler in list order, then every handler flushed in list order |
| Dispatch.HandleTraceAt | logger/src/sub_func.rs:46-50 | the call at position `i * n + j` hands record `i` to handler `j` |
| Dispatch.DispatchTraceLength | logger/src/sub_func.rs:45-57 | a run makes `|received| * n` handle calls plus `n` flush calls |
| Dispatch.DispatchTraceHandleAt | logger/src/sub_func.rs:46-50 | in the whole run, record `i` reaches handler `j` at position `i * n + j` |
| Dispatch.DispatchTraceFlushAt | logger/src/sub_func.rs:53-56 | after the handle calls, handler `j` is flushed at position `|received| * n + j` |
| Dispatch.HandleCallsFirst | logger/src/sub_func.rs:46-50 | every position before `|received| * n` is a handle call |
| Dispatch.FlushesLast | logger/src/sub_func.rs:53-56 | once a flush has happened, every later call is a flush: no record is handled after flushing starts |
| Dispatch.SeenInTrace | logger/src/sub_func.rs:46-50 | each listed handler is handed exactly the received records, in receive order |
| Dispatch.EachHandlerSeesAll | logger/src/sub_func.rs:46-56 | over a whole run, each listed handler sees every record once, in order, and is flushed exactly once |
| Runtime.Logger.constructor | logger/src/sub_func.rs:26-27 | at program start there is no channel, no threshold, no handler and nothing sent |
| Runtime.Logger.IsMyLevel | logger/src/sub_func.rs:177-179 | a level is active if and only if it reaches the stored threshold, or 0 while none is stored |
| Runtime.Logger.InitLogger | logger/src/sub_func.rs:123-145 | on a fresh logger, stores the threshold and starts the dispatcher with the console handler alone; if already initialised, returns the refusal and changes nothing |
| Runtime.Logger.InitLoggerWithHandlers | logger/src/sub_func.rs:150-175 | as `InitLogger`, with handlers console followed by the caller's in the given order; if already initialised, returns the refusal and changes nothing |
| Runtime.Logger.InternalSendLog | logger/src/sub_func.rs:107-118 | auto-initialises with threshold 0 and the console handler if needed, then appends the record to the channel whatever its level; threshold and handlers otherwise unchanged |
| Runtime.Logger.Drain | logger/src/sub_func.rs:137-141 | the dispatcher's run over everything sent is the dispatch trace of the sent records over the current handlers |
| Runtime.ConsoleIsFirstAndOnly | logger/src/sub_func.rs:164-168 | in an initialised logger, handler `k` is the console handler if and only if `k` is 0 |
| Runtime.SecondInitIgnored | logger/src/sub_func.rs:150-154 | after `init_logger`, `init_logger_with_handlers` is refused, and its handler never receives a record; only the console handles and flushes |
| Runtime.SendBeforeInit | logger/src/sub_func.rs:107-111 | a send before any init makes the threshold 0, so a level is active if and only if it is at least 0; a later init is refused; the console handles the record |
| Runtime.SendDoesNotFilter | logger/src/sub_func.rs:107-118 | for every record, `is_my_level` rejects it if and only if its level is below the threshold, yet the console and every custom handler see all records in send order and are flushed once |

## Left out

- The mpsc channel, `std::thread::spawn` and the atomicity of `OnceLock`: the dispatcher is run sequentially over the records sent. Concurrent producers are reduced to one send order. Concurrent initialisation is also out of the model. Two callers can both pass the `TX.get().is_some()` test (`logger/src/sub_func.rs:109-110`, `:125`, `:152`) and each spawn a dispatcher; the loser then panics at the `expect` on `TX.set` (`:143`, `:173`).
- Runtime.Logger.Drain: in the program as written, the channel never closes. The static `TX` holds the only `Sender` and is never dropped, so the flush loop (`logger/src/sub_func.rs:53-56`) never runs. Records still queued when `main` returns are never handled; the example application sleeps five seconds before returning for this reason (`test_app/src/main.rs:69-70`). `Drain` and the flush counts of `Dispatch.EachHandlerSeesAll` and `Runtime.SendDoesNotFilter` describe a run whose channel closes after the records sent. That close does not happen in the program.
- The panic on a second initialisation is modelled as an error result. In a single thread, the `expect` calls on `TX.set` and `MIN_LEVEL_LOG.set` cannot fail once that check has passed, and are not modelled. Between threads they can fail, as the line on `OnceLock` atomicity above says.
- The "Logger thread died!" path on a failed send: handler panics and the thread's death are not modelled.
- `chrono`'s `Utc::now()`: the timestamp is a field of the record.
- The `colored` crate's rendering and `.bold()`, `println!` and `eprintln!`: the console handler's output is the `ConsoleLine` value and its printed text, without escape codes and without the trailing newline `println!` adds.
- `enable_ansi_support` on Windows is I/O and is left out.
- `LogHandler` is a Rust trait. Custom handlers are identities, and their effect is the sequence of `handle`/`flush` calls they receive. Their own behaviour and the default no-op `flush` are outside the model.
- `LogLevelTrait`, the procedural macros and the example application are not part of this model. Neither is the commented-out block in `logger/src/lib.rs`.
- Runtime.Logger.InitLoggerWithHandlers: requires that the caller's handlers contain no console handler, because `ConsoleHandler` is private to the crate and callers cannot construct one.
- Console.ConsoleHandleLine: proved only for headings without `]` and for years from 0 on. A `]` in the heading makes the printed line ambiguous to read back; a negative year prints a sign.
- TimeFormat.ConsoleTimestampReadBack: proved only for years from 0 on. A negative year makes `year % 100` negative and its `{:02}` form has a sign.
- Day-of-month validity: a valid timestamp bounds each field separately, and whether the day exists in its month is not modelled.
