/** The log record handed from producers to the handlers (logger/src/sub_func.rs, `LogRecord`). */
module Records {

  /** Rust's `i32`: the type of a record's level and of the minimum level. */
  type Int32 = x: int | -0x8000_0000 <= x < 0x8000_0000

  /**
   * The calendar fields of a `DateTime<Utc>` that the logger reads.
   * `year` is chrono's signed year; the other fields are its unsigned accessors.
   */
  datatype Timestamp = Timestamp(year: Int32, month: nat, day: nat, hour: nat, minute: nat, second: nat)

  /** The ranges chrono guarantees for a timestamp's fields. */
  predicate ValidTimestamp(t: Timestamp)
  {
    1 <= t.month <= 12 && 1 <= t.day <= 31 && t.hour < 24 && t.minute < 60 && t.second < 60
  }

  /**
   * One log line as sent through the channel: the colour escape and heading of its
   * log kind, the message, the creation instant and the level.
   */
  datatype LogRecord = LogRecord(color: string, heading: string, msg: string, timestamp: Timestamp, lvl: Int32)
}
