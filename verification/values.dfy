/**
 The typed value model: the `Entry` enum of src/msfx/util/json.rs and the
 payload types it borrows from rust_decimal and chrono. The payloads are
 plain records; their text forms are produced and read by the library
 functions of module External.
 */
module Values {
  import Base64

  /** rust_decimal's `Decimal`: the value `mantissa / 10^scale`. */
  datatype DecimalNum = DecimalNum(mantissa: int, scale: nat)

  /** chrono's `NaiveDate`: a calendar date with no time zone. */
  datatype NaiveDate = NaiveDate(year: int, month: nat, day: nat)

  /** chrono's `NaiveTime`: a time of day with no date or time zone. */
  datatype NaiveTime = NaiveTime(hour: nat, minute: nat, second: nat, nano: nat)

  /** chrono's `DateTime<Utc>`: an instant, as seconds and nanoseconds since the Unix epoch. */
  datatype UtcDateTime = UtcDateTime(seconds: int, nanos: nat)

  /**
   chrono's `DateTime<FixedOffset>`, as an RFC 3339 text writes it: the local
   clock reading (seconds since the epoch of that clock, and nanoseconds)
   together with the local clock's offset east of UTC in seconds.
   */
  datatype OffsetDateTime = OffsetDateTime(localSeconds: int, nanos: nat, offsetSeconds: int)

  /** Two offset readings name the same instant when they agree once each offset is taken off. */
  predicate SameInstant(a: OffsetDateTime, b: OffsetDateTime)
  {
    a.localSeconds - a.offsetSeconds == b.localSeconds - b.offsetSeconds && a.nanos == b.nanos
  }

  /**
   `with_timezone(&Utc)`: the same instant read on the UTC clock. The UTC
   reading plus the offset gives back the local reading, and the
   nanoseconds are untouched.
   */
  function ToUtc(t: OffsetDateTime): (u: UtcDateTime)
    ensures u.seconds + t.offsetSeconds == t.localSeconds
    ensures u.nanos == t.nanos
  {
    UtcDateTime(t.localSeconds - t.offsetSeconds, t.nanos)
  }

  /** Converting to UTC forgets exactly the offset: two readings convert alike if and only if they name the same instant. */
  lemma ToUtcKeepsInstant(a: OffsetDateTime, b: OffsetDateTime)
    ensures ToUtc(a) == ToUtc(b) <==> SameInstant(a, b)
  {
  }

  /** A reading already at offset zero keeps its clock values. */
  lemma ToUtcAtZeroOffset(t: OffsetDateTime)
    requires t.offsetSeconds == 0
    ensures ToUtc(t) == UtcDateTime(t.localSeconds, t.nanos)
  {
  }

  /** A typed entry; an `Object` nests further entries under string keys. */
  datatype Entry =
    | Boolean(b: bool)
    | Decimal(d: DecimalNum)
    | Date(date: NaiveDate)
    | Time(time: NaiveTime)
    | Timestamp(instant: UtcDateTime)
    | String(text: string)
    | Object(fields: map<string, Entry>)
    | Binary(bytes: seq<Base64.Byte>)

  /** Entries that are written as a wire string: every variant except `Boolean` and `Object`. */
  predicate IsTextual(e: Entry)
  {
    !e.Boolean? && !e.Object?
  }
}
