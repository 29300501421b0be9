/**
 The library calls the core makes and whose code is not part of this model:
 serde_json's number conversion, text parser and printer, rust_decimal's
 conversion from `f64` and its `to_string`, and chrono's parsing and
 formatting. Each is a field of a `Library` record, which every operation
 takes as a parameter, so that every property proved holds for whatever
 those libraries do, or states the assumption it makes about them.
 */
module External {
  import opened Wrappers
  import opened WireFormat
  import opened Values

  /** An IEEE 754 double, as its bit pattern. */
  datatype F64 = F64(bits: bv64)

  datatype Library = Library(
    /** serde_json `Number::as_f64`. */
    asF64: Number -> Option<F64>,
    /** rust_decimal `Decimal::try_from(f64)`. */
    decimalOfF64: F64 -> Option<DecimalNum>,
    /** chrono `NaiveDate::parse_from_str(s, "%Y-%m-%d")`. */
    parseDate: string -> Option<NaiveDate>,
    /** chrono `NaiveTime::parse_from_str(s, "%H:%M:%S")`. */
    parseTime: string -> Option<NaiveTime>,
    /** chrono `DateTime::parse_from_rfc3339(s)`. */
    parseRfc3339: string -> Option<OffsetDateTime>,
    /** rust_decimal `Decimal::to_string`. */
    decimalText: DecimalNum -> string,
    /** chrono `NaiveDate::format("%Y-%m-%d")`. */
    dateText: NaiveDate -> string,
    /** chrono `NaiveTime::format("%H:%M:%S")`. */
    timeText: NaiveTime -> string,
    /** chrono `DateTime<Utc>::to_rfc3339`. */
    rfc3339Text: UtcDateTime -> string,
    /**
     The parsing half of serde_json `from_str::<HashMap<String, Entry>>`:
     `None` when the text is not well-formed JSON, and otherwise the
     top-level members in text order, each value read as a serde_json
     `Value` (whose own objects are sorted maps).
     */
    parseJson: string -> Option<TopLevel>,
    /** serde_json `to_string`: `None` when the printer reports an error. */
    printJson: Wire -> Option<string>
  )
}
