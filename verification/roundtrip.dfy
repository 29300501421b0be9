/**
 What survives `Encode` followed by `Classify`. Booleans and binary data
 always come back; decimals never do (they come back as whatever their text
 classifies as); dates, times, timestamps and strings come back exactly when
 their text is read back by the rule that produced them and by no earlier
 rule; an object comes back exactly when all its members do.
 */
module RoundTrip {
  import opened Wrappers
  import opened WireFormat
  import opened Values
  import opened External
  import opened Codec
  import Base64

  /** The condition, leaf by leaf, under which an entry survives a round trip. */
  predicate Stable(e: Entry, lib: Library)
    decreases e
  {
    match e
    case Boolean(_) => true
    case Binary(_) => true
    case Decimal(_) => false
    case Date(date) =>
      var t := lib.dateText(date);
      !Base64.IsBase64(t) && lib.parseDate(t) == Some(date)
    case Time(time) =>
      var t := lib.timeText(time);
      !Base64.IsBase64(t) && lib.parseDate(t).None? && lib.parseTime(t) == Some(time)
    case Timestamp(instant) =>
      var t := lib.rfc3339Text(instant);
      && !Base64.IsBase64(t) && lib.parseDate(t).None? && lib.parseTime(t).None?
      && lib.parseRfc3339(t).Some? && ToUtc(lib.parseRfc3339(t).value) == instant
    case String(s) => IsPlain(s, lib)
    case Object(fields) => forall k :: k in fields ==> Stable(fields[k], lib)
  }

  /** The order in which a wire string's readings are tried: base64, date, time, timestamp, text. */
  lemma StringRuleOrder(s: string, lib: Library)
    ensures Base64.IsBase64(s) ==> ClassifyString(s, lib) == Binary(Base64.Decode(s).value)
    ensures !Base64.IsBase64(s) && lib.parseDate(s).Some? ==>
              ClassifyString(s, lib) == Date(lib.parseDate(s).value)
    ensures !Base64.IsBase64(s) && lib.parseDate(s).None? && lib.parseTime(s).Some? ==>
              ClassifyString(s, lib) == Time(lib.parseTime(s).value)
    ensures !Base64.IsBase64(s) && lib.parseDate(s).None? && lib.parseTime(s).None? && lib.parseRfc3339(s).Some? ==>
              ClassifyString(s, lib) == Timestamp(ToUtc(lib.parseRfc3339(s).value))
    ensures IsPlain(s, lib) ==> ClassifyString(s, lib) == String(s)
  {
  }

  /** Encoding then classifying gives back the entry exactly when the entry is `Stable`. */
  lemma {:induction false} ClassifyEncode(e: Entry, lib: Library)
    ensures Classify(Encode(e, lib), lib) == Ok(e) <==> Stable(e, lib)
    decreases e
  {
    match e
    case Binary(bytes) =>
      Base64.DecodeEncode(bytes);
    case Object(fields) =>
      forall k | k in fields {
        ClassifyEncode(fields[k], lib);
      }
      ClassifyEncodeObject(fields, lib);
    case _ =>
  }

  /** An object comes back exactly when every member does. */
  lemma ClassifyEncodeObject(fields: map<string, Entry>, lib: Library)
    requires forall k :: k in fields ==> (Classify(Encode(fields[k], lib), lib) == Ok(fields[k]) <==> Stable(fields[k], lib))
    ensures Classify(Encode(Object(fields), lib), lib) == Ok(Object(fields)) <==> Stable(Object(fields), lib)
  {
    var m := Encode(Object(fields), lib).members;
    if Stable(Object(fields), lib) {
      ClassifyObject(m, fields, lib);
    } else {
      var k :| k in fields && !Stable(fields[k], lib);
      if Classify(Obj(m), lib) == Ok(Object(fields)) {
        ObjectMemberClassifies(m, fields, k, lib);
        assert false;
      }
    }
  }

  /** A boolean always comes back. */
  lemma BooleanRoundTrip(b: bool, lib: Library)
    ensures Classify(Encode(Boolean(b), lib), lib) == Ok(Boolean(b))
  {
  }

  /** Binary data always comes back: the base64 text decodes to the same bytes. */
  lemma BinaryRoundTrip(bytes: seq<Base64.Byte>, lib: Library)
    ensures Classify(Encode(Binary(bytes), lib), lib) == Ok(Binary(bytes))
  {
    ClassifyEncode(Binary(bytes), lib);
  }

  /**
   A decimal is written as its text and comes back as whatever that text
   classifies as, which is never a decimal.
   */
  lemma DecimalReturnsAsText(d: DecimalNum, lib: Library)
    ensures Encode(Decimal(d), lib) == Str(lib.decimalText(d))
    ensures Classify(Encode(Decimal(d), lib), lib) == Ok(ClassifyString(lib.decimalText(d), lib))
    ensures !Classify(Encode(Decimal(d), lib), lib).value.Decimal?
  {
  }

  /** A tree of booleans, strings and objects always classifies. */
  lemma {:induction false} StringTreeClassifies(w: Wire, lib: Library)
    requires StringTree(w)
    ensures Classifiable(w, lib)
    decreases w
  {
    match w
    case Obj(m) =>
      forall k | k in m {
        StringTreeClassifies(m[k], lib);
      }
    case _ =>
  }

  /** Whatever the encoder writes classifies again without error. */
  lemma EncodedClassifies(e: Entry, lib: Library)
    ensures Classify(Encode(e, lib), lib).Ok?
  {
    StringTreeClassifies(Encode(e, lib), lib);
  }

  /**
   The assumption about chrono under which one round trip is enough: a date,
   time or timestamp that was parsed from some text formats to a text that
   is read back as the same value by the same rule.
   */
  ghost predicate ParsedValuesReformat(lib: Library)
  {
    && (forall s :: lib.parseDate(s).Some? ==> Stable(Date(lib.parseDate(s).value), lib))
    && (forall s :: lib.parseTime(s).Some? ==> Stable(Time(lib.parseTime(s).value), lib))
    && (forall s :: lib.parseRfc3339(s).Some? ==> Stable(Timestamp(ToUtc(lib.parseRfc3339(s).value)), lib))
  }

  /** Every entry a wire string classifies as is stable (given the chrono assumption). */
  lemma ClassifiedStringIsStable(s: string, lib: Library)
    requires ParsedValuesReformat(lib)
    ensures Stable(ClassifyString(s, lib), lib)
  {
  }

  /** Every entry that classification produces is stable (given the chrono assumption). */
  lemma {:induction false} ClassifiedIsStable(w: Wire, lib: Library)
    requires ParsedValuesReformat(lib) && StringTree(w)
    ensures Classify(w, lib).Ok? && Stable(Classify(w, lib).value, lib)
    decreases w
  {
    StringTreeClassifies(w, lib);
    match w
    case Str(s) =>
      ClassifiedStringIsStable(s, lib);
    case Obj(m) =>
      forall k | k in m {
        ClassifiedIsStable(m[k], lib);
      }
    case _ =>
  }

  /**
   One round trip is enough: whatever comes back from encoding and
   classifying an entry comes back unchanged from every later round trip.
   In particular a decimal, once written as text, stays text.
   */
  lemma SecondRoundTripIsIdentity(e: Entry, lib: Library)
    requires ParsedValuesReformat(lib)
    ensures Classify(Encode(e, lib), lib).Ok?
    ensures var once := Classify(Encode(e, lib), lib).value;
            Classify(Encode(once, lib), lib) == Ok(once)
  {
    ClassifiedIsStable(Encode(e, lib), lib);
    ClassifyEncode(Classify(Encode(e, lib), lib).value, lib);
  }
}
