/**
 Concrete inputs from the repository's JSON demo (src/test/test_json.rs)
 and small documents of the same shape, stated as lemmas about the model.
 Where an input
 reaches chrono or rust_decimal, the lemma states what that library is
 assumed to answer.
 */
module Fixtures {
  import opened Wrappers
  import opened WireFormat
  import opened Values
  import opened External
  import opened Codec
  import opened Container
  import Base64
  import KeyOrder

  /** The bytes of the text "Hello world". */
  const HelloWorld: seq<Base64.Byte> := [72, 101, 108, 108, 111, 32, 119, 111, 114, 108, 100]

  /** The four groups of the base64 text of "Hello world". */
  lemma HelloWorldGroups()
    ensures Base64.Group(72, 101, 108) == "SGVs"
    ensures Base64.Group(108, 111, 32) == "bG8g"
    ensures Base64.Group(119, 111, 114) == "d29y"
    ensures Base64.Encode([108, 100]) == "bGQ="
  {
  }

  /** Eleven bytes are written as three full groups and a padded pair. */
  lemma EncodeEleven(b: seq<Base64.Byte>)
    requires |b| == 11
    ensures Base64.Encode(b) ==
      Base64.Group(b[0], b[1], b[2]) + Base64.Group(b[3], b[4], b[5]) + Base64.Group(b[6], b[7], b[8]) + Base64.Encode([b[9], b[10]])
  {
    var b1, b2 := b[3..], b[6..];
    assert b1[3..] == b2 && b2[3..] == [b[9], b[10]];
    Base64.EncodeLonger(b);
    Base64.EncodeLonger(b1);
    Base64.EncodeLonger(b2);
  }

  /** The base64 text of "Hello world", group by group. */
  lemma HelloWorldEncoding()
    ensures Base64.Encode(HelloWorld) == "SGVsbG8gd29ybGQ="
  {
    EncodeEleven(HelloWorld);
    HelloWorldGroups();
  }

  /** "SGVsbG8gd29ybGQ=" is the base64 text of "Hello world", so it reads as binary. */
  lemma HelloWorldIsBinary(lib: Library)
    ensures ClassifyString("SGVsbG8gd29ybGQ=", lib) == Binary(HelloWorld)
  {
    HelloWorldEncoding();
    Base64.DecodeIffEncoding("SGVsbG8gd29ybGQ=", HelloWorld);
  }

  /** A text with a character outside the base64 alphabet, such as `-`, `:` or a space, is never binary. */
  lemma ForeignCharNotBinary(s: string, i: int, lib: Library)
    requires 0 <= i < |s| && (s[i] == '-' || s[i] == ':' || s[i] == ' ' || s[i] == '.')
    ensures !ClassifyString(s, lib).Binary?
  {
    Base64.RejectsForeignChar(s, i);
  }

  /** The demo's nested profile object. */
  const DemoProfileWire: Wire := Obj(map[
    "created_date" := Str("2024-11-02"),
    "created_time" := Str("14:30:00"),
    "last_login" := Str("2024-11-02T14:30:00Z"),
    "username" := Str("user123")])

  /** The entries the demo's profile is expected to read as. */
  function DemoProfileEntries(date: NaiveDate, time: NaiveTime, stamp: OffsetDateTime): map<string, Entry>
  {
    map[
      "created_date" := Date(date),
      "created_time" := Time(time),
      "last_login" := Timestamp(ToUtc(stamp)),
      "username" := String("user123")]
  }

  /**
   The demo's nested profile: a date, a time and a timestamp contain `-` or
   `:` and so fall through base64 to their own parsers; "user123" (seven
   characters) is not base64 and, if no parser reads it, stays a string.
   */
  lemma DemoProfile(lib: Library, date: NaiveDate, time: NaiveTime, stamp: OffsetDateTime)
    requires lib.parseDate("2024-11-02") == Some(date)
    requires lib.parseDate("14:30:00").None? && lib.parseTime("14:30:00") == Some(time)
    requires var t := "2024-11-02T14:30:00Z";
      lib.parseDate(t).None? && lib.parseTime(t).None? && lib.parseRfc3339(t) == Some(stamp)
    requires var u := "user123";
      lib.parseDate(u).None? && lib.parseTime(u).None? && lib.parseRfc3339(u).None?
    ensures Classify(DemoProfileWire, lib) == Ok(Object(DemoProfileEntries(date, time, stamp)))
  {
    ProfileTextsRead(lib, date, time, stamp);
    ProfileReads("2024-11-02", "14:30:00", "2024-11-02T14:30:00Z", "user123", date, time, stamp, lib);
  }

  /** Each of the profile's four texts on its own. */
  lemma ProfileTextsRead(lib: Library, date: NaiveDate, time: NaiveTime, stamp: OffsetDateTime)
    requires lib.parseDate("2024-11-02") == Some(date)
    requires lib.parseDate("14:30:00").None? && lib.parseTime("14:30:00") == Some(time)
    requires var t := "2024-11-02T14:30:00Z";
      lib.parseDate(t).None? && lib.parseTime(t).None? && lib.parseRfc3339(t) == Some(stamp)
    requires var u := "user123";
      lib.parseDate(u).None? && lib.parseTime(u).None? && lib.parseRfc3339(u).None?
    ensures ClassifyString("2024-11-02", lib) == Date(date)
    ensures ClassifyString("14:30:00", lib) == Time(time)
    ensures ClassifyString("2024-11-02T14:30:00Z", lib) == Timestamp(ToUtc(stamp))
    ensures ClassifyString("user123", lib) == String("user123")
  {
    ForeignCharNotBinary("2024-11-02", 4, lib);
    ForeignCharNotBinary("14:30:00", 2, lib);
    ForeignCharNotBinary("2024-11-02T14:30:00Z", 4, lib);
    Base64.RejectsRaggedLength("user123");
  }

  /** The profile object, with its four texts left open: it reads as soon as each text does. */
  lemma ProfileReads(d: string, t: string, l: string, u: string, date: NaiveDate, time: NaiveTime, stamp: OffsetDateTime, lib: Library)
    requires ClassifyString(d, lib) == Date(date) && ClassifyString(t, lib) == Time(time)
    requires ClassifyString(l, lib) == Timestamp(ToUtc(stamp)) && ClassifyString(u, lib) == String(u)
    ensures
      Classify(Obj(map["created_date" := Str(d), "created_time" := Str(t), "last_login" := Str(l), "username" := Str(u)]), lib)
      == Ok(Object(map[
        "created_date" := Date(date), "created_time" := Time(time),
        "last_login" := Timestamp(ToUtc(stamp)), "username" := String(u)]))
  {
    var m0: map<string, Wire>, f0: map<string, Entry> := map[], map[];
    ClassifyObject(m0, f0, lib);
    ClassifyUpdate(m0, f0, "created_date", Str(d), Date(date), lib);
    var m1, f1 := m0["created_date" := Str(d)], f0["created_date" := Date(date)];
    ClassifyUpdate(m1, f1, "created_time", Str(t), Time(time), lib);
    var m2, f2 := m1["created_time" := Str(t)], f1["created_time" := Time(time)];
    ClassifyUpdate(m2, f2, "last_login", Str(l), Timestamp(ToUtc(stamp)), lib);
    var m3, f3 := m2["last_login" := Str(l)], f2["last_login" := Timestamp(ToUtc(stamp))];
    ClassifyUpdate(m3, f3, "username", Str(u), String(u), lib);
  }

  /** The demo's note "This is a test" contains spaces, so it is not base64 and, if no parser reads it, stays a string. */
  lemma DemoNoteStaysText(lib: Library)
    requires var t := "This is a test";
      lib.parseDate(t).None? && lib.parseTime(t).None? && lib.parseRfc3339(t).None?
    ensures Classify(Str("This is a test"), lib) == Ok(String("This is a test"))
  {
    ForeignCharNotBinary("This is a test", 4, lib);
  }

  /** The demo then replaces the note: `get` sees the new entry and no other key changes. */
  lemma DemoNoteUpdated(j: Json)
    ensures Get(Set(j, "notes", String("Updated note")), "notes") == Some(String("Updated note"))
    ensures Get(Set(j, "notes", String("Updated note")), "file_data") == Get(j, "file_data")
  {
  }

  /** The top-level members of the demo document, in the order its text writes them. */
  const DemoMembers: seq<(string, Wire)> := [
    ("is_active", Bool(true)),
    ("balance", Num(Number("1234.5678"))),
    ("profile", DemoProfileWire),
    ("notes", Str("This is a test")),
    ("file_data", Str("SGVsbG8gd29ybGQ="))]

  /** The entries the demo document is expected to read as. */
  function DemoEntries(d: DecimalNum, date: NaiveDate, time: NaiveTime, stamp: OffsetDateTime): map<string, Entry>
  {
    map[
      "is_active" := Boolean(true),
      "balance" := Decimal(d),
      "profile" := Object(DemoProfileEntries(date, time, stamp)),
      "notes" := String("This is a test"),
      "file_data" := Binary(HelloWorld)]
  }

  /**
   What the demo document needs the libraries to answer: serde_json and
   rust_decimal turn 1234.5678 into the decimal `d`, chrono reads the three
   profile texts as a date, a time and a timestamp, and no chrono parser
   reads "user123" or "This is a test".
   */
  predicate DemoLibrary(lib: Library, f: F64, d: DecimalNum, date: NaiveDate, time: NaiveTime, stamp: OffsetDateTime)
  {
    && lib.asF64(Number("1234.5678")) == Some(f) && lib.decimalOfF64(f) == Some(d)
    && lib.parseDate("2024-11-02") == Some(date)
    && lib.parseDate("14:30:00").None? && lib.parseTime("14:30:00") == Some(time)
    && (var t := "2024-11-02T14:30:00Z";
        lib.parseDate(t).None? && lib.parseTime(t).None? && lib.parseRfc3339(t) == Some(stamp))
    && (var u := "user123";
        lib.parseDate(u).None? && lib.parseTime(u).None? && lib.parseRfc3339(u).None?)
    && (var t := "This is a test";
        lib.parseDate(t).None? && lib.parseTime(t).None? && lib.parseRfc3339(t).None?)
  }

  /** The demo's five members read, in text order, as a boolean, a decimal, the nested profile, a string and binary data. */
  lemma DemoMembersRead(lib: Library, f: F64, d: DecimalNum, date: NaiveDate, time: NaiveTime, stamp: OffsetDateTime)
    requires DemoLibrary(lib, f, d, date, time, stamp)
    ensures ReadMembers(DemoMembers, lib) == Ok(DemoEntries(d, date, time, stamp))
  {
    DemoProfile(lib, date, time, stamp);
    DemoNoteStaysText(lib);
    HelloWorldIsBinary(lib);
    FiveKeyMembers(Num(Number("1234.5678")), DemoProfileWire, "This is a test", "SGVsbG8gd29ybGQ=",
                   d, DemoProfileEntries(date, time, stamp), HelloWorld, lib);
  }

  /** Reading the whole demo document from any text that parses into its members. */
  lemma DemoDocumentReads(text: string, lib: Library, f: F64, d: DecimalNum,
                          date: NaiveDate, time: NaiveTime, stamp: OffsetDateTime)
    requires lib.parseJson(text) == Some(Members(DemoMembers))
    requires DemoLibrary(lib, f, d, date, time, stamp)
    ensures Deserialize(text, lib) == Ok(Json(DemoEntries(d, date, time, stamp)))
  {
    DemoMembersRead(lib, f, d, date, time, stamp);
    TextReads(text, DemoMembers, DemoEntries(d, date, time, stamp), lib);
  }

  /** A text whose members read as `entries` deserializes to them. */
  lemma TextReads(text: string, ms: seq<(string, Wire)>, entries: map<string, Entry>, lib: Library)
    requires lib.parseJson(text) == Some(Members(ms)) && ReadMembers(ms, lib) == Ok(entries)
    ensures Deserialize(text, lib) == Ok(Json(entries))
  {
  }

  /**
   The demo's lookups in the document it read: `balance` holds the decimal
   and `file_data` the bytes of "Hello world", and removing `file_data`
   hands those bytes back.
   */
  lemma DemoLookups(d: DecimalNum, date: NaiveDate, time: NaiveTime, stamp: OffsetDateTime)
    ensures var j := Json(DemoEntries(d, date, time, stamp));
      && Get(j, "balance") == Some(Decimal(d))
      && Get(j, "file_data") == Some(Binary(HelloWorld))
      && Remove(j, "file_data").1 == Some(Binary(HelloWorld))
  {
  }

  /** The five-key demo document, with its values left open: it reads as soon as each value does. */
  lemma FiveKeyMembers(balance: Wire, profile: Wire, notes: string, data: string,
                       d: DecimalNum, fields: map<string, Entry>, bytes: seq<Base64.Byte>, lib: Library)
    requires Classify(balance, lib) == Ok(Decimal(d))
    requires Classify(profile, lib) == Ok(Object(fields))
    requires Classify(Str(notes), lib) == Ok(String(notes))
    requires ClassifyString(data, lib) == Binary(bytes)
    ensures ReadMembers([("is_active", Bool(true)), ("balance", balance), ("profile", profile),
                         ("notes", Str(notes)), ("file_data", Str(data))], lib)
      == Ok(map["is_active" := Boolean(true), "balance" := Decimal(d), "profile" := Object(fields),
                "notes" := String(notes), "file_data" := Binary(bytes)])
  {
    var m0: seq<(string, Wire)>, e0: map<string, Entry> := [], map[];
    var m1, e1 := m0 + [("is_active", Bool(true))], e0["is_active" := Boolean(true)];
    ReadOneMore(m0, e0, "is_active", Bool(true), Boolean(true), lib);
    var m2, e2 := m1 + [("balance", balance)], e1["balance" := Decimal(d)];
    ReadOneMore(m1, e1, "balance", balance, Decimal(d), lib);
    var m3, e3 := m2 + [("profile", profile)], e2["profile" := Object(fields)];
    ReadOneMore(m2, e2, "profile", profile, Object(fields), lib);
    var m4, e4 := m3 + [("notes", Str(notes))], e3["notes" := String(notes)];
    ReadOneMore(m3, e3, "notes", Str(notes), String(notes), lib);
    var m5, e5 := m4 + [("file_data", Str(data))], e4["file_data" := Binary(bytes)];
    ReadOneMore(m4, e4, "file_data", Str(data), Binary(bytes), lib);
    assert m5 == [("is_active", Bool(true)), ("balance", balance), ("profile", profile),
                  ("notes", Str(notes)), ("file_data", Str(data))];
  }

  /** Appending a member that classifies to members that read adds its entry, replacing any earlier one. */
  lemma ReadOneMore(ms: seq<(string, Wire)>, read: map<string, Entry>, key: string, w: Wire, e: Entry, lib: Library)
    requires ReadMembers(ms, lib) == Ok(read) && Classify(w, lib) == Ok(e)
    ensures ReadMembers(ms + [(key, w)], lib) == Ok(read[key := e])
  {
    assert (ms + [(key, w)])[..|ms|] == ms;
  }

  /**
   The demo's balance 1234.5678 reads as a decimal and is written back as
   the wire string "1234.5678", never as a wire number; that string (it has
   a `.`) is not base64 and, if no parser reads it, comes back as a string.
   */
  lemma BalanceBecomesText(lib: Library, f: F64, d: DecimalNum)
    requires lib.asF64(Number("1234.5678")) == Some(f) && lib.decimalOfF64(f) == Some(d)
    requires lib.decimalText(d) == "1234.5678"
    requires var t := "1234.5678";
      lib.parseDate(t).None? && lib.parseTime(t).None? && lib.parseRfc3339(t).None?
    ensures Classify(Num(Number("1234.5678")), lib) == Ok(Decimal(d))
    ensures Encode(Decimal(d), lib) == Str("1234.5678")
    ensures Classify(Encode(Decimal(d), lib), lib) == Ok(String("1234.5678"))
  {
    ForeignCharNotBinary("1234.5678", 4, lib);
  }

  /**
   A decimal whose text is all base64 digits in groups of four, such as
   1234, comes back from a round trip as binary data: "1234" decodes to the
   bytes D7 6D F8.
   */
  lemma WholeDecimalBecomesBinary(lib: Library, d: DecimalNum)
    requires lib.decimalText(d) == "1234"
    ensures Classify(Encode(Decimal(d), lib), lib) == Ok(Binary([215, 109, 248]))
  {
    assert Base64.Encode([215, 109, 248]) == "1234";
    Base64.DecodeIffEncoding("1234", [215, 109, 248]);
  }

  /** The empty string is the base64 text of no bytes, so it reads as empty binary data, not as a string. */
  lemma EmptyStringIsBinary(lib: Library)
    ensures ClassifyString("", lib) == Binary([])
  {
  }

  /** A null or an array anywhere in a document makes the whole document fail. */
  lemma NullMemberFailsDocument(lib: Library)
    ensures ReadMembers([("a", Bool(true)), ("b", Null)], lib) == Err(Unsupported)
    ensures ReadMembers([("c", Arr([]))], lib) == Err(Unsupported)
  {
    var ms := [("a", Bool(true)), ("b", Null)];
    assert ms[..1] == [("a", Bool(true))];
    assert [("c", Arr([]))][..0] == [];
  }

  /**
   A later member with the same key replaces an earlier one, but only once
   the earlier one has read: a first member that fails ends the read.
   */
  lemma DuplicateKeys(lib: Library)
    ensures ReadMembers([("a", Bool(false)), ("a", Bool(true))], lib) == Ok(map["a" := Boolean(true)])
    ensures ReadMembers([("a", Null), ("a", Bool(true))], lib) == Err(Unsupported)
  {
    var good := [("a", Bool(false)), ("a", Bool(true))];
    assert good[..1] == [("a", Bool(false))];
    assert ReadMembers(good[..1], lib) == Ok(map["a" := Boolean(false)]);
    assert map["a" := Boolean(false)]["a" := Boolean(true)] == map["a" := Boolean(true)];
    var bad := [("a", Null), ("a", Bool(true))];
    assert bad[..1] == [("a", Null)];
  }

  /**
   A nested object reports its first failing member in key order, the top
   level its first failing member in text order. With a number `n` that
   converts to `f64` but not to a decimal, the same two members report the
   decimal error nested, and the null's error at the top level when the
   text writes the null first.
   */
  lemma NestedAndTopLevelOrders(n: Number, f: F64, lib: Library)
    requires lib.asF64(n) == Some(f) && lib.decimalOfF64(f).None?
    ensures Classify(Obj(map["a" := Num(n), "b" := Null]), lib) == Err(InvalidDecimal)
    ensures ReadMembers([("b", Null), ("a", Num(n))], lib) == Err(Unsupported)
  {
    var m := map["a" := Num(n), "b" := Null];
    assert Classify(m["a"], lib) == Err(InvalidDecimal);
    assert Classify(m["b"], lib) == Err(Unsupported);
    assert KeyOrder.Below("a", "b");
    KeyOrder.LeastIsFirst({"a", "b"}, "a");
    var results := map k | k in m :: Classify(m[k], lib);
    assert (set k | k in results && results[k].Err?) == {"a", "b"};
    var ms := [("b", Null), ("a", Num(n))];
    assert ms[..1] == [("b", Null)];
  }
}
