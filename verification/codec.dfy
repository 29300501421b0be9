/**
 The two directions between the untyped wire tree and typed entries:
 `Classify` (the `Deserialize` impl for `Entry`) infers an entry from a
 wire value in a fixed priority order, and `Encode` (the `Serialize` impl)
 writes an entry back as a wire value.
 */
module Codec {
  import opened Wrappers
  import opened WireFormat
  import opened Values
  import opened External
  import Base64
  import KeyOrder

  /** Why a wire value could not be classified. */
  datatype ClassifyError =
    | InvalidNumber   // "Invalid number type": the number has no f64 form
    | InvalidDecimal  // "Invalid decimal type": the f64 has no Decimal form
    | Unsupported     // "Unsupported JSON type": null or an array

  /** A string no rule before the plain-string fallback accepts. */
  predicate IsPlain(s: string, lib: Library)
  {
    && !Base64.IsBase64(s)
    && lib.parseDate(s).None?
    && lib.parseTime(s).None?
    && lib.parseRfc3339(s).None?
  }

  /** Whether classification succeeds, stated leaf by leaf without running it. */
  predicate Classifiable(w: Wire, lib: Library)
    decreases w
  {
    match w
    case Bool(_) => true
    case Num(n) => lib.asF64(n).Some? && lib.decimalOfF64(lib.asF64(n).value).Some?
    case Str(_) => true
    case Obj(m) => forall k :: k in m ==> Classifiable(m[k], lib)
    case _ => false
  }

  /** `e` is an error that some leaf of `w` raises on its own. */
  predicate LeafFails(w: Wire, e: ClassifyError, lib: Library)
    decreases w
  {
    match w
    case Bool(_) => false
    case Num(n) =>
      if lib.asF64(n).None? then e == InvalidNumber
      else lib.decimalOfF64(lib.asF64(n).value).None? && e == InvalidDecimal
    case Str(_) => false
    case Obj(m) => exists k :: k in m && LeafFails(m[k], e, lib)
    case _ => e == Unsupported
  }

  /**
   A wire value and an entry have the same shape: booleans are the same
   boolean, objects have the same keys with members of the same shape, a
   wire number stands for a decimal and a wire string for any other
   textual entry.
   */
  predicate Mirrors(w: Wire, e: Entry)
    decreases w
  {
    match w
    case Bool(b) => e == Boolean(b)
    case Num(_) => e.Decimal?
    case Str(_) => IsTextual(e)
    case Obj(m) =>
      && e.Object?
      && e.fields.Keys == m.Keys
      && forall k :: k in m ==> Mirrors(m[k], e.fields[k])
    case _ => false
  }

  /** Classification of a wire number: f64 first, then Decimal; a failure is an error, never a string. */
  function ClassifyNumber(n: Number, lib: Library): (r: Result<Entry, ClassifyError>)
    ensures r.Ok? ==> r.value.Decimal? && lib.asF64(n).Some? && lib.decimalOfF64(lib.asF64(n).value) == Some(r.value.d)
    ensures r.Ok? <==> Classifiable(Num(n), lib)
    ensures r.Err? ==> LeafFails(Num(n), r.error, lib)
  {
    match lib.asF64(n)
    case None => Err(InvalidNumber)
    case Some(f) =>
      match lib.decimalOfF64(f)
      case None => Err(InvalidDecimal)
      case Some(d) => Ok(Decimal(d))
  }

  /**
   Classification of a wire string: base64 first, then date, time and RFC 3339
   timestamp, then the text itself. It never fails.
   */
  function ClassifyString(s: string, lib: Library): (e: Entry)
    ensures IsTextual(e) && !e.Decimal?
    ensures e.Binary? <==> Base64.IsBase64(s)
    ensures e.Binary? ==> Base64.Encode(e.bytes) == s
    ensures e.String? <==> IsPlain(s, lib)
    ensures e.String? ==> e.text == s
  {
    match Base64.Decode(s)
    case Some(bytes) =>
      Base64.EncodeDecode(s, bytes);
      Binary(bytes)
    case None =>
      match lib.parseDate(s)
      case Some(date) => Date(date)
      case None =>
        match lib.parseTime(s)
        case Some(time) => Time(time)
        case None =>
          match lib.parseRfc3339(s)
          case Some(stamp) => Timestamp(ToUtc(stamp))
          case None => String(s)
  }

  /**
   Infers the entry a wire value stands for. An object succeeds only when
   every member does, and then keeps exactly its keys; otherwise it fails
   with the error of its first failing member in key order.
   */
  function Classify(w: Wire, lib: Library): (r: Result<Entry, ClassifyError>)
    ensures r.Ok? <==> Classifiable(w, lib)
    ensures r.Ok? ==> Mirrors(w, r.value)
    ensures r.Err? ==> LeafFails(w, r.error, lib)
    decreases w
  {
    match w
    case Bool(b) => Ok(Boolean(b))
    case Num(n) => ClassifyNumber(n, lib)
    case Str(s) => Ok(ClassifyString(s, lib))
    case Obj(m) =>
      var results := map k | k in m :: Classify(m[k], lib);
      if forall k :: k in results ==> results[k].Ok? then
        assert forall k :: k in m ==> Classifiable(m[k], lib) by {
          forall k | k in m ensures Classifiable(m[k], lib) {
            assert results[k].Ok?;
          }
        }
        Ok(Object(map k | k in results :: results[k].value))
      else
        var bad :| bad in results && results[bad].Err?;
        var failing := set k | k in results && results[k].Err?;
        assert bad in failing;
        var first := KeyOrder.Least(failing);
        Err(results[first].error)
    case _ => Err(Unsupported)
  }

  /** Writes an entry as a wire value; every variant except `Boolean` and `Object` becomes a string. */
  function Encode(e: Entry, lib: Library): (w: Wire)
    ensures StringTree(w)
    ensures Mirrors(w, e)
    decreases e
  {
    match e
    case Boolean(b) => Bool(b)
    case Decimal(d) => Str(lib.decimalText(d))
    case Date(date) => Str(lib.dateText(date))
    case Time(time) => Str(lib.timeText(time))
    case Timestamp(instant) => Str(lib.rfc3339Text(instant))
    case String(s) => Str(s)
    case Binary(bytes) => Str(Base64.Encode(bytes))
    case Object(fields) => Obj(map k | k in fields :: Encode(fields[k], lib))
  }

  /** An object classifies member by member: with the same keys, each member classified on its own. */
  lemma ClassifyObject(m: map<string, Wire>, fields: map<string, Entry>, lib: Library)
    requires m.Keys == fields.Keys
    requires forall k :: k in m ==> Classify(m[k], lib) == Ok(fields[k])
    ensures Classify(Obj(m), lib) == Ok(Object(fields))
  {
    var results := map k | k in m :: Classify(m[k], lib);
    assert (map k | k in results :: results[k].value) == fields;
  }

  /** Conversely, an object that classifies to some fields classifies each member to its field. */
  lemma ObjectMemberClassifies(m: map<string, Wire>, fields: map<string, Entry>, k: string, lib: Library)
    requires Classify(Obj(m), lib) == Ok(Object(fields)) && k in m
    ensures k in fields && Classify(m[k], lib) == Ok(fields[k])
  {
    var results := map k | k in m :: Classify(m[k], lib);
    assert results[k].Ok?;
  }

  /** Adding a member that classifies to an object that classifies adds its entry to the result. */
  lemma ClassifyUpdate(m: map<string, Wire>, fields: map<string, Entry>, k: string, w: Wire, e: Entry, lib: Library)
    requires Classify(Obj(m), lib) == Ok(Object(fields))
    requires Classify(w, lib) == Ok(e)
    ensures Classify(Obj(m[k := w]), lib) == Ok(Object(fields[k := e]))
  {
    forall k' | k' in m ensures Classify(m[k'], lib) == Ok(fields[k']) {
      ObjectMemberClassifies(m, fields, k', lib);
    }
    ClassifyObject(m[k := w], fields[k := e], lib);
  }

  /**
   An object that fails reports the error of its first failing member in key
   order: that member fails with the same error and every member before it
   classifies.
   */
  lemma ObjectReportsFirstFailure(m: map<string, Wire>, lib: Library)
    requires Classify(Obj(m), lib).Err?
    ensures exists k :: && k in m
                        && Classify(m[k], lib) == Classify(Obj(m), lib)
                        && forall o :: o in m && KeyOrder.Below(o, k) ==> Classify(m[o], lib).Ok?
  {
    var results := map k | k in m :: Classify(m[k], lib);
    var failing := set k | k in results && results[k].Err?;
    assert failing != {};
    var first := KeyOrder.Least(failing);
    assert Classify(m[first], lib) == Classify(Obj(m), lib);
    forall o | o in m && KeyOrder.Below(o, first) ensures Classify(m[o], lib).Ok? {
      if results[o].Err? {
        assert o in failing;
        KeyOrder.BelowAsymmetric();
      }
    }
  }

  /** One member that fails makes the whole object fail. */
  lemma ObjectFailsWithMember(m: map<string, Wire>, k: string, lib: Library)
    requires k in m && Classify(m[k], lib).Err?
    ensures Classify(Obj(m), lib).Err?
  {
  }
}
