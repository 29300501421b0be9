/**
 The `JSON` struct: a map from keys to entries, read and written one key at
 a time, and converted to and from JSON text as a whole document whose top
 level must be an object.
 */
module Container {
  import opened Wrappers
  import opened WireFormat
  import opened Values
  import opened External
  import opened Codec
  import opened RoundTrip

  datatype Json = Json(entries: map<string, Entry>)

  /** Why a whole document could not be read or written. */
  datatype JsonError =
    | Malformed                       // the text is not JSON
    | ExpectedMap                     // the text is JSON, but not an object
    | Invalid(cause: ClassifyError)   // a member could not be classified
    | RenderFailed                    // the printer reported an error

  /** `get`: the entry under `key` if the container holds one, and nothing otherwise. */
  function Get(j: Json, key: string): (r: Option<Entry>)
    ensures r.Some? <==> key in j.entries
    ensures r.Some? ==> j.entries[key] == r.value
  {
    if key in j.entries then Some(j.entries[key]) else None
  }

  /** `new`: a container with no entries. */
  function New(): (j: Json)
    ensures forall key :: Get(j, key).None?
  {
    Json(map[])
  }

  /** `set`: `key` now holds `entry`; every other key is untouched. */
  function Set(j: Json, key: string, entry: Entry): (j': Json)
    ensures Get(j', key) == Some(entry)
    ensures forall other :: other != key ==> Get(j', other) == Get(j, other)
  {
    Json(j.entries[key := entry])
  }

  /** `remove`: the entry `key` held, if any, and the container without it; every other key is untouched. */
  function Remove(j: Json, key: string): (result: (Json, Option<Entry>))
    ensures result.1 == Get(j, key)
    ensures Get(result.0, key).None?
    ensures forall other :: other != key ==> Get(result.0, other) == Get(j, other)
  {
    (Json(j.entries - {key}), Get(j, key))
  }

  /**
   The value of the last member named `key`: reading into a map inserts the
   members in text order, so a later duplicate replaces an earlier one.
   */
  function Latest(ms: seq<(string, Wire)>, key: string): (r: Option<Wire>)
    ensures r.Some? <==> exists i :: 0 <= i < |ms| && ms[i].0 == key
    decreases |ms|
  {
    if |ms| == 0 then None
    else if ms[|ms| - 1].0 == key then Some(ms[|ms| - 1].1)
    else Latest(ms[..|ms| - 1], key)
  }

  /** The value `Latest` finds belongs to a member named `key` after which no member has that name. */
  lemma {:induction false} LatestIsLast(ms: seq<(string, Wire)>, key: string)
    requires Latest(ms, key).Some?
    ensures exists i :: && 0 <= i < |ms| && ms[i] == (key, Latest(ms, key).value)
                        && forall k :: i < k < |ms| ==> ms[k].0 != key
    decreases |ms|
  {
    var n := |ms| - 1;
    if ms[n].0 != key {
      var front := ms[..n];
      LatestIsLast(front, key);
      var i :| && 0 <= i < |front| && front[i] == (key, Latest(front, key).value)
               && forall k :: i < k < |front| ==> front[k].0 != key;
      assert ms[i] == front[i];
      assert forall k :: i < k < |ms| ==> ms[k].0 != key by {
        forall k | i < k < |ms| ensures ms[k].0 != key {
          if k < n { assert ms[k] == front[k]; }
        }
      }
    } else {
      assert ms[n] == (key, Latest(ms, key).value);
    }
  }

  /** Every member value classifies. */
  predicate AllClassify(ms: seq<(string, Wire)>, lib: Library)
  {
    forall i :: 0 <= i < |ms| ==> Classify(ms[i].1, lib).Ok?
  }

  /** Member `i` is the first, in text order, that fails to classify, and it fails with `e`. */
  predicate FirstFailure(ms: seq<(string, Wire)>, i: int, e: ClassifyError, lib: Library)
  {
    && 0 <= i < |ms|
    && Classify(ms[i].1, lib) == Err(e)
    && forall k :: 0 <= k < i ==> Classify(ms[k].1, lib).Ok?
  }

  /** `entries` has exactly the keys listed, each holding the entry its last member classifies as. */
  ghost predicate ReadsAs(ms: seq<(string, Wire)>, entries: map<string, Entry>, lib: Library)
  {
    && (forall key :: key in entries <==> Latest(ms, key).Some?)
    && (forall key :: key in entries ==> Classify(Latest(ms, key).value, lib) == Ok(entries[key]))
  }

  /**
   Reads the top-level members in text order, as the map reader does: each
   value is classified when it is reached, the first failure ends the read,
   and a later member replaces an earlier one with the same key.
   */
  function ReadMembers(ms: seq<(string, Wire)>, lib: Library): (r: Result<map<string, Entry>, ClassifyError>)
    ensures r.Ok? <==> AllClassify(ms, lib)
    ensures r.Ok? ==> ReadsAs(ms, r.value, lib)
    ensures r.Err? ==> exists i :: FirstFailure(ms, i, r.error, lib)
    decreases |ms|
  {
    if |ms| == 0 then Ok(map[])
    else
      var front, last := ms[..|ms| - 1], ms[|ms| - 1];
      assert forall k :: 0 <= k < |front| ==> front[k] == ms[k];
      match ReadMembers(front, lib)
      case Err(e) =>
        var i :| FirstFailure(front, i, e, lib);
        assert FirstFailure(ms, i, e, lib);
        Err(e)
      case Ok(read) =>
        match Classify(last.1, lib)
        case Err(e) =>
          assert FirstFailure(ms, |ms| - 1, e, lib);
          Err(e)
        case Ok(entry) => Ok(read[last.0 := entry])
  }

  /**
   `deserialize`: parses JSON text into the top-level members and reads
   them. Text that is not JSON, or JSON that is not an object, fails
   before any member is read; otherwise the first member, in text order,
   that fails to classify decides the error.
   */
  function Deserialize(text: string, lib: Library): (r: Result<Json, JsonError>)
    ensures lib.parseJson(text).None? ==> r == Err(Malformed)
    ensures lib.parseJson(text) == Some(NotAnObject) ==> r == Err(ExpectedMap)
    ensures lib.parseJson(text).Some? && lib.parseJson(text).value.Members? ==>
      var ms := lib.parseJson(text).value.members;
      && (r.Ok? <==> AllClassify(ms, lib))
      && (r.Ok? ==> ReadsAs(ms, r.value.entries, lib))
      && (r.Err? ==> r.error.Invalid? && exists i :: FirstFailure(ms, i, r.error.cause, lib))
  {
    match lib.parseJson(text)
    case None => Err(Malformed)
    case Some(NotAnObject) => Err(ExpectedMap)
    case Some(Members(ms)) =>
      match ReadMembers(ms, lib)
      case Ok(entries) => Ok(Json(entries))
      case Err(e) => Err(Invalid(e))
  }

  /** The document written as a wire object, each entry encoded on its own. */
  function ToWire(j: Json, lib: Library): (w: Wire)
    ensures w.Obj? && w.members.Keys == j.entries.Keys && StringTree(w)
    ensures forall key :: key in j.entries ==> w.members[key] == Encode(j.entries[key], lib)
  {
    Encode(Object(j.entries), lib)
  }

  /** `serialize`: prints the encoded document; it fails only when the printer does. */
  function Serialize(j: Json, lib: Library): (r: Result<string, JsonError>)
    ensures r.Err? <==> lib.printJson(ToWire(j, lib)).None?
    ensures r.Err? ==> r.error == RenderFailed
    ensures r.Ok? ==> lib.printJson(ToWire(j, lib)) == Some(r.value)
  {
    match lib.printJson(ToWire(j, lib))
    case None => Err(RenderFailed)
    case Some(text) => Ok(text)
  }

  /** Setting a key twice keeps only the second entry: the last write wins. */
  lemma SetTwice(j: Json, key: string, first: Entry, second: Entry)
    ensures Set(Set(j, key, first), key, second) == Set(j, key, second)
  {
  }

  /** Removing a key just set returns the entry set and leaves what removing it before would have. */
  lemma RemoveAfterSet(j: Json, key: string, entry: Entry)
    ensures Remove(Set(j, key, entry), key) == (Remove(j, key).0, Some(entry))
  {
    assert j.entries[key := entry] - {key} == j.entries - {key};
  }

  /** `ms` lists the members of `m`: each listed member is one of `m`, and each key of `m` is listed. */
  predicate Lists(ms: seq<(string, Wire)>, m: map<string, Wire>)
  {
    && (forall i :: 0 <= i < |ms| ==> ms[i].0 in m && m[ms[i].0] == ms[i].1)
    && (forall key :: key in m ==> exists i :: 0 <= i < |ms| && ms[i].0 == key)
  }

  /**
   A document read back from its own serialization is the same document
   exactly when every entry is stable, assuming the parser lists the
   members the printer wrote.
   */
  lemma {:induction false} SerializeDeserialize(j: Json, ms: seq<(string, Wire)>, lib: Library)
    requires Serialize(j, lib).Ok?
    requires lib.parseJson(Serialize(j, lib).value) == Some(Members(ms))
    requires Lists(ms, ToWire(j, lib).members)
    ensures Deserialize(Serialize(j, lib).value, lib) == Ok(j)
            <==> forall key :: key in j.entries ==> Stable(j.entries[key], lib)
  {
    ReadBackMembers(j, ms, lib);
  }

  /** In a listing of `m`, the last member named by a key holds that key's value, and unlisted keys have none. */
  lemma LatestOfListing(ms: seq<(string, Wire)>, m: map<string, Wire>)
    requires Lists(ms, m)
    ensures forall key :: Latest(ms, key).Some? <==> key in m
    ensures forall key :: key in m ==> Latest(ms, key) == Some(m[key])
  {
    forall key | key in m ensures Latest(ms, key) == Some(m[key]) {
      var i :| 0 <= i < |ms| && ms[i].0 == key;
      LatestIsLast(ms, key);
    }
  }

  /** Reading a listing of the encoded document gives the document back exactly when every entry is stable. */
  lemma ReadBackMembers(j: Json, ms: seq<(string, Wire)>, lib: Library)
    requires Lists(ms, ToWire(j, lib).members)
    ensures ReadMembers(ms, lib) == Ok(j.entries) <==> forall key :: key in j.entries ==> Stable(j.entries[key], lib)
  {
    EncodedListingClassifies(j, ms, lib);
    ReadBackListing(j.entries, ToWire(j, lib).members, ms, lib);
  }

  /** Reading a listing of encoded entries, all of which classify, gives the entries back exactly when every one is stable. */
  lemma ReadBackListing(entries: map<string, Entry>, m: map<string, Wire>, ms: seq<(string, Wire)>, lib: Library)
    requires m.Keys == entries.Keys
    requires forall key :: key in entries ==> m[key] == Encode(entries[key], lib)
    requires Lists(ms, m) && AllClassify(ms, lib)
    ensures ReadMembers(ms, lib) == Ok(entries) <==> forall key :: key in entries ==> Stable(entries[key], lib)
  {
    var read := ReadListing(ms, m, lib);
    ReadBackEntries(entries, m, read, lib);
  }

  /** Reading a listing of `m` whose members all classify gives one entry per key of `m`, classified from its value. */
  lemma ReadListing(ms: seq<(string, Wire)>, m: map<string, Wire>, lib: Library) returns (read: map<string, Entry>)
    requires Lists(ms, m) && AllClassify(ms, lib)
    ensures ReadMembers(ms, lib) == Ok(read)
    ensures read.Keys == m.Keys
    ensures forall key :: key in m ==> Classify(m[key], lib) == Ok(read[key])
  {
    LatestOfListing(ms, m);
    read := ReadMembers(ms, lib).value;
  }

  /** Every member of a listing of an encoded document classifies. */
  lemma EncodedListingClassifies(j: Json, ms: seq<(string, Wire)>, lib: Library)
    requires Lists(ms, ToWire(j, lib).members)
    ensures AllClassify(ms, lib)
  {
    forall i | 0 <= i < |ms| ensures Classify(ms[i].1, lib).Ok? {
      EncodedClassifies(j.entries[ms[i].0], lib);
    }
  }

  /** Entries read from the encoded entries are the entries themselves exactly when every entry is stable. */
  lemma ReadBackEntries(entries: map<string, Entry>, m: map<string, Wire>, read: map<string, Entry>, lib: Library)
    requires m.Keys == entries.Keys && read.Keys == m.Keys
    requires forall key :: key in entries ==> m[key] == Encode(entries[key], lib)
    requires forall key :: key in m ==> Classify(m[key], lib) == Ok(read[key])
    ensures read == entries <==> forall key :: key in entries ==> Stable(entries[key], lib)
  {
    forall key | key in entries
      ensures read[key] == entries[key] <==> Stable(entries[key], lib)
    {
      ClassifyEncode(entries[key], lib);
    }
  }
}
