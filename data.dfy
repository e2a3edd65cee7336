/** The `Entry` record and its dictionary form: field-wise equality, a hash
    that looks at the id only, `from_dict` with its fixed order of checks and
    `to_dict`, its inverse on entries without empty optional strings. */
module Data {
  import opened Wrappers
  import Timestamp
  import Base64

  /** An entry; the timestamp is the UTC `datetime` and the ciphertext the
      bytes it holds. */
  datatype Entry = Entry(
    entryId: string,
    keyId: string,
    timestamp: Timestamp.DateTime,
    description: string,
    identity: Option<string>,
    ciphertext: seq<Base64.byte>,
    meta: Option<string>)

  /** `Entry.__eq__`: all seven fields agree. */
  function Equals(a: Entry, b: Entry): (r: bool)
    ensures r <==> a == b
  {
    && a.timestamp == b.timestamp
    && a.entryId == b.entryId
    && a.keyId == b.keyId
    && a.description == b.description
    && a.identity == b.identity
    && a.ciphertext == b.ciphertext
    && a.meta == b.meta
  }

  /** What `Entry.__hash__` hashes: the id alone. */
  function HashKey(e: Entry): string {
    e.entryId
  }

  /** Equal entries hash alike, as a hash must. */
  lemma EqualsHashKey(a: Entry, b: Entry)
    requires Equals(a, b)
    ensures HashKey(a) == HashKey(b)
  {
  }

  /** The hash key of an entry is decided by its id, and by nothing else. */
  lemma HashKeyById(a: Entry, b: Entry)
    ensures HashKey(a) == HashKey(b) <==> a.entryId == b.entryId
  {
  }

  /** The converse does not hold: two entries with one id but different
      descriptions hash alike and are not equal. */
  lemma HashKeyCollision(a: Entry)
    ensures var b := a.(description := a.description + "x");
      HashKey(a) == HashKey(b) && !Equals(a, b)
  {
    var b := a.(description := a.description + "x");
    assert |b.description| != |a.description|;
  }

  // ---------------------------------------------------------------------------
  // The dictionary form

  /** A value of the JSON-like dictionary: a string or `None`. */
  datatype Value = Str(text: string) | Null

  type Dict = map<string, Value>

  const RequiredKeys: set<string> := {"id", "key_id", "timestamp", "description", "ciphertext"}

  const AllKeys: set<string> := RequiredKeys + {"identity", "meta"}

  /** The types `EntryDict` declares: the required keys, where present, hold
      strings. */
  predicate WellTyped(d: Dict) {
    forall k :: k in RequiredKeys && k in d ==> d[k].Str?
  }

  datatype EntryError =
    | MissingKey(key: string)   // 'Invalid entry format: missing required key ...'
    | InvalidTimestamp          // 'Invalid timestamp format'
    | InvalidCiphertext         // 'Invalid ciphertext format'

  /** `data.get(key)` kept only when truthy: absent, `None` and `""` give `None`. */
  function Optional(d: Dict, key: string): (r: Option<string>)
    ensures r.Some? <==> key in d && d[key] != Null && d[key] != Str("")
    ensures r.Some? ==> d[key] == Str(r.value)
  {
    if key in d && d[key].Str? && d[key].text != "" then Some(d[key].text) else None
  }

  /** What `from_dict` does once every required key is known to be present:
      the timestamp is checked first, then the ciphertext. */
  function Decoded(d: Dict): (r: Result<Entry, EntryError>)
    requires WellTyped(d) && RequiredKeys <= d.Keys
  {
    match Timestamp.Parse(d["timestamp"].text)
    case Err(_) => Err(InvalidTimestamp)
    case Ok(timestamp) =>
      match Base64.StrictDecode(d["ciphertext"].text)
      case Err(_) => Err(InvalidCiphertext)
      case Ok(ciphertext) =>
        Ok(Entry(d["id"].text, d["key_id"].text, timestamp, d["description"].text,
                 Optional(d, "identity"), ciphertext, Optional(d, "meta")))
  }

  /** `from_dict` exactly as written, once every required key is present: the
      ciphertext goes through the lenient `from_base64`, which `Decoded`
      replaces by the validating decoder. */
  function DecodedAsWritten(d: Dict): (r: Result<Entry, EntryError>)
    requires WellTyped(d) && RequiredKeys <= d.Keys
    ensures r.Ok? ==> Ok(r.value.ciphertext) == Base64.Decode(d["ciphertext"].text)
  {
    match Timestamp.Parse(d["timestamp"].text)
    case Err(_) => Err(InvalidTimestamp)
    case Ok(timestamp) =>
      match Base64.Decode(d["ciphertext"].text)
      case Err(_) => Err(InvalidCiphertext)
      case Ok(ciphertext) =>
        Ok(Entry(d["id"].text, d["key_id"].text, timestamp, d["description"].text,
                 Optional(d, "identity"), ciphertext, Optional(d, "meta")))
  }

  /** The two agree on every dictionary the corrected `from_dict` accepts, and
      on every timestamp error. */
  lemma DecodedAgrees(d: Dict)
    requires WellTyped(d) && RequiredKeys <= d.Keys
    ensures Decoded(d).Ok? ==> DecodedAsWritten(d) == Decoded(d)
    ensures Decoded(d) == Err(InvalidTimestamp) <==> DecodedAsWritten(d) == Err(InvalidTimestamp)
    ensures DecodedAsWritten(d).Err? ==> Decoded(d) == DecodedAsWritten(d)
  {
  }

  /** The input that shows the gap at the level of `from_dict`: with a good
      timestamp, the ciphertext `"!!!"` gives an entry with an empty
      ciphertext as written, and an error once corrected. */
  lemma GarbageCiphertextAccepted(d: Dict)
    requires WellTyped(d) && RequiredKeys <= d.Keys
    requires Timestamp.Parse(d["timestamp"].text).Ok? && d["ciphertext"] == Str("!!!")
    ensures DecodedAsWritten(d).Ok? && DecodedAsWritten(d).value.ciphertext == []
    ensures Decoded(d) == Err(InvalidCiphertext)
  {
    Base64.LenientDecodeAcceptsGarbage();
  }

  /** The order of the checks: a bad timestamp is reported whatever the
      ciphertext, a bad ciphertext only after a good timestamp, and a result
      comes only from a good timestamp and a good ciphertext, carrying the
      string fields over unchanged. */
  lemma DecodedChecks(d: Dict)
    requires WellTyped(d) && RequiredKeys <= d.Keys
    ensures var ts, ct := d["timestamp"].text, d["ciphertext"].text;
      && (Decoded(d) == Err(InvalidTimestamp) <==> Timestamp.Parse(ts).Err?)
      && (Decoded(d) == Err(InvalidCiphertext) <==> Timestamp.Parse(ts).Ok? && Base64.StrictDecode(ct).Err?)
      && (Decoded(d).Ok? ==>
            && Ok(Decoded(d).value.timestamp) == Timestamp.Parse(ts)
            && Ok(Decoded(d).value.ciphertext) == Base64.StrictDecode(ct)
            && Decoded(d).value.entryId == d["id"].text
            && Decoded(d).value.keyId == d["key_id"].text
            && Decoded(d).value.description == d["description"].text)
  {
  }

  /** `Entry.from_dict`: the required keys are visited in the set's own order,
      and the first one found missing is reported; then the timestamp and the
      ciphertext are checked in that order. */
  method FromDict(d: Dict) returns (r: Result<Entry, EntryError>)
    requires WellTyped(d)
    ensures r.Err? && r.error.MissingKey? <==> !(RequiredKeys <= d.Keys)
    ensures r.Err? && r.error.MissingKey? ==> r.error.key in RequiredKeys && r.error.key !in d
    ensures RequiredKeys <= d.Keys ==> r == Decoded(d)
  {
    var unchecked := RequiredKeys;
    while unchecked != {}
      invariant unchecked <= RequiredKeys
      invariant forall k :: k in RequiredKeys && k !in unchecked ==> k in d
      decreases |unchecked|
    {
      var key :| key in unchecked;
      if key !in d {
        return Err(MissingKey(key));
      }
      unchecked := unchecked - {key};
    }
    var timestamp := Timestamp.ParseTimestamp(d["timestamp"].text);
    if timestamp.Err? {
      return Err(InvalidTimestamp);
    }
    var ciphertext := Base64.StrictDecode(d["ciphertext"].text);
    if ciphertext.Err? {
      return Err(InvalidCiphertext);
    }
    r := Ok(Entry(d["id"].text, d["key_id"].text, timestamp.value, d["description"].text,
                  Optional(d, "identity"), ciphertext.value, Optional(d, "meta")));
  }

  function OptionalValue(o: Option<string>): (v: Value)
    ensures v == Null <==> o.None?
  {
    match o
    case Some(s) => Str(s)
    case None => Null
  }

  /** `Entry.to_dict`: the seven keys, the timestamp in ISO form with `Z`
      and the ciphertext in base64. */
  function ToDict(e: Entry): (d: Dict)
    requires Timestamp.Valid(e.timestamp)
    ensures d.Keys == AllKeys
    ensures WellTyped(d)
  {
    map[
      "timestamp" := Str(Timestamp.Format(e.timestamp)),
      "id" := Str(e.entryId),
      "key_id" := Str(e.keyId),
      "description" := Str(e.description),
      "identity" := OptionalValue(e.identity),
      "ciphertext" := Str(Base64.Encode(e.ciphertext)),
      "meta" := OptionalValue(e.meta)
    ]
  }

  /** An entry whose optional strings are absent or non-empty. */
  predicate NoEmptyOptional(e: Entry) {
    e.identity != Some("") && e.meta != Some("")
  }

  /** The fields `to_dict` writes, key by key. */
  lemma ToDictFields(e: Entry)
    requires Timestamp.Valid(e.timestamp)
    ensures var d := ToDict(e);
      && d["timestamp"] == Str(Timestamp.Format(e.timestamp))
      && d["ciphertext"] == Str(Base64.Encode(e.ciphertext))
      && d["id"] == Str(e.entryId) && d["key_id"] == Str(e.keyId) && d["description"] == Str(e.description)
      && d["identity"] == OptionalValue(e.identity) && d["meta"] == OptionalValue(e.meta)
  {
  }

  /** `Decoded` once the timestamp and the ciphertext are known to be good. */
  lemma DecodedWhenGood(d: Dict, timestamp: Timestamp.DateTime, ciphertext: seq<Base64.byte>)
    requires WellTyped(d) && RequiredKeys <= d.Keys
    requires Timestamp.Parse(d["timestamp"].text) == Ok(timestamp)
    requires Base64.StrictDecode(d["ciphertext"].text) == Ok(ciphertext)
    ensures Decoded(d) == Ok(Entry(d["id"].text, d["key_id"].text, timestamp, d["description"].text,
                                   Optional(d, "identity"), ciphertext, Optional(d, "meta")))
  {
  }

  /** `from_dict(to_dict(e)) == e` for every entry with a valid UTC timestamp
      and no empty optional string. */
  lemma {:induction false} FromDictToDict(e: Entry)
    requires Timestamp.Valid(e.timestamp) && NoEmptyOptional(e)
    ensures RequiredKeys <= ToDict(e).Keys
    ensures Decoded(ToDict(e)) == Ok(e)
  {
    var d := ToDict(e);
    ToDictFields(e);
    Timestamp.ParseFormat(e.timestamp);
    Base64.StrictDecodeEncode(e.ciphertext);
    DecodedWhenGood(d, e.timestamp, e.ciphertext);
  }

  /** An empty identity does not survive the round trip: it comes back as `None`. */
  lemma EmptyIdentityLost(e: Entry)
    requires Timestamp.Valid(e.timestamp) && e.identity == Some("")
    ensures Decoded(ToDict(e)).Ok? && Decoded(ToDict(e)).value.identity == None
  {
    var d := ToDict(e);
    ToDictFields(e);
    Timestamp.ParseFormat(e.timestamp);
    Base64.StrictDecodeEncode(e.ciphertext);
    DecodedWhenGood(d, e.timestamp, e.ciphertext);
  }

  /** What `from_dict` produces never holds an empty optional string, so
      writing it out and reading it back gives it again. */
  lemma {:induction false} ToDictFromDict(d: Dict)
    requires WellTyped(d) && RequiredKeys <= d.Keys && Decoded(d).Ok?
    ensures NoEmptyOptional(Decoded(d).value)
    ensures Decoded(ToDict(Decoded(d).value)) == Decoded(d)
  {
    var e := Decoded(d).value;
    assert NoEmptyOptional(e);
    FromDictToDict(e);
  }
}
