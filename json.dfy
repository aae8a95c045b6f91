/**
 * The decoding half of `serde_json::from_str::<MessageWithPayload>` (src/main.rs:81-91, 131).
 *
 * The JSON text parser itself is not modelled: `parse` stands for serde_json's
 * reader and yields the value it reads, or `None` for a syntax error. What is
 * modelled is what `#[derive(Deserialize)]` does with that value for a struct
 * with one field: object members with other names are skipped, the field must
 * occur exactly once, the positional form `[value]` is accepted too, and a
 * `u16` must be an integer in 0..65535.
 */
module Json {
  import opened Primitives

  /**
   * A number as serde_json's reader classifies it: an integer token it holds
   * as `u64` or `i64`, or anything it holds as `f64` (a fraction or exponent,
   * `-0`, an integer outside both ranges).
   */
  datatype Number = Int(value: int) | Float

  /** A JSON value; object members keep their order and their duplicates, as the reader streams them. */
  datatype Json =
    | Null
    | Bool(b: bool)
    | Num(n: Number)
    | Str(s: string)
    | Arr(items: seq<Json>)
    | Obj(members: seq<(string, Json)>)

  /** The kinds of `serde_json::Error` that decoding these two structs can raise. */
  datatype DecodeError =
    | Syntax                       // the text is not JSON
    | InvalidType                  // a value of the wrong JSON type
    | InvalidValue(v: int)         // an integer that does not fit the field's type
    | InvalidLength(n: nat)        // positional form with too few elements
    | TrailingCharacters           // positional form with too many elements
    | MissingField(name: string)
    | DuplicateField(name: string)

  /** The inner struct (src/main.rs:81-85): one unsigned 16-bit year, read from the JSON member named `YEAR`. */
  datatype PayloadWithYear = PayloadWithYear(year: u16)

  /** The outer struct (src/main.rs:87-91): the inner struct, read from the JSON member named `payload`. */
  datatype MessageWithPayload = MessageWithPayload(innerPayload: PayloadWithYear)

  /** `u16::deserialize`: integers in range, `InvalidValue` for other integers, `InvalidType` for everything else. */
  function DecodeU16(j: Json): Result<u16, DecodeError> {
    match j
    case Num(Int(v)) => if 0 <= v < 0x1_0000 then Ok(v as u16) else Err(InvalidValue(v))
    case _ => Err(InvalidType)
  }

  /**
   * The derived map visitor over the members of an object, for a struct whose
   * one field is called `name`: `seen` holds the field once it has been read.
   */
  function ScanMembers<T>(ms: seq<(string, Json)>, name: string, field: Json -> Result<T, DecodeError>,
                          seen: Option<T>): Result<T, DecodeError>
    decreases |ms|
  {
    if ms == [] then
      if seen.Some? then Ok(seen.value) else Err(MissingField(name))
    else if ms[0].0 == name then
      if seen.Some? then Err(DuplicateField(name))
      else match field(ms[0].1)
        case Err(e) => Err(e)
        case Ok(v) => ScanMembers(ms[1..], name, field, Some(v))
    else
      ScanMembers(ms[1..], name, field, seen)
  }

  /** Derived `Deserialize` of a one-field struct: the map form, the sequence form, or a type error. */
  function DecodeStruct<T>(j: Json, name: string, field: Json -> Result<T, DecodeError>): Result<T, DecodeError> {
    match j
    case Obj(ms) => ScanMembers(ms, name, field, None)
    case Arr(items) =>
      if items == [] then Err(InvalidLength(0))
      else (match field(items[0])
        case Err(e) => Err(e)
        case Ok(v) => if |items| > 1 then Err(TrailingCharacters) else Ok(v))
    case _ => Err(InvalidType)
  }

  function DecodePayloadWithYear(j: Json): Result<PayloadWithYear, DecodeError> {
    match DecodeStruct(j, "YEAR", DecodeU16)
    case Ok(y) => Ok(PayloadWithYear(y))
    case Err(e) => Err(e)
  }

  function DecodeMessageWithPayload(j: Json): Result<MessageWithPayload, DecodeError> {
    match DecodeStruct(j, "payload", DecodePayloadWithYear)
    case Ok(p) => Ok(MessageWithPayload(p))
    case Err(e) => Err(e)
  }

  /** `serde_json::from_str::<MessageWithPayload>(text)`, with the reader given as `parse`. */
  function FromStr(parse: string -> Option<Json>, text: string): Result<MessageWithPayload, DecodeError> {
    match parse(text)
    case None => Err(Syntax)
    case Some(j) => DecodeMessageWithPayload(j)
  }

  // ---------------------------------------------------------------------------
  // The lenient lookup, stated against an independent definition.

  /** The values of the members called `name`, in order. */
  function ValuesOf(ms: seq<(string, Json)>, name: string): (vs: seq<Json>)
    ensures |vs| <= |ms|
    ensures forall v :: v in vs <==> (name, v) in ms
    decreases |ms|
  {
    if ms == [] then []
    else (if ms[0].0 == name then [ms[0].1] else []) + ValuesOf(ms[1..], name)
  }

  /** Other members never matter: the result depends only on the values of the members called `name`. */
  function Lookup<T>(vs: seq<Json>, name: string, field: Json -> Result<T, DecodeError>): Result<T, DecodeError> {
    if vs == [] then Err(MissingField(name))
    else if field(vs[0]).Err? then Err(field(vs[0]).error)
    else if |vs| > 1 then Err(DuplicateField(name))
    else Ok(field(vs[0]).value)
  }

  lemma {:induction false} ScanAfterField<T>(ms: seq<(string, Json)>, name: string,
                                             field: Json -> Result<T, DecodeError>, v: T)
    ensures ScanMembers(ms, name, field, Some(v)) ==
            if ValuesOf(ms, name) == [] then Ok(v) else Err(DuplicateField(name))
    decreases |ms|
  {
    if ms != [] && ms[0].0 != name {
      ScanAfterField(ms[1..], name, field, v);
    }
  }

  lemma {:induction false} ScanBeforeField<T>(ms: seq<(string, Json)>, name: string,
                                              field: Json -> Result<T, DecodeError>)
    ensures ScanMembers(ms, name, field, None) == Lookup(ValuesOf(ms, name), name, field)
    decreases |ms|
  {
    if ms != [] {
      if ms[0].0 == name {
        if field(ms[0].1).Ok? {
          ScanAfterField(ms[1..], name, field, field(ms[0].1).value);
        }
      } else {
        ScanBeforeField(ms[1..], name, field);
      }
    }
  }

  /**
   * Decoding a struct from an object: a missing field is `MissingField`; the
   * first occurrence's error wins; a second occurrence is `DuplicateField`;
   * otherwise the one occurrence's value. Members with other names are skipped.
   */
  lemma ObjectLookup<T>(ms: seq<(string, Json)>, name: string, field: Json -> Result<T, DecodeError>)
    ensures DecodeStruct(Obj(ms), name, field) == Lookup(ValuesOf(ms, name), name, field)
  {
    ScanBeforeField(ms, name, field);
  }

  lemma {:induction false} ValuesOfAppend(a: seq<(string, Json)>, b: seq<(string, Json)>, name: string)
    ensures ValuesOf(a + b, name) == ValuesOf(a, name) + ValuesOf(b, name)
    decreases |a|
  {
    if a != [] {
      assert (a + b)[0] == a[0] && (a + b)[1..] == a[1..] + b;
      ValuesOfAppend(a[1..], b, name);
    } else {
      assert a + b == b;
    }
  }

  /** Adding or removing a member with another name, anywhere in the object, does not change the result. */
  lemma ExtraMemberIgnored<T>(before: seq<(string, Json)>, key: string, value: Json, after: seq<(string, Json)>,
                              name: string, field: Json -> Result<T, DecodeError>)
    requires key != name
    ensures DecodeStruct(Obj(before + [(key, value)] + after), name, field) ==
            DecodeStruct(Obj(before + after), name, field)
  {
    ValuesOfAppend(before + [(key, value)], after, name);
    ValuesOfAppend(before, [(key, value)], name);
    ValuesOfAppend(before, after, name);
    ObjectLookup(before + [(key, value)] + after, name, field);
    ObjectLookup(before + after, name, field);
  }

  /** The only `u16` values are the integers 0..65535. */
  lemma DecodeU16Exactly(j: Json, y: u16)
    ensures DecodeU16(j) == Ok(y) <==> j == Num(Int(y as int))
  {
  }

  /**
   * The routing field: an object with exactly one `payload` member whose value
   * is an object with exactly one `YEAR` member holding an integer 0..65535
   * decodes to that integer, whatever other members either object has.
   */
  lemma ObjectFormDecodes(ms: seq<(string, Json)>, inner: seq<(string, Json)>, y: int)
    requires ValuesOf(ms, "payload") == [Obj(inner)]
    requires ValuesOf(inner, "YEAR") == [Num(Int(y))]
    requires 0 <= y <= 65535
    ensures DecodeMessageWithPayload(Obj(ms)) == Ok(MessageWithPayload(PayloadWithYear(y as u16)))
  {
    ObjectLookup(ms, "payload", DecodePayloadWithYear);
    ObjectLookup(inner, "YEAR", DecodeU16);
  }

  /** Conversely, an object that decodes has exactly one `payload` member, and it decodes on its own. */
  lemma ObjectFormRequires(ms: seq<(string, Json)>)
    requires DecodeMessageWithPayload(Obj(ms)).Ok?
    ensures |ValuesOf(ms, "payload")| == 1
    ensures DecodePayloadWithYear(ValuesOf(ms, "payload")[0]) == Ok(DecodeMessageWithPayload(Obj(ms)).value.innerPayload)
  {
    ObjectLookup(ms, "payload", DecodePayloadWithYear);
  }

  /** An inner object decodes exactly when it has one `YEAR` member holding an integer 0..65535. */
  lemma InnerObjectDecodes(inner: seq<(string, Json)>, y: u16)
    ensures DecodePayloadWithYear(Obj(inner)) == Ok(PayloadWithYear(y)) <==>
            ValuesOf(inner, "YEAR") == [Num(Int(y as int))]
  {
    ObjectLookup(inner, "YEAR", DecodeU16);
  }

  /** A `YEAR` outside 0..65535 (negative included) is `InvalidValue`; one that is not an integer is `InvalidType`. */
  lemma InnerObjectRejects(inner: seq<(string, Json)>, v: Json)
    requires ValuesOf(inner, "YEAR") == [v]
    ensures v.Num? && v.n.Int? && !(0 <= v.n.value <= 65535) ==>
              DecodePayloadWithYear(Obj(inner)) == Err(InvalidValue(v.n.value))
    ensures !(v.Num? && v.n.Int?) ==> DecodePayloadWithYear(Obj(inner)) == Err(InvalidType)
  {
    ObjectLookup(inner, "YEAR", DecodeU16);
  }

  /** An object without a `YEAR` member is `MissingField("YEAR")`; without `payload`, `MissingField("payload")`. */
  lemma MissingFields(ms: seq<(string, Json)>)
    ensures ValuesOf(ms, "YEAR") == [] ==> DecodePayloadWithYear(Obj(ms)) == Err(MissingField("YEAR"))
    ensures ValuesOf(ms, "payload") == [] ==> DecodeMessageWithPayload(Obj(ms)) == Err(MissingField("payload"))
  {
    ObjectLookup(ms, "YEAR", DecodeU16);
    ObjectLookup(ms, "payload", DecodePayloadWithYear);
  }
}
