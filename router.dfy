/**
 * The routing decision for one fetched message (src/main.rs:130-143): view the
 * payload as text, decode `payload.YEAR` from it, and name the destination
 * topic `prefix ++ decimal(YEAR)`. What is forwarded is the viewed text itself,
 * never a re-encoding of the decoded struct.
 */
module Router {
  import opened Primitives
  import Utf8
  import DecimalText
  import Json

  /** The destination prefix used when `KAFKA_DESTINATION_TOPIC_PREFIX` is unset. */
  const DefaultPrefix: string := "onkostar.MELDUNG_EXPORT."

  /** The outcome of the nested `match` for a message that was fetched. */
  datatype Route =
    | NoPayload                          // payload_view gave None: "Unable to consume payload"
    | InvalidUtf8(utf8Error: Utf8.Utf8Error) // "Cannot get payload"
    | NotDecodable(jsonError: Json.DecodeError) // "Cannot deserialize message"
    | Routed(topic: string, text: string) // send `text` to `topic`

  /** `format!("{}{}", topic_prefix, year)`: the prefix, then the year's decimal digits, no separator. */
  function Topic(prefix: string, year: u16): string {
    prefix + DecimalText.Show(year as nat)
  }

  /** `msg.payload_view::<str>()` followed by `serde_json::from_str` and the topic name. */
  function RoutePayload(prefix: string, parse: string -> Option<Json.Json>, payload: Option<seq<byte>>): Route {
    match payload
    case None => NoPayload
    case Some(bytes) =>
      match Utf8.Decode(bytes)
      case Err(e) => InvalidUtf8(e)
      case Ok(text) =>
        match Json.FromStr(parse, text)
        case Err(e) => NotDecodable(e)
        case Ok(m) => Routed(Topic(prefix, m.innerPayload.year), text)
  }

  // ---------------------------------------------------------------------------
  // Topic names.

  /** A topic name splits back into the prefix and the canonical decimal text of the year. */
  lemma TopicParsesBack(prefix: string, year: u16)
    ensures |Topic(prefix, year)| <= |prefix| + 5
    ensures Topic(prefix, year)[..|prefix|] == prefix
    ensures DecimalText.ParseDecimal(Topic(prefix, year)[|prefix|..]) == Some(year as nat)
  {
    DecimalText.ShowU16Length(year);
    DecimalText.ParseShow(year as nat);
    assert Topic(prefix, year)[|prefix|..] == DecimalText.Show(year as nat);
  }

  /** Under one prefix, distinct years name distinct topics. */
  lemma TopicInjective(prefix: string, a: u16, b: u16)
    ensures Topic(prefix, a) == Topic(prefix, b) <==> a == b
  {
    if Topic(prefix, a) == Topic(prefix, b) {
      TopicParsesBack(prefix, a);
      TopicParsesBack(prefix, b);
    }
  }

  /** The boundary years: 0 gives `prefix ++ "0"`, 65535 gives `prefix ++ "65535"`. */
  lemma TopicBounds(prefix: string)
    ensures Topic(prefix, 0) == prefix + "0"
    ensures Topic(prefix, 65535) == prefix + "65535"
  {
    DecimalText.ShowU16Bounds();
  }

  // ---------------------------------------------------------------------------
  // Classification: each outcome and exactly the inputs that produce it.

  /**
   * A message without payload is `NoPayload`; a payload that is not
   * well-formed UTF-8 (RFC 3629 section 4) is `InvalidUtf8`; well-formed text
   * that does not decode is `NotDecodable` with decoding's error; otherwise
   * the message is routed.
   */
  lemma Classification(prefix: string, parse: string -> Option<Json.Json>, payload: Option<seq<byte>>)
    ensures RoutePayload(prefix, parse, payload).NoPayload? <==> payload.None?
    ensures RoutePayload(prefix, parse, payload).InvalidUtf8? <==>
              payload.Some? && !Utf8.WellFormed(payload.value)
    ensures RoutePayload(prefix, parse, payload).NotDecodable? <==>
              payload.Some? && Utf8.WellFormed(payload.value) &&
              Json.FromStr(parse, Utf8.Decode(payload.value).value).Err?
    ensures RoutePayload(prefix, parse, payload).Routed? <==>
              payload.Some? && Utf8.WellFormed(payload.value) &&
              Json.FromStr(parse, Utf8.Decode(payload.value).value).Ok?
  {
    if payload.Some? {
      Utf8.DecodeAcceptsWellFormed(payload.value, 0);
    }
  }

  /**
   * A routed message goes to `prefix ++ decimal(YEAR)` for the `YEAR` its text
   * decodes to, and the text forwarded is represented by exactly the payload's
   * bytes.
   */
  lemma RoutedVerbatim(prefix: string, parse: string -> Option<Json.Json>, payload: Option<seq<byte>>)
    requires RoutePayload(prefix, parse, payload).Routed?
    ensures var r := RoutePayload(prefix, parse, payload);
      && payload.Some?
      && Utf8.Encode(r.text) == payload.value
      && Json.FromStr(parse, r.text).Ok?
      && r.topic == Topic(prefix, Json.FromStr(parse, r.text).value.innerPayload.year)
  {
    Utf8.EncodeDecode(payload.value, 0);
  }

  /** The byte-level error reported for a payload that is not UTF-8 is where validation stopped. */
  lemma InvalidUtf8Position(prefix: string, parse: string -> Option<Json.Json>, payload: Option<seq<byte>>)
    requires RoutePayload(prefix, parse, payload).InvalidUtf8?
    ensures var e := RoutePayload(prefix, parse, payload).utf8Error;
      && payload.Some?
      && e.validUpTo < |payload.value|
      && Utf8.WellFormed(payload.value[..e.validUpTo])
  {
    Utf8.DecodeErrorPosition(payload.value);
  }

  /**
   * The topic is a function of the decoded year alone: two routed messages,
   * whatever else their payloads hold, share a topic exactly when their years
   * are equal.
   */
  lemma TopicDeterminedByYear(prefix: string, parse: string -> Option<Json.Json>,
                              p1: Option<seq<byte>>, p2: Option<seq<byte>>)
    requires RoutePayload(prefix, parse, p1).Routed? && RoutePayload(prefix, parse, p2).Routed?
    ensures var r1, r2 := RoutePayload(prefix, parse, p1), RoutePayload(prefix, parse, p2);
      r1.topic == r2.topic <==>
        Json.FromStr(parse, r1.text).value.innerPayload.year == Json.FromStr(parse, r2.text).value.innerPayload.year
  {
    var r1, r2 := RoutePayload(prefix, parse, p1), RoutePayload(prefix, parse, p2);
    TopicInjective(prefix, Json.FromStr(parse, r1.text).value.innerPayload.year,
                   Json.FromStr(parse, r2.text).value.innerPayload.year);
  }

  // ---------------------------------------------------------------------------
  // Worked cases.

  /** Prefix `orders.`, text `{"payload":{"YEAR":2024}}`: routed to `orders.2024` with the text unchanged. */
  lemma RoutesOrders2024(parse: string -> Option<Json.Json>, text: string)
    requires text == "{\"payload\":{\"YEAR\":2024}}"
    requires parse(text) == Some(Json.Obj([("payload", Json.Obj([("YEAR", Json.Num(Json.Int(2024)))]))]))
    ensures RoutePayload("orders.", parse, Some(Utf8.Encode(text))) == Routed("orders.2024", text)
  {
    Utf8.DecodeEncode(text, 0);
    assert Json.FromStr(parse, text) == Ok(Json.MessageWithPayload(Json.PayloadWithYear(2024)));
    Show2024();
  }

  lemma Show2024()
    ensures DecimalText.Show(2024) == "2024"
  {
    assert DecimalText.Show(2) == "2";
    assert DecimalText.Show(20) == "20";
    assert DecimalText.Show(202) == "202";
  }

  /** Text `{"payload":{}}`: not decodable, because `YEAR` is missing. */
  lemma RejectsMissingYear(prefix: string, parse: string -> Option<Json.Json>, text: string)
    requires text == "{\"payload\":{}}"
    requires parse(text) == Some(Json.Obj([("payload", Json.Obj([]))]))
    ensures RoutePayload(prefix, parse, Some(Utf8.Encode(text))) == NotDecodable(Json.MissingField("YEAR"))
  {
    Utf8.DecodeEncode(text, 0);
  }

  /** A payload of one byte 0xFF is not UTF-8: the error is at index 0 and spans one byte. */
  lemma RejectsByteFF(prefix: string, parse: string -> Option<Json.Json>)
    ensures RoutePayload(prefix, parse, Some([0xFF])) == InvalidUtf8(Utf8.Utf8Error(0, Some(1)))
  {
  }

  /** A year of 65536 or -1 is out of range for `u16`: not decodable. */
  lemma RejectsOutOfRangeYear(prefix: string, parse: string -> Option<Json.Json>, text: string, y: int)
    requires y == 65536 || y == -1
    requires text == if y == 65536 then "{\"payload\":{\"YEAR\":65536}}" else "{\"payload\":{\"YEAR\":-1}}"
    requires parse(text) == Some(Json.Obj([("payload", Json.Obj([("YEAR", Json.Num(Json.Int(y)))]))]))
    ensures RoutePayload(prefix, parse, Some(Utf8.Encode(text))) == NotDecodable(Json.InvalidValue(y))
  {
    Utf8.DecodeEncode(text, 0);
  }
}
