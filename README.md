# bzkf-kafkatopic-splitter: a Dafny model of the routing loop

The bridge consumes records from one Kafka topic. For each record it reads the
integer field `payload.YEAR` out of the JSON payload and republishes the record,
unchanged, to the topic `<prefix><YEAR>`. This project models that per-message
pipeline from `src/main.rs` and proves what it does:

- `Utf8` checks a payload the way `payload_view::<str>()` does (Rust's
  `std::str::from_utf8`). It reports Rust's `Utf8Error` (`valid_up_to`,
  `error_len`). It is proved to accept exactly the UTF-8 grammar of section 4
  of RFC 3629. It is also proved to be the inverse of the string's byte
  representation in both directions.
- `DecimalText` writes a `u16` in decimal, as `format!("{}{}", prefix, year)`
  does. It comes with a parse-back function and both round trips.
- `Json` is an abstract JSON value. On top of it sits the decoding that
  `#[derive(Deserialize)]` generates for `MessageWithPayload` and
  `PayloadWithYear`. Unknown members are skipped. A field must occur exactly
  once. The positional form `[value]` is accepted. `YEAR` must be an integer
  in 0..65535.
- `Router` is the nested `match` of the loop body. It takes the payload view,
  then `serde_json::from_str`, then the topic name. Its outcome is one of no
  payload, invalid UTF-8, not decodable, or routed.
- `Driver` is the `loop` itself. `Run` is a method over the sequence of results
  `recv()` returned. It appends one record per routable message to the log of
  sends and stops where `msg.key().unwrap()` would panic. It is proved against
  the specification function `Published`, which is a filter-and-map over the
  fetched items. `Bridge` adds the start-up failure of `subscribe`.

The JSON text parser is a parameter `parse: string -> Option<Json>`. It stands
for serde_json's reader. The broker's answer to each send is a parameter
`delivered`, which the loop ignores just as the source does. The destination
prefix is a parameter, and its default from the source is the constant
`Router.DefaultPrefix`.

Behaviours of the code worth stating:
- A `YEAR` outside 0..65535 is a `serde_json` "invalid value" error
  (`InvalidValue`), not a missing-field error.
- Decoding also accepts the positional form, e.g. `[[2024]]`.
- A second `payload` or `YEAR` member is an error (`DuplicateField`).
- The send uses a queue timeout of zero seconds. A routable message without a
  key ends the process instead of being skipped.

## Model

| member | source | states |
|---|---|---|
| `Utf8.DecodeFrom` | src/main.rs:130 | no contract of its own; its meaning is stated by `DecodeAcceptsWellFormed`, `EncodeDecode` and the error lemmas below: `std::str::from_utf8` on the bytes after an already valid prefix |
| `Utf8.Decode` | src/main.rs:130 | no contract of its own; its meaning is stated by `DecodeAcceptsWellFormed`, `DecodeEncode`, `EncodeDecode` and `DecodeErrorPosition`: the `payload_view::<str>()` check |
| `Utf8.EncodeChar` | src/main.rs:142 | no contract of its own; its meaning is stated by `EncodeCharScans` and `ScanCharEncodes`: the bytes of one scalar value |
| `Utf8.Encode` | src/main.rs:142 | no contract of its own; its meaning is stated by `DecodeEncode` and `EncodeDecode`: the bytes `.payload(s)` sends for the text `s` |
| `Utf8.ScanChar` | src/main.rs:130 | validating one character consumes 1 to 4 bytes; an invalid sequence is 1 to 3 bytes long; input that runs out does so within 3 bytes |
| `Utf8.ScanMatchesGrammar` | src/main.rs:130 | the validator reads an n-byte character exactly when those n bytes are a UTF8-char of RFC 3629 section 4 |
| `Utf8.DecodeAcceptsWellFormed` | src/main.rs:130 | `from_utf8` succeeds exactly on the UTF8-octets of RFC 3629 section 4 (both directions) |
| `Utf8.EncodeCharScans` | src/main.rs:130 | the UTF-8 encoding of every scalar value is a UTF8-char that the validator decodes back to that value |
| `Utf8.DecodeEncode` | src/main.rs:130 | decoding the bytes of any string gives the string back |
| `Utf8.ScanCharEncodes` | src/main.rs:142 | a sequence the validator accepts is exactly the encoding of the value it yields |
| `Utf8.EncodeDecode` | src/main.rs:142 | the `&str` that `payload_view` yields is represented by exactly the payload's bytes |
| `Utf8.EncodeWellFormed` | src/main.rs:142 | the bytes of every string are well-formed UTF-8 |
| `Utf8.DecodeErrorPosition` | src/main.rs:150 | the error's `valid_up_to` lies inside the input and the input is well-formed up to it; `Some(n)` has 1 <= n <= 3 bytes available; `None` means at most 3 bytes remain |
| `Utf8.IncompleteExtends` | src/main.rs:150 | bytes on which validation runs out are a proper prefix of some UTF8-char |
| `Utf8.ErrorIncompleteAt` | src/main.rs:150 | when `error_len` is `None`, validation stopped at `valid_up_to` because the bytes ran out inside the sequence starting there |
| `Utf8.DecodeErrorTruncated` | src/main.rs:150 | when `error_len` is `None`, the bytes after `valid_up_to` are the start of a UTF8-char, cut short by the end of the input |
| `Utf8.InvalidMaximalSubpart` | src/main.rs:150 | `error_len = Some(n)`: the n bytes begin some UTF8-char unless n is 1, a lead byte that begins none is reported alone, and the byte after the n bytes cannot continue them |
| `Utf8.DecodeErrorMaximal` | src/main.rs:150 | no prefix longer than `valid_up_to` is well-formed |
| `Utf8.ErrorAtStart` | src/main.rs:150 | validation that rejects the sequence at index i reports `valid_up_to` i, with the invalid sequence's length, or `None` when the bytes ran out |
| `DecimalText.Show` | src/main.rs:140 | the decimal text of n is non-empty and all digits, starts with '0' only for n = 0, and has the digit count fixed by `10^(len-1) <= n < 10^len` |
| `DecimalText.ParseShow` | src/main.rs:140 | parsing the decimal text of n gives n |
| `DecimalText.ShowParse` | src/main.rs:140 | every canonical digit string is the decimal text of the number it denotes |
| `DecimalText.ShowInjective` | src/main.rs:140 | distinct numbers have distinct decimal texts, and equal ones equal texts |
| `DecimalText.ShowU16Length` | src/main.rs:84 | a `u16` prints with 1 to 5 digits |
| `DecimalText.ShowU16Bounds` | src/main.rs:140 | 0 prints as "0" and 65535 as "65535" |
| `Json.DecodeU16` | src/main.rs:84 | no contract of its own; its meaning is stated by `DecodeU16Exactly` and `InnerObjectRejects`: `u16` decoding of a JSON value |
| `Json.ScanMembers` | src/main.rs:81-91 | no contract of its own; its meaning is stated by `ObjectLookup`: the derived visitor over an object's members |
| `Json.DecodeStruct` | src/main.rs:81-91 | no contract of its own; its meaning is stated by `ObjectLookup`, `ObjectFormDecodes` and `MissingFields`: derived decoding of a one-field struct, object or positional form |
| `Json.DecodePayloadWithYear` | src/main.rs:81-85 | no contract of its own; its meaning is stated by `InnerObjectDecodes` and `InnerObjectRejects` |
| `Json.DecodeMessageWithPayload` | src/main.rs:87-91 | no contract of its own; its meaning is stated by `ObjectFormDecodes` and `ObjectFormRequires` |
| `Json.FromStr` | src/main.rs:131 | no contract of its own; its meaning is stated by `Router.Classification` and `Router.RoutedVerbatim`: `serde_json::from_str` with the reader given as `parse`, `Syntax` when it reads nothing |
| `Json.ValuesOf` | src/main.rs:87-91 | the reference list for `ObjectLookup`: the values, in order, of exactly the members with the given name (a value is in it exactly when a member with that name carries it) |
| `Json.ObjectLookup` | src/main.rs:81-91 | decoding a one-field struct from an object: missing field is `MissingField`, the first occurrence's error wins, a second occurrence is `DuplicateField`, else the one value |
| `Json.ExtraMemberIgnored` | src/main.rs:81-91 | inserting or removing a member with any other name anywhere in the object does not change the decoding result |
| `Json.DecodeU16Exactly` | src/main.rs:84 | a `u16` field decodes to y exactly when the value is the integer y |
| `Json.ObjectFormDecodes` | src/main.rs:81-91 | one `payload` object with one integer `YEAR` in 0..65535 decodes to that year, whatever other members exist |
| `Json.ObjectFormRequires` | src/main.rs:87-91 | an object that decodes has exactly one `payload` member, and that member decodes to the inner struct |
| `Json.InnerObjectDecodes` | src/main.rs:81-85 | the inner object decodes to year y exactly when its only `YEAR` member is the integer y |
| `Json.InnerObjectRejects` | src/main.rs:81-85 | a `YEAR` integer outside 0..65535, negative included, is `InvalidValue`; a non-integer `YEAR` is `InvalidType` |
| `Json.MissingFields` | src/main.rs:81-91 | no `YEAR` member gives `MissingField("YEAR")`; no `payload` member gives `MissingField("payload")` |
| `Router.Topic` | src/main.rs:140 | no contract of its own; its meaning is stated by `TopicParsesBack`, `TopicInjective` and `TopicBounds`: the destination topic name |
| `Router.RoutePayload` | src/main.rs:130-151 | no contract of its own; its meaning is stated by `Classification` and `RoutedVerbatim`: the nested `match` on the payload view and the decoding |
| `Router.TopicParsesBack` | src/main.rs:140 | the topic is the prefix followed by at most 5 characters that parse back to the year, with no separator |
| `Router.TopicInjective` | src/main.rs:140 | under one prefix, two years name the same topic exactly when they are equal |
| `Router.TopicBounds` | src/main.rs:140 | year 0 gives prefix ++ "0"; year 65535 gives prefix ++ "65535" |
| `Router.Classification` | src/main.rs:130-151 | no payload, payload not well-formed UTF-8, text that does not decode, and routed: each outcome exactly for its inputs |
| `Router.RoutedVerbatim` | src/main.rs:131-143 | a routed message's text is represented by exactly the payload's bytes, and its topic is prefix ++ decimal(YEAR) of that text |
| `Router.InvalidUtf8Position` | src/main.rs:150 | the reported UTF-8 error index lies inside the payload, and the payload is well-formed before it |
| `Router.TopicDeterminedByYear` | src/main.rs:132-140 | two routed payloads share a topic exactly when they decode to the same year |
| `Router.RoutesOrders2024` | src/main.rs:131-143 | prefix "orders." and text `{"payload":{"YEAR":2024}}` route to "orders.2024" with the text unchanged |
| `Router.RejectsMissingYear` | src/main.rs:131-148 | text `{"payload":{}}` is not decodable, with `MissingField("YEAR")` |
| `Router.RejectsByteFF` | src/main.rs:150 | the payload byte 0xFF is invalid UTF-8 at index 0, with one invalid byte |
| `Router.RejectsOutOfRangeYear` | src/main.rs:81-91 | a `YEAR` of 65536 or -1 is not decodable, with `InvalidValue` |
| `Driver.Step` | src/main.rs:129-153 | no contract of its own; its meaning is stated by `StepClassification` and `PublishIsVerbatim`: the loop body's decision for one item |
| `Driver.Run` | src/main.rs:128-155 | the sends are exactly `Published` of the items handled; the loop stops only at the first routable message without a key, and otherwise handles every item it gets; the send results do not affect it |
| `Driver.Bridge` | src/main.rs:116-155 | a failed subscription sends nothing and ends with "Error: ConnectionError: <message>"; otherwise the contract of `Run` |
| `Driver.Actions` | src/main.rs:128-155 | the loop body makes one decision per fetched item |
| `Driver.ActionsAppend` | src/main.rs:128-155 | the decisions for two batches are the decisions for the first, then those for the second |
| `Driver.ActionsPrefix` | src/main.rs:128-155 | the decisions for the first k items are the first k decisions |
| `Driver.Sources` | src/main.rs:128-155 | every sent record comes from one decision that publishes exactly it; records are in decision order; every publishing decision has its record |
| `Driver.SendsAppend` | src/main.rs:137-146 | two runs of decisions send what each sends, in that order |
| `Driver.SendsSingle` | src/main.rs:137-146 | one decision sends its record if it publishes, and nothing otherwise |
| `Driver.PublishedAppend` | src/main.rs:128-155 | processing two batches in turn sends what each sends, in that order |
| `Driver.SkippedLeavesNoTrace` | src/main.rs:129-153 | a fetch error, a missing payload, bad UTF-8 or a decode error leaves the log as if the item had never been fetched |
| `Driver.SendOrderIsFetchOrder` | src/main.rs:128-146 | of two published items, the one fetched first is sent first (also per destination topic) |
| `Driver.PublishIsVerbatim` | src/main.rs:137-146 | a send carries the routed topic, the message's own key, and its payload text with the same bytes |
| `Driver.PublishedVerbatim` | src/main.rs:137-146 | the j-th record sent carries the key and exactly the payload bytes of the item it comes from |
| `Driver.StepClassification` | src/main.rs:129-153 | a fetch error and the three routing errors are skipped with their kind; a routable message is published with its key, or panics without one |
| `Driver.PublishedTopics` | src/main.rs:139-141 | every topic sent to is the prefix followed by the canonical decimal text of a number below 65536 |
| `Driver.ForwardsOrders2024` | src/main.rs:137-146 | prefix "orders.", key "k1" and text `{"payload":{"YEAR":2024}}` give exactly one record to "orders.2024" with that key and text |
| `Driver.Display` | src/main.rs:73-79 | no contract of its own; its meaning is stated by `ExitReportReadsBack`: the user-facing text of an `AppError` |
| `Driver.Debug` | src/main.rs:67-71 | no contract of its own; its meaning is stated by `ExitReportReadsBack`: the debug text, which is the user-facing text |
| `Driver.ExitReport` | src/main.rs:94-118 | no contract of its own; its meaning is stated by `ExitReportReadsBack` and `ExitReportInjective`: what is printed when `main` returns the error |
| `Driver.ExitReportReadsBack` | src/main.rs:73-79 | the report of a connection error is "Error: ConnectionError: " followed by the broker's message, unchanged |
| `Driver.ExitReportInjective` | src/main.rs:61-79 | distinct connection errors give distinct reports |

## Left out

- JSON text parsing: the reader is the parameter `parse`. Its limits are therefore not modelled: the nesting limit of 128, number classification, and escapes.
- JSON error order: serde_json reads and decodes in one streaming pass. The model parses first and decodes after. For a text that is both malformed and mis-shaped, the reported error kind can differ. The outcome, not decodable, is the same.
- JSON lone surrogates: serde_json skips ignored members without checking surrogate escapes. Whether `parse` accepts such a text is left to the parameter.
- Kafka client setup is not modelled: creating the consumer and producer, the configuration keys and their `expect` panics (src/main.rs:109-124). Only the result of `subscribe` is modelled.
- Rebalance and commit callbacks (src/main.rs:47-59): they only log.
- Offset commit and delivery guarantees belong to the broker library.
- Environment variables (src/main.rs:103-107) are I/O. The prefix is a parameter; its default is `Router.DefaultPrefix`.
- Logger setup, the `cfg(debug_assertions)` branch, and all log text (src/main.rs:95-99, 133-136, 148-153) are not modelled.
- The tokio runtime, suspension at `recv().await` and `send().await`, `message.timeout.ms` and the zero queue timeout are timing and cannot be modelled. `Run` performs each send completely before the next fetch; nothing in the model can observe overlap.
- `Driver.Run` processes a finite sequence of fetch results. The source loops forever; `AwaitingNext` stands for "waiting in `recv()` for more".
- `Driver.Run`: the broker's answer to each send is read from `delivered` and discarded. The log holds every send attempt, not only the accepted ones.
- `Driver.Message` keeps only key and payload. A record's topic, partition and offset are not used by the core.
