/**
 * The consume-route-publish loop of `main` (src/main.rs:128-155) and the one
 * fatal path before it (src/main.rs:116-118).
 *
 * The consumer's stream is given as the finite sequence of what `recv()`
 * returned; the model processes it in order and, like the source, awaits each
 * send before taking the next item. `Published` is the specification of the log
 * of records handed to the producer: a filter-and-map over the fetched items.
 */
module Driver {
  import opened Primitives
  import Utf8
  import Json
  import Router
  import DecimalText

  /** A fetched Kafka message: its key and its payload, each possibly absent. */
  datatype Message = Message(key: Option<seq<byte>>, payload: Option<seq<byte>>)

  /** What `consumer.recv().await` returned. */
  datatype Fetch = Received(msg: Message) | KafkaError(reason: string)

  /** `FutureRecord::to(topic).payload(s).key(k)`: the payload is the `&str` view of the fetched bytes. */
  datatype ProducerRecord = ProducerRecord(topic: string, key: seq<byte>, payload: string)

  /** Why an item produced no send. */
  datatype Skipped =
    | FetchFailed(reason: string)   // "Kafka Error"
    | Dropped(route: Router.Route)   // NoPayload, InvalidUtf8 or NotDecodable

  /** What the loop body does with one item. */
  datatype Action =
    | Skip(why: Skipped)
    | Publish(record: ProducerRecord)
    | Panic                          // `msg.key().unwrap()` on a message without key

  /** How processing of the given items ended. */
  datatype Termination =
    | AwaitingNext                   // every item was handled; the loop waits in `recv()`
    | Panicked(at: nat)              // the item at this index had a routable payload and no key
    | StartupFailed(report: string)  // subscribing failed; `main` returned this error

  /** The loop body's decision for one item. */
  function Step(prefix: string, parse: string -> Option<Json.Json>, f: Fetch): Action {
    match f
    case KafkaError(r) => Skip(FetchFailed(r))
    case Received(m) =>
      match Router.RoutePayload(prefix, parse, m.payload)
      case Routed(topic, text) =>
        if m.key.None? then Panic else Publish(ProducerRecord(topic, m.key.value, text))
      case other => Skip(Dropped(other))
  }

  /** The loop body's decision for each item, in fetch order. */
  function Actions(prefix: string, parse: string -> Option<Json.Json>, fs: seq<Fetch>): (acts: seq<Action>)
    ensures |acts| == |fs|
  {
    seq(|fs|, i requires 0 <= i < |fs| => Step(prefix, parse, fs[i]))
  }

  /** The records a run of decisions sends, in order: one per `Publish`. */
  function Sends(acts: seq<Action>): seq<ProducerRecord>
    decreases |acts|
  {
    if acts == [] then []
    else Sends(acts[..|acts| - 1]) + (if acts[|acts| - 1].Publish? then [acts[|acts| - 1].record] else [])
  }

  /** The records sent for `fs`: the specification of the loop's output. */
  function Published(prefix: string, parse: string -> Option<Json.Json>, fs: seq<Fetch>): seq<ProducerRecord> {
    Sends(Actions(prefix, parse, fs))
  }

  /** No decision in `acts` is the `unwrap()` panic. */
  predicate NoPanic(acts: seq<Action>) {
    forall i :: 0 <= i < |acts| ==> !acts[i].Panic?
  }

  /**
   * The loop. `delivered(k)` is the broker's answer to the k-th send; the
   * source awaits it and discards it, so nothing here depends on it: a failed
   * send is neither retried nor does it stop the loop.
   */
  method Run(prefix: string, parse: string -> Option<Json.Json>, delivered: nat -> bool, fetches: seq<Fetch>)
    returns (sent: seq<ProducerRecord>, t: Termination)
    ensures t.AwaitingNext? || t.Panicked?
    ensures t.AwaitingNext? ==> NoPanic(Actions(prefix, parse, fetches)) && sent == Published(prefix, parse, fetches)
    ensures t.Panicked? ==>
      && t.at < |fetches|
      && Step(prefix, parse, fetches[t.at]).Panic?
      && NoPanic(Actions(prefix, parse, fetches[..t.at]))
      && sent == Published(prefix, parse, fetches[..t.at])
  {
    ghost var acts := Actions(prefix, parse, fetches);
    sent := [];
    var i := 0;
    while i < |fetches|
      invariant 0 <= i <= |fetches|
      invariant NoPanic(acts[..i])
      invariant sent == Sends(acts[..i])
    {
      assert acts[..i + 1][..i] == acts[..i];
      match fetches[i] {
        case KafkaError(_) =>
        case Received(msg) =>
          match Router.RoutePayload(prefix, parse, msg.payload) {
            case Routed(topic, text) =>
              if msg.key.None? {
                ActionsPrefix(prefix, parse, fetches, i);
                return sent, Panicked(i);
              }
              var record := ProducerRecord(topic, msg.key.value, text);
              var delivery := delivered(|sent|);
              sent := sent + [record];
            case _ =>
          }
      }
      i := i + 1;
    }
    assert acts[..i] == acts;
    t := AwaitingNext;
  }

  /** The decisions for a prefix of the items are the prefix of the decisions. */
  lemma ActionsPrefix(prefix: string, parse: string -> Option<Json.Json>, fs: seq<Fetch>, k: nat)
    requires k <= |fs|
    ensures Actions(prefix, parse, fs[..k]) == Actions(prefix, parse, fs)[..k]
  {
  }

  /** The decisions for two batches are the decisions for each. */
  lemma ActionsAppend(prefix: string, parse: string -> Option<Json.Json>, a: seq<Fetch>, b: seq<Fetch>)
    ensures Actions(prefix, parse, a + b) == Actions(prefix, parse, a) + Actions(prefix, parse, b)
  {
    var l, r := Actions(prefix, parse, a + b), Actions(prefix, parse, a) + Actions(prefix, parse, b);
    forall i | 0 <= i < |l| ensures l[i] == r[i] {
      if i < |a| { assert (a + b)[i] == a[i]; } else { assert (a + b)[i] == b[i - |a|]; }
    }
  }

  // ---------------------------------------------------------------------------
  // The log as a filter-and-map of the fetched items.

  /**
   * The index of the decision each sent record comes from. Records appear in
   * the order of their decisions, each comes from a `Publish` of exactly that
   * record, and every `Publish` has its record.
   */
  function Sources(acts: seq<Action>): (idx: seq<nat>)
    ensures |idx| == |Sends(acts)|
    ensures forall j :: 0 <= j < |idx| ==> idx[j] < |acts| && acts[idx[j]] == Publish(Sends(acts)[j])
    ensures forall j, k :: 0 <= j < k < |idx| ==> idx[j] < idx[k]
    ensures forall i :: 0 <= i < |acts| && acts[i].Publish? ==> i in idx
    decreases |acts|
  {
    if acts == [] then []
    else
      var init := acts[..|acts| - 1];
      var rest := Sources(init);
      assert forall i :: 0 <= i < |init| ==> init[i] == acts[i];
      if acts[|acts| - 1].Publish? then rest + [|acts| - 1] else rest
  }

  lemma {:induction false} SendsAppend(a: seq<Action>, b: seq<Action>)
    ensures Sends(a + b) == Sends(a) + Sends(b)
    decreases |b|
  {
    if b == [] {
      assert a + b == a;
    } else {
      var b' := b[..|b| - 1];
      assert (a + b)[..|a + b| - 1] == a + b';
      assert (a + b)[|a + b| - 1] == b[|b| - 1];
      SendsAppend(a, b');
    }
  }

  /** Processing two batches one after the other sends what each sends, in that order. */
  lemma PublishedAppend(prefix: string, parse: string -> Option<Json.Json>, a: seq<Fetch>, b: seq<Fetch>)
    ensures Published(prefix, parse, a + b) == Published(prefix, parse, a) + Published(prefix, parse, b)
  {
    ActionsAppend(prefix, parse, a, b);
    SendsAppend(Actions(prefix, parse, a), Actions(prefix, parse, b));
  }

  /**
   * An item that is skipped — a fetch error, a message without payload, a
   * payload that is not UTF-8 or does not decode — leaves the log exactly as
   * if it had never been fetched, wherever it occurs.
   */
  lemma SkippedLeavesNoTrace(prefix: string, parse: string -> Option<Json.Json>, before: seq<Fetch>, f: Fetch, after: seq<Fetch>)
    requires Step(prefix, parse, f).Skip?
    ensures Published(prefix, parse, before + [f] + after) == Published(prefix, parse, before + after)
  {
    PublishedAppend(prefix, parse, before + [f], after);
    PublishedAppend(prefix, parse, before, [f]);
    PublishedAppend(prefix, parse, before, after);
    assert Actions(prefix, parse, [f]) == [Step(prefix, parse, f)];
    SendsSingle(Step(prefix, parse, f));
  }

  /** A single decision sends its record, if it is a `Publish`. */
  lemma SendsSingle(a: Action)
    ensures Sends([a]) == if a.Publish? then [a.record] else []
  {
    assert [a][..0] == [];
  }

  /**
   * Order preservation: of two items that are both published, the one fetched
   * first is sent first. In particular records for one destination topic
   * arrive there in fetch order.
   */
  lemma SendOrderIsFetchOrder(prefix: string, parse: string -> Option<Json.Json>, fs: seq<Fetch>, i: nat, k: nat)
    requires i < k < |fs|
    requires Step(prefix, parse, fs[i]).Publish? && Step(prefix, parse, fs[k]).Publish?
    ensures exists p, q :: 0 <= p < q < |Published(prefix, parse, fs)| &&
              Published(prefix, parse, fs)[p] == Step(prefix, parse, fs[i]).record &&
              Published(prefix, parse, fs)[q] == Step(prefix, parse, fs[k]).record
  {
    var acts := Actions(prefix, parse, fs);
    var idx := Sources(acts);
    assert acts[i] == Step(prefix, parse, fs[i]) && acts[k] == Step(prefix, parse, fs[k]);
    var p :| 0 <= p < |idx| && idx[p] == i;
    var q :| 0 <= q < |idx| && idx[q] == k;
    assert p < q;
    assert Published(prefix, parse, fs) == Sends(acts);
    assert acts[idx[p]] == Publish(Sends(acts)[p]) && acts[idx[q]] == Publish(Sends(acts)[q]);
  }

  /** What a `Publish` sends: the routed topic, the message's own key, and its payload text unchanged. */
  lemma PublishIsVerbatim(prefix: string, parse: string -> Option<Json.Json>, f: Fetch)
    requires Step(prefix, parse, f).Publish?
    ensures var r := Step(prefix, parse, f).record;
      && f.Received? && f.msg.key == Some(r.key)
      && f.msg.payload == Some(Utf8.Encode(r.payload))
      && Json.FromStr(parse, r.payload).Ok?
      && r.topic == Router.Topic(prefix, Json.FromStr(parse, r.payload).value.innerPayload.year)
  {
    Router.RoutedVerbatim(prefix, parse, f.msg.payload);
  }

  /**
   * Byte-for-byte forwarding of the whole log: the j-th record sent carries
   * the key and exactly the payload bytes of the item it comes from.
   */
  lemma PublishedVerbatim(prefix: string, parse: string -> Option<Json.Json>, fs: seq<Fetch>, j: nat)
    requires j < |Published(prefix, parse, fs)|
    ensures var r, i := Published(prefix, parse, fs)[j], Sources(Actions(prefix, parse, fs))[j];
      && i < |fs| && fs[i].Received?
      && fs[i].msg.key == Some(r.key)
      && fs[i].msg.payload == Some(Utf8.Encode(r.payload))
  {
    var i := Sources(Actions(prefix, parse, fs))[j];
    assert Actions(prefix, parse, fs)[i] == Step(prefix, parse, fs[i]);
    PublishIsVerbatim(prefix, parse, fs[i]);
  }

  /**
   * Exact classification of one item: a fetch error, a missing payload, bad
   * UTF-8 and a decode error are skipped; a routable message is published when
   * it has a key and panics when it has none.
   */
  lemma StepClassification(prefix: string, parse: string -> Option<Json.Json>, f: Fetch)
    ensures f.KafkaError? ==> Step(prefix, parse, f) == Skip(FetchFailed(f.reason))
    ensures f.Received? && f.msg.payload.None? ==> Step(prefix, parse, f) == Skip(Dropped(Router.NoPayload))
    ensures f.Received? && f.msg.payload.Some? && !Utf8.WellFormed(f.msg.payload.value) ==>
              Step(prefix, parse, f).Skip? && Step(prefix, parse, f).why.route.InvalidUtf8?
    ensures f.Received? && f.msg.payload.Some? && Utf8.Decode(f.msg.payload.value).Ok? ==>
              var text := Utf8.Decode(f.msg.payload.value).value;
              && (Json.FromStr(parse, text).Err? ==>
                    Step(prefix, parse, f) == Skip(Dropped(Router.NotDecodable(Json.FromStr(parse, text).error))))
              && (Json.FromStr(parse, text).Ok? && f.msg.key.None? ==> Step(prefix, parse, f) == Panic)
              && (Json.FromStr(parse, text).Ok? && f.msg.key.Some? ==>
                    Step(prefix, parse, f) == Publish(ProducerRecord(
                      Router.Topic(prefix, Json.FromStr(parse, text).value.innerPayload.year), f.msg.key.value, text)))
  {
    if f.Received? {
      Router.Classification(prefix, parse, f.msg.payload);
    }
  }

  /** Every topic in the log is the prefix followed by the canonical decimal text of a `u16`. */
  lemma PublishedTopics(prefix: string, parse: string -> Option<Json.Json>, fs: seq<Fetch>, j: nat)
    requires j < |Published(prefix, parse, fs)|
    ensures var topic := Published(prefix, parse, fs)[j].topic;
      && prefix <= topic
      && |topic| <= |prefix| + 5
      && DecimalText.IsCanonical(topic[|prefix|..])
      && DecimalText.ParseDecimal(topic[|prefix|..]).Some?
      && DecimalText.ParseDecimal(topic[|prefix|..]).value < 0x1_0000
  {
    var i := Sources(Actions(prefix, parse, fs))[j];
    var r := Published(prefix, parse, fs)[j];
    assert Actions(prefix, parse, fs)[i] == Step(prefix, parse, fs[i]);
    PublishIsVerbatim(prefix, parse, fs[i]);
    var y := Json.FromStr(parse, r.payload).value.innerPayload.year;
    Router.TopicParsesBack(prefix, y);
    assert r.topic[|prefix|..] == DecimalText.Show(y as nat);
  }

  /** Prefix `orders.`, key `k1`, text `{"payload":{"YEAR":2024}}`: one record to `orders.2024` with key and text unchanged. */
  lemma ForwardsOrders2024(parse: string -> Option<Json.Json>, text: string)
    requires text == "{\"payload\":{\"YEAR\":2024}}"
    requires parse(text) == Some(Json.Obj([("payload", Json.Obj([("YEAR", Json.Num(Json.Int(2024)))]))]))
    ensures var k1 := Utf8.Encode("k1");
      Published("orders.", parse, [Received(Message(Some(k1), Some(Utf8.Encode(text))))]) ==
        [ProducerRecord("orders.2024", k1, text)]
  {
    Router.RoutesOrders2024(parse, text);
    var fs := [Received(Message(Some(Utf8.Encode("k1")), Some(Utf8.Encode(text))))];
    assert Actions("orders.", parse, fs) == [Publish(ProducerRecord("orders.2024", Utf8.Encode("k1"), text))];
    SendsSingle(Publish(ProducerRecord("orders.2024", Utf8.Encode("k1"), text)));
  }

  // ---------------------------------------------------------------------------
  // Start-up: the only fatal path.

  /** The application's one error kind (src/main.rs:61-63): the broker refused the connection, with the client library's message. */
  datatype AppError = ConnectionError(msg: string)

  /** The user-facing text of an error (src/main.rs:73-79): the kind, a colon, then the message. */
  function Display(e: AppError): string {
    match e
    case ConnectionError(s) => "ConnectionError: " + s
  }

  /** The debug text of an error (src/main.rs:67-71) is its user-facing text. */
  function Debug(e: AppError): string {
    Display(e)
  }

  /** What the Rust runtime writes when `main` returns `Err(e)`: `Error: ` and the `Debug` text. */
  function ExitReport(e: AppError): string {
    "Error: " + Debug(e)
  }

  /** The report names the error kind and keeps the broker's message whole, so distinct messages give distinct reports. */
  lemma ExitReportReadsBack(e: AppError)
    ensures |ExitReport(e)| == 24 + |e.msg|
    ensures ExitReport(e)[..24] == "Error: ConnectionError: "
    ensures ExitReport(e)[24..] == e.msg
  {
    assert ExitReport(e) == "Error: ConnectionError: " + e.msg;
  }

  lemma ExitReportInjective(a: AppError, b: AppError)
    ensures ExitReport(a) == ExitReport(b) <==> a == b
  {
    if ExitReport(a) == ExitReport(b) {
      ExitReportReadsBack(a);
      ExitReportReadsBack(b);
    }
  }

  /**
   * `main` from the subscription on: `subscription` is what
   * `consumer.subscribe` returned. A failure ends the process before anything
   * is fetched, with the connection error as its report; otherwise the loop
   * runs over `fetches`.
   */
  method Bridge(subscription: Result<(), string>, prefix: string, parse: string -> Option<Json.Json>,
                delivered: nat -> bool, fetches: seq<Fetch>)
    returns (sent: seq<ProducerRecord>, t: Termination)
    ensures subscription.Err? ==> sent == [] && t == StartupFailed(ExitReport(ConnectionError(subscription.error)))
    ensures subscription.Ok? ==> t.AwaitingNext? || t.Panicked?
    ensures subscription.Ok? && t.AwaitingNext? ==>
              NoPanic(Actions(prefix, parse, fetches)) && sent == Published(prefix, parse, fetches)
    ensures subscription.Ok? && t.Panicked? ==>
              && t.at < |fetches|
              && Step(prefix, parse, fetches[t.at]).Panic?
              && NoPanic(Actions(prefix, parse, fetches[..t.at]))
              && sent == Published(prefix, parse, fetches[..t.at])
  {
    if subscription.Err? {
      return [], StartupFailed(ExitReport(ConnectionError(subscription.error)));
    }
    sent, t := Run(prefix, parse, delivered, fetches);
  }
}
