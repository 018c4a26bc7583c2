/** Journal events: the line that is printed for an event, the event that is read from a line, and
    the round trip between them. Fields of broker economics are not part of this model, and a
    floating-point field is the number text it is printed as. */
module JournalEvent {

  import opened Bytes
  import opened JsonString
  import opened JsonNumber
  import opened JsonObject
  import JsonGrammar
  import JsonParser
  import Utf8

  type int32 = x: int | Int32.min <= x <= Int32.max
  type int64 = x: int | Int64.min <= x <= Int64.max
  type uint64 = x: int | UInt64.min <= x <= UInt64.max

  const SCHEMA_VERSION: int32 := 4

  datatype Event = Event(
    schemaVersion: int32,
    eventType: bytes,
    tsMs: int64,
    orderId: int64,
    reqId: bytes,
    clientReqId: bytes,
    traceId: bytes,
    eventId: bytes,
    riskCode: bytes,
    venue: bytes,
    strategy: bytes,
    account: bytes,
    executionDomain: bytes,
    requestHash: bytes,
    venueCorrelationId: bytes,
    brokerCallbackType: bytes,
    brokerServiceEpoch: bytes,
    brokerConnectionEpoch: uint64,
    brokerClientId: int32,
    brokerRequestId: int64,
    brokerErrorCode: int32,
    brokerMessage: bytes,
    brokerAdvancedOrderRejectJson: bytes,
    brokerWhyHeld: bytes,
    brokerExecutionId: bytes,
    brokerRemainingQuantity: bytes,
    brokerMarketCapPrice: bytes,
    instrument: bytes,
    side: bytes,
    qty: bytes,
    price: bytes,
    status: bytes,
    reason: bytes,
    source: bytes
  )

  /** The printed schema version: an unset one becomes the current one. */
  function Version(e: Event): int32 {
    if e.schemaVersion > 0 then e.schemaVersion else SCHEMA_VERSION
  }

  /** The printed request id: the legacy alias stands in for a missing one. */
  function RequestId(e: Event): bytes {
    if e.reqId == [] then e.clientReqId else e.reqId
  }

  const COUNT: nat := 34

  /** The keys of the printed object, in order. */
  function Key(i: nat): string
    requires i < COUNT
  {
    match i
    case 0 => "schema_version"
    case 1 => "event"
    case 2 => "ts_ms"
    case 3 => "order_id"
    case 4 => "req_id"
    case 5 => "client_req_id"
    case 6 => "trace_id"
    case 7 => "event_id"
    case 8 => "risk_code"
    case 9 => "venue"
    case 10 => "strategy"
    case 11 => "account"
    case 12 => "execution_domain"
    case 13 => "request_hash"
    case 14 => "venue_correlation_id"
    case 15 => "broker_callback_type"
    case 16 => "broker_service_epoch"
    case 17 => "broker_connection_epoch"
    case 18 => "broker_client_id"
    case 19 => "broker_request_id"
    case 20 => "broker_error_code"
    case 21 => "broker_message"
    case 22 => "broker_advanced_order_reject_json"
    case 23 => "broker_why_held"
    case 24 => "broker_execution_id"
    case 25 => "broker_remaining_quantity"
    case 26 => "broker_market_cap_price"
    case 27 => "instrument"
    case 28 => "side"
    case 29 => "qty"
    case 30 => "price"
    case 31 => "status"
    case 32 => "reason"
    case _ => "source"
  }

  /** The value printed under each key. */
  function FieldAt(e: Event, i: nat): Field
    requires i < COUNT
  {
    match i
    case 0 => Number(IntText(e.schemaVersion))
    case 1 => Text(e.eventType)
    case 2 => Number(IntText(e.tsMs))
    case 3 => Number(IntText(e.orderId))
    case 4 => Text(e.reqId)
    case 5 => Text(e.clientReqId)
    case 6 => Text(e.traceId)
    case 7 => Text(e.eventId)
    case 8 => Text(e.riskCode)
    case 9 => Text(e.venue)
    case 10 => Text(e.strategy)
    case 11 => Text(e.account)
    case 12 => Text(e.executionDomain)
    case 13 => Text(e.requestHash)
    case 14 => Text(e.venueCorrelationId)
    case 15 => Text(e.brokerCallbackType)
    case 16 => Text(e.brokerServiceEpoch)
    case 17 => Number(IntText(e.brokerConnectionEpoch))
    case 18 => Number(IntText(e.brokerClientId))
    case 19 => Number(IntText(e.brokerRequestId))
    case 20 => Number(IntText(e.brokerErrorCode))
    case 21 => Text(e.brokerMessage)
    case 22 => Text(e.brokerAdvancedOrderRejectJson)
    case 23 => Text(e.brokerWhyHeld)
    case 24 => Text(e.brokerExecutionId)
    case 25 => Number(e.brokerRemainingQuantity)
    case 26 => Number(e.brokerMarketCapPrice)
    case 27 => Text(e.instrument)
    case 28 => Text(e.side)
    case 29 => Number(e.qty)
    case 30 => Number(e.price)
    case 31 => Text(e.status)
    case 32 => Text(e.reason)
    case _ => Text(e.source)
  }

  /** An event and what is printed and read back for it: the current schema version for an unset one, and one
      request id under both keys, the legacy alias standing in for a missing one. */
  predicate Alike(e: Event, x: Event) {
    && x == e.(schemaVersion := x.schemaVersion, reqId := x.reqId, clientReqId := x.clientReqId)
    && (e.schemaVersion >= 1 ==> x.schemaVersion == e.schemaVersion)
    && (e.schemaVersion < 1 ==> x.schemaVersion == 4)
    && (e.reqId != [] ==> x.reqId == e.reqId) && (e.reqId == [] ==> x.reqId == e.clientReqId)
    && x.clientReqId == x.reqId
  }

  function Normalised(e: Event): (x: Event)
    ensures Alike(e, x)
  {
    e.(schemaVersion := Version(e), reqId := RequestId(e), clientReqId := RequestId(e))
  }

  function MembersOf(e: Event): (ms: seq<Member>)
    ensures |ms| == COUNT
  {
    seq(COUNT, i requires 0 <= i < COUNT => Member(Ascii(Key(i)), FieldAt(Normalised(e), i)))
  }

  /** BuildJsonLine. */
  function BuildLine(e: Event): bytes {
    PrintObject(MembersOf(e))
  }

  // ---- Reading fields: a missing key leaves the default, a key of the wrong kind refuses the line

  predicate TextOk(f: Fields, k: bytes) {
    k in f ==> f[k].Text?
  }

  function TextOr(f: Fields, k: bytes): bytes {
    if k in f && f[k].Text? then f[k].value else []
  }

  predicate IntOk(f: Fields, k: bytes, w: Width) {
    k in f ==> f[k].Number? && Fit(f[k].text, w).Some?
  }

  function IntOr(f: Fields, k: bytes, w: Width, default: int): (r: int)
    requires w.min <= default <= w.max
    ensures w.min <= r <= w.max
  {
    if k in f && f[k].Number? && Fit(f[k].text, w).Some? then Fit(f[k].text, w).value else default
  }

  predicate DoubleOk(f: Fields, k: bytes) {
    k in f ==> f[k].Number?
  }

  function DoubleOr(f: Fields, k: bytes): bytes {
    if k in f && f[k].Number? then f[k].text else [ZERO]
  }

  predicate KindsOk(f: Fields) {
    && IntOk(f, Ascii("schema_version"), Int32)
    && TextOk(f, Ascii("event"))
    && IntOk(f, Ascii("ts_ms"), Int64)
    && IntOk(f, Ascii("order_id"), Int64)
    && TextOk(f, Ascii("req_id"))
    && TextOk(f, Ascii("client_req_id"))
    && TextOk(f, Ascii("trace_id"))
    && TextOk(f, Ascii("event_id"))
    && TextOk(f, Ascii("risk_code"))
    && TextOk(f, Ascii("venue"))
    && TextOk(f, Ascii("strategy"))
    && TextOk(f, Ascii("account"))
    && TextOk(f, Ascii("execution_domain"))
    && TextOk(f, Ascii("request_hash"))
    && TextOk(f, Ascii("venue_correlation_id"))
    && TextOk(f, Ascii("broker_callback_type"))
    && TextOk(f, Ascii("broker_service_epoch"))
    && IntOk(f, Ascii("broker_connection_epoch"), UInt64)
    && IntOk(f, Ascii("broker_client_id"), Int32)
    && IntOk(f, Ascii("broker_request_id"), Int64)
    && IntOk(f, Ascii("broker_error_code"), Int32)
    && TextOk(f, Ascii("broker_message"))
    && TextOk(f, Ascii("broker_advanced_order_reject_json"))
    && TextOk(f, Ascii("broker_why_held"))
    && TextOk(f, Ascii("broker_execution_id"))
    && DoubleOk(f, Ascii("broker_remaining_quantity"))
    && DoubleOk(f, Ascii("broker_market_cap_price"))
    && TextOk(f, Ascii("instrument"))
    && TextOk(f, Ascii("side"))
    && DoubleOk(f, Ascii("qty"))
    && DoubleOk(f, Ascii("price"))
    && TextOk(f, Ascii("status"))
    && TextOk(f, Ascii("reason"))
    && TextOk(f, Ascii("source"))
  }

  function EventOf(f: Fields): Event {
    Event(
      IntOr(f, Ascii("schema_version"), Int32, 1),
      TextOr(f, Ascii("event")),
      IntOr(f, Ascii("ts_ms"), Int64, 0),
      IntOr(f, Ascii("order_id"), Int64, -1),
      TextOr(f, Ascii("req_id")),
      TextOr(f, Ascii("client_req_id")),
      TextOr(f, Ascii("trace_id")),
      TextOr(f, Ascii("event_id")),
      TextOr(f, Ascii("risk_code")),
      TextOr(f, Ascii("venue")),
      TextOr(f, Ascii("strategy")),
      TextOr(f, Ascii("account")),
      TextOr(f, Ascii("execution_domain")),
      TextOr(f, Ascii("request_hash")),
      TextOr(f, Ascii("venue_correlation_id")),
      TextOr(f, Ascii("broker_callback_type")),
      TextOr(f, Ascii("broker_service_epoch")),
      IntOr(f, Ascii("broker_connection_epoch"), UInt64, 0),
      IntOr(f, Ascii("broker_client_id"), Int32, -1),
      IntOr(f, Ascii("broker_request_id"), Int64, 0),
      IntOr(f, Ascii("broker_error_code"), Int32, 0),
      TextOr(f, Ascii("broker_message")),
      TextOr(f, Ascii("broker_advanced_order_reject_json")),
      TextOr(f, Ascii("broker_why_held")),
      TextOr(f, Ascii("broker_execution_id")),
      DoubleOr(f, Ascii("broker_remaining_quantity")),
      DoubleOr(f, Ascii("broker_market_cap_price")),
      TextOr(f, Ascii("instrument")),
      TextOr(f, Ascii("side")),
      DoubleOr(f, Ascii("qty")),
      DoubleOr(f, Ascii("price")),
      TextOr(f, Ascii("status")),
      TextOr(f, Ascii("reason")),
      TextOr(f, Ascii("source"))
    )
  }

  predicate Economic(k: bytes) {
    |k| >= 12 && k[..12] == Ascii("broker_econ_")
  }

  /** The checks on the values; a commission record is only valid with its economics. */
  predicate Acceptable(e: Event) {
    && 1 <= e.schemaVersion <= SCHEMA_VERSION
    && e.brokerClientId >= -1
    && e.eventType != Ascii("broker_commission")
    && e.eventType != []
  }

  /** Each request id stands in for the other when that one is missing. */
  function WithRequestIds(e: Event): Event {
    var reqId := if e.reqId == [] then e.clientReqId else e.reqId;
    e.(reqId := reqId, clientReqId := if e.clientReqId == [] then reqId else e.clientReqId)
  }

  function ReadFields(f: Fields): Option<Event> {
    if KindsOk(f) && (forall k :: k in f ==> !Economic(k)) && Acceptable(EventOf(f))
    then Some(WithRequestIds(EventOf(f))) else None
  }

  /** ParseJsonLine, for lines without economics. */
  function ParseLine(line: bytes): Option<Event> {
    var f := ParseDocument(line);
    if f.None? then None else ReadFields(f.value)
  }

  /** ParseJsonLine with the cursor parser. */
  method ParseJsonLine(line: bytes) returns (r: Option<Event>)
    ensures r == ParseLine(line)
  {
    var parser := new JsonParser.JsonObjectParser(line);
    var ok, fields := parser.Parse();
    r := if ok then ReadFields(fields) else None;
  }

  // ---- The round trip

  /** The number texts of the floating-point fields are numbers. */
  ghost predicate NumbersPrint(e: Event) {
    IsNumber(e.brokerRemainingQuantity) && IsNumber(e.brokerMarketCapPrice) && IsNumber(e.qty) && IsNumber(e.price)
  }

  /** Every string the line prints is valid UTF-8. */
  predicate StringsValid(e: Event) {
    forall i :: 0 <= i < COUNT ==> ValidField(FieldAt(Normalised(e), i))
  }

  /** What a caller can check before: the event can be stored and read back. */
  predicate Storable(e: Event) {
    && StringsValid(e)
    && Version(e) <= SCHEMA_VERSION
    && e.brokerClientId >= -1
    && e.eventType != []
    && e.eventType != Ascii("broker_commission")
  }

  // ---- The printed keys are plain, distinct and not economic

  /** A number for each key that tells it apart from the others: its length, its first and its last character,
      one octet each. RankedKeys0 to RankedKeys3 check the numbers against the keys. */
  function Rank(i: nat): int
    requires i < COUNT
  {
    match i
    case 0 => 0x0e_73_6e
    case 1 => 0x05_65_74
    case 2 => 0x05_74_73
    case 3 => 0x08_6f_64
    case 4 => 0x06_72_64
    case 5 => 0x0d_63_64
    case 6 => 0x08_74_64
    case 7 => 0x08_65_64
    case 8 => 0x09_72_65
    case 9 => 0x05_76_65
    case 10 => 0x08_73_79
    case 11 => 0x07_61_74
    case 12 => 0x10_65_6e
    case 13 => 0x0c_72_68
    case 14 => 0x14_76_64
    case 15 => 0x14_62_65
    case 16 => 0x14_62_68
    case 17 => 0x17_62_68
    case 18 => 0x10_62_64
    case 19 => 0x11_62_64
    case 20 => 0x11_62_65
    case 21 => 0x0e_62_65
    case 22 => 0x21_62_6e
    case 23 => 0x0f_62_64
    case 24 => 0x13_62_64
    case 25 => 0x19_62_79
    case 26 => 0x17_62_65
    case 27 => 0x0a_69_74
    case 28 => 0x04_73_65
    case 29 => 0x03_71_79
    case 30 => 0x05_70_65
    case 31 => 0x06_73_73
    case 32 => 0x06_72_6e
    case _ => 0x06_73_65
  }

  /** The other way round, so that no two keys have the same number. */
  function IndexOfRank(r: int): int {
    match r
    case 0x0e_73_6e => 0
    case 0x05_65_74 => 1
    case 0x05_74_73 => 2
    case 0x08_6f_64 => 3
    case 0x06_72_64 => 4
    case 0x0d_63_64 => 5
    case 0x08_74_64 => 6
    case 0x08_65_64 => 7
    case 0x09_72_65 => 8
    case 0x05_76_65 => 9
    case 0x08_73_79 => 10
    case 0x07_61_74 => 11
    case 0x10_65_6e => 12
    case 0x0c_72_68 => 13
    case 0x14_76_64 => 14
    case 0x14_62_65 => 15
    case 0x14_62_68 => 16
    case 0x17_62_68 => 17
    case 0x10_62_64 => 18
    case 0x11_62_64 => 19
    case 0x11_62_65 => 20
    case 0x0e_62_65 => 21
    case 0x21_62_6e => 22
    case 0x0f_62_64 => 23
    case 0x13_62_64 => 24
    case 0x19_62_79 => 25
    case 0x17_62_65 => 26
    case 0x0a_69_74 => 27
    case 0x04_73_65 => 28
    case 0x03_71_79 => 29
    case 0x05_70_65 => 30
    case 0x06_73_73 => 31
    case 0x06_72_6e => 32
    case 0x06_73_65 => 33
    case _ => -1
  }

  lemma RanksAreDistinct(i: nat)
    requires i < COUNT
    ensures IndexOfRank(Rank(i)) == i
  {
  }

  predicate Ranked(s: string, r: int) {
    && s != ""
    && (|s| * 256 + s[0] as int) * 256 + s[|s| - 1] as int == r
    && (|s| >= 12 ==> s[7] != 'e' || s[8] != 'c')
  }

  predicate Lowercase(s: string) {
    forall i :: 0 <= i < |s| ==> s[i] == '_' || 'a' <= s[i] <= 'z'
  }

  lemma LowercaseKeys0(i: nat)
    requires 0 <= i < 9
    ensures Lowercase(Key(i))
  {
  }

  lemma LowercaseKeys1(i: nat)
    requires 9 <= i < 13
    ensures Lowercase(Key(i))
  {
  }

  lemma LowercaseKeys2(i: nat)
    requires 13 <= i < 16
    ensures Lowercase(Key(i))
  {
  }

  lemma LowercaseKeys3(i: nat)
    requires 16 <= i < 20
    ensures Lowercase(Key(i))
  {
  }

  lemma LowercaseKeys4(i: nat)
    requires 20 <= i < 22
    ensures Lowercase(Key(i))
  {
  }

  lemma LowercaseKeys5(i: nat)
    requires 22 <= i < 24
    ensures Lowercase(Key(i))
  {
  }

  lemma LowercaseKeys6(i: nat)
    requires 24 <= i < 27
    ensures Lowercase(Key(i))
  {
  }

  lemma LowercaseKeys7(i: nat)
    requires 27 <= i < 34
    ensures Lowercase(Key(i))
  {
  }

  lemma RankedKeys0(i: nat)
    requires 0 <= i < 9
    ensures Ranked(Key(i), Rank(i))
  {
  }

  lemma RankedKeys1(i: nat)
    requires 9 <= i < 18
    ensures Ranked(Key(i), Rank(i))
  {
  }

  lemma RankedKeys2(i: nat)
    requires 18 <= i < 27
    ensures Ranked(Key(i), Rank(i))
  {
  }

  lemma RankedKeys3(i: nat)
    requires 27 <= i < 34
    ensures Ranked(Key(i), Rank(i))
  {
  }

  lemma KeyFacts(i: nat)
    requires i < COUNT
    ensures Lowercase(Key(i)) && Ranked(Key(i), Rank(i))
  {
    if i < 9 {
      LowercaseKeys0(i);
    } else if i < 13 {
      LowercaseKeys1(i);
    } else if i < 16 {
      LowercaseKeys2(i);
    } else if i < 20 {
      LowercaseKeys3(i);
    } else if i < 22 {
      LowercaseKeys4(i);
    } else if i < 24 {
      LowercaseKeys5(i);
    } else if i < 27 {
      LowercaseKeys6(i);
    } else {
      LowercaseKeys7(i);
    }
    if i < 9 {
      RankedKeys0(i);
    } else if i < 18 {
      RankedKeys1(i);
    } else if i < 27 {
      RankedKeys2(i);
    } else {
      RankedKeys3(i);
    }
  }

  lemma PlainText(s: string)
    requires Lowercase(s) && |s| > 0
    ensures PlainKey(Ascii(s))
    ensures forall i :: 0 <= i < |s| ==> Ascii(s)[i] == s[i] as int
  {
  }

  lemma GoodKey(i: nat)
    requires i < COUNT
    ensures PlainKey(Ascii(Key(i))) && !Economic(Ascii(Key(i)))
  {
    KeyFacts(i);
    PlainText(Key(i));
    var k := Ascii(Key(i));
    assert |k| >= 12 ==> k[..12][7] == k[7] && k[..12][8] == k[8];
  }

  lemma DifferentKeys(i: nat, j: nat)
    requires i < j < COUNT
    ensures Ascii(Key(i)) != Ascii(Key(j))
  {
    KeyFacts(i);
    KeyFacts(j);
    PlainText(Key(i));
    PlainText(Key(j));
    RanksAreDistinct(i);
    RanksAreDistinct(j);
  }

  lemma FieldIsPrintable(e: Event, i: nat)
    requires i < COUNT && NumbersPrint(e)
    ensures !FieldAt(e, i).Other? && (FieldAt(e, i).Number? ==> IsNumber(FieldAt(e, i).text))
  {
    hide IsNumber, IntText, Key;
    match i
    case 0 => IntTextIsNumber(e.schemaVersion);
    case 2 => IntTextIsNumber(e.tsMs);
    case 3 => IntTextIsNumber(e.orderId);
    case 17 => IntTextIsNumber(e.brokerConnectionEpoch);
    case 18 => IntTextIsNumber(e.brokerClientId);
    case 19 => IntTextIsNumber(e.brokerRequestId);
    case 20 => IntTextIsNumber(e.brokerErrorCode);
    case _ =>
  }

  lemma MembersArePrintable(e: Event)
    requires NumbersPrint(e)
    ensures DistinctKeys(MembersOf(e))
    ensures forall i :: 0 <= i < COUNT ==> Printable(MembersOf(e)[i])
  {
    var ms := MembersOf(e);
    forall i, j | 0 <= i < j < COUNT ensures ms[i].key != ms[j].key {
      DifferentKeys(i, j);
    }
    forall i | 0 <= i < COUNT ensures Printable(ms[i]) {
      GoodKey(i);
      FieldIsPrintable(Normalised(e), i);
    }
  }

  lemma ValidMembers(e: Event)
    ensures ValidText(MembersOf(e)) <==> StringsValid(e)
  {
    var ms := MembersOf(e);
    assert forall i :: 0 <= i < COUNT ==> ms[i].field == FieldAt(Normalised(e), i);
  }

  // ---- Any printed fields

  /** The fields found in a line: those of the event that were chosen, and no other field of an event. */
  predicate Holds(f: Fields, e: Event, chosen: set<nat>) {
    forall i :: 0 <= i < COUNT ==>
      && (Ascii(Key(i)) in f <==> i in chosen)
      && (i in chosen ==> f[Ascii(Key(i))] == FieldAt(e, i))
  }

  lemma HeldAt(f: Fields, e: Event, chosen: set<nat>, i: nat)
    requires Holds(f, e, chosen) && i < COUNT
    ensures Ascii(Key(i)) in f <==> i in chosen
    ensures i in chosen ==> f[Ascii(Key(i))] == FieldAt(e, i)
  {
  }

  lemma TextHeld(f: Fields, e: Event, chosen: set<nat>, i: nat, key: string, v: bytes)
    requires Holds(f, e, chosen) && i < COUNT && Key(i) == key && FieldAt(e, i) == Text(v)
    ensures TextOk(f, Ascii(key)) && TextOr(f, Ascii(key)) == if i in chosen then v else []
  {
    HeldAt(f, e, chosen, i);
  }

  lemma TextsHeld0(f: Fields, e: Event, chosen: set<nat>)
    requires Holds(f, e, chosen)
    ensures TextOk(f, Ascii("event")) && TextOr(f, Ascii("event")) == if 1 in chosen then e.eventType else []
    ensures TextOk(f, Ascii("req_id")) && TextOr(f, Ascii("req_id")) == if 4 in chosen then e.reqId else []
    ensures TextOk(f, Ascii("client_req_id"))
    ensures TextOr(f, Ascii("client_req_id")) == if 5 in chosen then e.clientReqId else []
    ensures TextOk(f, Ascii("trace_id")) && TextOr(f, Ascii("trace_id")) == if 6 in chosen then e.traceId else []
    ensures TextOk(f, Ascii("event_id")) && TextOr(f, Ascii("event_id")) == if 7 in chosen then e.eventId else []
    ensures TextOk(f, Ascii("risk_code")) && TextOr(f, Ascii("risk_code")) == if 8 in chosen then e.riskCode else []
    ensures TextOk(f, Ascii("venue")) && TextOr(f, Ascii("venue")) == if 9 in chosen then e.venue else []
    ensures TextOk(f, Ascii("strategy")) && TextOr(f, Ascii("strategy")) == if 10 in chosen then e.strategy else []
  {
    hide TextOk, TextOr, Holds, Ascii;
    TextHeld(f, e, chosen, 1, "event", e.eventType);
    TextHeld(f, e, chosen, 4, "req_id", e.reqId);
    TextHeld(f, e, chosen, 5, "client_req_id", e.clientReqId);
    TextHeld(f, e, chosen, 6, "trace_id", e.traceId);
    TextHeld(f, e, chosen, 7, "event_id", e.eventId);
    TextHeld(f, e, chosen, 8, "risk_code", e.riskCode);
    TextHeld(f, e, chosen, 9, "venue", e.venue);
    TextHeld(f, e, chosen, 10, "strategy", e.strategy);
  }

  lemma TextsHeld1(f: Fields, e: Event, chosen: set<nat>)
    requires Holds(f, e, chosen)
    ensures TextOk(f, Ascii("account")) && TextOr(f, Ascii("account")) == if 11 in chosen then e.account else []
    ensures TextOk(f, Ascii("execution_domain"))
    ensures TextOr(f, Ascii("execution_domain")) == if 12 in chosen then e.executionDomain else []
    ensures TextOk(f, Ascii("request_hash"))
    ensures TextOr(f, Ascii("request_hash")) == if 13 in chosen then e.requestHash else []
    ensures TextOk(f, Ascii("venue_correlation_id"))
    ensures TextOr(f, Ascii("venue_correlation_id")) == if 14 in chosen then e.venueCorrelationId else []
  {
    hide TextOk, TextOr, Holds, Ascii;
    TextHeld(f, e, chosen, 11, "account", e.account);
    TextHeld(f, e, chosen, 12, "execution_domain", e.executionDomain);
    TextHeld(f, e, chosen, 13, "request_hash", e.requestHash);
    TextHeld(f, e, chosen, 14, "venue_correlation_id", e.venueCorrelationId);
  }

  lemma TextsHeld2(f: Fields, e: Event, chosen: set<nat>)
    requires Holds(f, e, chosen)
    ensures TextOk(f, Ascii("broker_callback_type"))
    ensures TextOr(f, Ascii("broker_callback_type")) == if 15 in chosen then e.brokerCallbackType else []
    ensures TextOk(f, Ascii("broker_service_epoch"))
    ensures TextOr(f, Ascii("broker_service_epoch")) == if 16 in chosen then e.brokerServiceEpoch else []
    ensures TextOk(f, Ascii("broker_message"))
    ensures TextOr(f, Ascii("broker_message")) == if 21 in chosen then e.brokerMessage else []
    ensures TextOk(f, Ascii("broker_advanced_order_reject_json"))
    ensures TextOr(f, Ascii("broker_advanced_order_reject_json")) == if 22 in chosen
      then e.brokerAdvancedOrderRejectJson else []
  {
    hide TextOk, TextOr, Holds, Ascii;
    TextHeld(f, e, chosen, 15, "broker_callback_type", e.brokerCallbackType);
    TextHeld(f, e, chosen, 16, "broker_service_epoch", e.brokerServiceEpoch);
    TextHeld(f, e, chosen, 21, "broker_message", e.brokerMessage);
    TextHeld(f, e, chosen, 22, "broker_advanced_order_reject_json", e.brokerAdvancedOrderRejectJson);
  }

  lemma TextsHeld3(f: Fields, e: Event, chosen: set<nat>)
    requires Holds(f, e, chosen)
    ensures TextOk(f, Ascii("broker_why_held"))
    ensures TextOr(f, Ascii("broker_why_held")) == if 23 in chosen then e.brokerWhyHeld else []
    ensures TextOk(f, Ascii("broker_execution_id"))
    ensures TextOr(f, Ascii("broker_execution_id")) == if 24 in chosen then e.brokerExecutionId else []
    ensures TextOk(f, Ascii("instrument"))
    ensures TextOr(f, Ascii("instrument")) == if 27 in chosen then e.instrument else []
  {
    hide TextOk, TextOr, Holds, Ascii;
    TextHeld(f, e, chosen, 23, "broker_why_held", e.brokerWhyHeld);
    TextHeld(f, e, chosen, 24, "broker_execution_id", e.brokerExecutionId);
    TextHeld(f, e, chosen, 27, "instrument", e.instrument);
  }

  lemma TextsHeld4(f: Fields, e: Event, chosen: set<nat>)
    requires Holds(f, e, chosen)
    ensures TextOk(f, Ascii("side")) && TextOr(f, Ascii("side")) == if 28 in chosen then e.side else []
    ensures TextOk(f, Ascii("status")) && TextOr(f, Ascii("status")) == if 31 in chosen then e.status else []
    ensures TextOk(f, Ascii("reason")) && TextOr(f, Ascii("reason")) == if 32 in chosen then e.reason else []
    ensures TextOk(f, Ascii("source")) && TextOr(f, Ascii("source")) == if 33 in chosen then e.source else []
  {
    hide TextOk, TextOr, Holds, Ascii;
    TextHeld(f, e, chosen, 28, "side", e.side);
    TextHeld(f, e, chosen, 31, "status", e.status);
    TextHeld(f, e, chosen, 32, "reason", e.reason);
    TextHeld(f, e, chosen, 33, "source", e.source);
  }

  lemma IntHeld(f: Fields, e: Event, chosen: set<nat>, i: nat, key: string, w: Width, n: int, default: int)
    requires Holds(f, e, chosen) && i < COUNT && Key(i) == key && FieldAt(e, i) == Number(IntText(n))
    requires w.Machine() && w.min <= n <= w.max && w.min <= default <= w.max
    ensures IntOk(f, Ascii(key), w) && IntOr(f, Ascii(key), w, default) == if i in chosen then n else default
  {
    HeldAt(f, e, chosen, i);
    IntRoundTrip(n, w);
  }

  lemma IntsHeld0(f: Fields, e: Event, chosen: set<nat>)
    requires Holds(f, e, chosen)
    ensures IntOk(f, Ascii("schema_version"), Int32)
    ensures IntOr(f, Ascii("schema_version"), Int32, 1) == if 0 in chosen then e.schemaVersion else 1
    ensures IntOk(f, Ascii("ts_ms"), Int64) && IntOr(f, Ascii("ts_ms"), Int64, 0) == if 2 in chosen then e.tsMs else 0
    ensures IntOk(f, Ascii("order_id"), Int64)
    ensures IntOr(f, Ascii("order_id"), Int64, -1) == if 3 in chosen then e.orderId else -1
  {
    hide IntOk, IntOr, Holds, Ascii;
    IntHeld(f, e, chosen, 0, "schema_version", Int32, e.schemaVersion, 1);
    IntHeld(f, e, chosen, 2, "ts_ms", Int64, e.tsMs, 0);
    IntHeld(f, e, chosen, 3, "order_id", Int64, e.orderId, -1);
  }

  lemma IntsHeld1(f: Fields, e: Event, chosen: set<nat>)
    requires Holds(f, e, chosen)
    ensures IntOk(f, Ascii("broker_connection_epoch"), UInt64)
    ensures IntOr(f, Ascii("broker_connection_epoch"), UInt64, 0) == if 17 in chosen then e.brokerConnectionEpoch else 0
    ensures IntOk(f, Ascii("broker_client_id"), Int32)
    ensures IntOr(f, Ascii("broker_client_id"), Int32, -1) == if 18 in chosen then e.brokerClientId else -1
  {
    hide IntOk, IntOr, Holds, Ascii;
    IntHeld(f, e, chosen, 17, "broker_connection_epoch", UInt64, e.brokerConnectionEpoch, 0);
    IntHeld(f, e, chosen, 18, "broker_client_id", Int32, e.brokerClientId, -1);
  }

  lemma IntsHeld2(f: Fields, e: Event, chosen: set<nat>)
    requires Holds(f, e, chosen)
    ensures IntOk(f, Ascii("broker_request_id"), Int64)
    ensures IntOr(f, Ascii("broker_request_id"), Int64, 0) == if 19 in chosen then e.brokerRequestId else 0
    ensures IntOk(f, Ascii("broker_error_code"), Int32)
    ensures IntOr(f, Ascii("broker_error_code"), Int32, 0) == if 20 in chosen then e.brokerErrorCode else 0
  {
    hide IntOk, IntOr, Holds, Ascii;
    IntHeld(f, e, chosen, 19, "broker_request_id", Int64, e.brokerRequestId, 0);
    IntHeld(f, e, chosen, 20, "broker_error_code", Int32, e.brokerErrorCode, 0);
  }

  lemma DoublesHeld(f: Fields, e: Event, chosen: set<nat>)
    requires Holds(f, e, chosen)
    ensures DoubleOk(f, Ascii("broker_remaining_quantity"))
    ensures DoubleOr(f, Ascii("broker_remaining_quantity")) == if 25 in chosen then e.brokerRemainingQuantity
      else [ZERO]
    ensures DoubleOk(f, Ascii("broker_market_cap_price"))
    ensures DoubleOr(f, Ascii("broker_market_cap_price")) == if 26 in chosen then e.brokerMarketCapPrice else [ZERO]
    ensures DoubleOk(f, Ascii("qty")) && DoubleOr(f, Ascii("qty")) == if 29 in chosen then e.qty else [ZERO]
    ensures DoubleOk(f, Ascii("price")) && DoubleOr(f, Ascii("price")) == if 30 in chosen then e.price else [ZERO]
  {
    HeldAt(f, e, chosen, 25);
    HeldAt(f, e, chosen, 26);
    HeldAt(f, e, chosen, 29);
    HeldAt(f, e, chosen, 30);
  }

  /** What is read when these fields of an event were printed: each of them as printed, every other one at its
      default, and a request id that is missing or empty taken from the other one. */
  predicate ReadAs(e: Event, chosen: set<nat>, x: Event) {
    && x.schemaVersion == (if 0 in chosen then e.schemaVersion else 1)
    && x.eventType == (if 1 in chosen then e.eventType else [])
    && x.tsMs == (if 2 in chosen then e.tsMs else 0)
    && x.orderId == (if 3 in chosen then e.orderId else -1)
    && x.traceId == (if 6 in chosen then e.traceId else [])
    && x.eventId == (if 7 in chosen then e.eventId else [])
    && x.riskCode == (if 8 in chosen then e.riskCode else [])
    && x.venue == (if 9 in chosen then e.venue else [])
    && x.strategy == (if 10 in chosen then e.strategy else [])
    && x.account == (if 11 in chosen then e.account else [])
    && x.executionDomain == (if 12 in chosen then e.executionDomain else [])
    && x.requestHash == (if 13 in chosen then e.requestHash else [])
    && x.venueCorrelationId == (if 14 in chosen then e.venueCorrelationId else [])
    && x.brokerCallbackType == (if 15 in chosen then e.brokerCallbackType else [])
    && x.brokerServiceEpoch == (if 16 in chosen then e.brokerServiceEpoch else [])
    && x.brokerConnectionEpoch == (if 17 in chosen then e.brokerConnectionEpoch else 0)
    && x.brokerClientId == (if 18 in chosen then e.brokerClientId else -1)
    && x.brokerRequestId == (if 19 in chosen then e.brokerRequestId else 0)
    && x.brokerErrorCode == (if 20 in chosen then e.brokerErrorCode else 0)
    && x.brokerMessage == (if 21 in chosen then e.brokerMessage else [])
    && x.brokerAdvancedOrderRejectJson == (if 22 in chosen then e.brokerAdvancedOrderRejectJson else [])
    && x.brokerWhyHeld == (if 23 in chosen then e.brokerWhyHeld else [])
    && x.brokerExecutionId == (if 24 in chosen then e.brokerExecutionId else [])
    && x.brokerRemainingQuantity == (if 25 in chosen then e.brokerRemainingQuantity else [ZERO])
    && x.brokerMarketCapPrice == (if 26 in chosen then e.brokerMarketCapPrice else [ZERO])
    && x.instrument == (if 27 in chosen then e.instrument else [])
    && x.side == (if 28 in chosen then e.side else [])
    && x.qty == (if 29 in chosen then e.qty else [ZERO])
    && x.price == (if 30 in chosen then e.price else [ZERO])
    && x.status == (if 31 in chosen then e.status else [])
    && x.reason == (if 32 in chosen then e.reason else [])
    && x.source == (if 33 in chosen then e.source else [])
    && (4 in chosen && e.reqId != [] ==> x.reqId == e.reqId)
    && (5 in chosen && e.clientReqId != [] ==> x.clientReqId == e.clientReqId)
    && (!(4 in chosen && e.reqId != []) ==> x.reqId == if 5 in chosen then e.clientReqId else [])
    && (!(5 in chosen && e.clientReqId != []) ==> x.clientReqId == if 4 in chosen then e.reqId else [])
  }

  /** What a caller can check of the printed fields: a known schema version, a client id that is not below -1, and
      an event type that is there, not empty and needs no economics. */
  predicate Readable(e: Event, chosen: set<nat>) {
    && (0 in chosen ==> 1 <= e.schemaVersion <= 4) && (18 in chosen ==> e.brokerClientId >= -1)
    && 1 in chosen && e.eventType != [] && e.eventType != Ascii("broker_commission")
  }

  /** The chosen fields, before one request id stands in for the other. */
  function Raw(e: Event, chosen: set<nat>): Event {
    Event(
      if 0 in chosen then e.schemaVersion else 1,
      if 1 in chosen then e.eventType else [],
      if 2 in chosen then e.tsMs else 0,
      if 3 in chosen then e.orderId else -1,
      if 4 in chosen then e.reqId else [],
      if 5 in chosen then e.clientReqId else [],
      if 6 in chosen then e.traceId else [],
      if 7 in chosen then e.eventId else [],
      if 8 in chosen then e.riskCode else [],
      if 9 in chosen then e.venue else [],
      if 10 in chosen then e.strategy else [],
      if 11 in chosen then e.account else [],
      if 12 in chosen then e.executionDomain else [],
      if 13 in chosen then e.requestHash else [],
      if 14 in chosen then e.venueCorrelationId else [],
      if 15 in chosen then e.brokerCallbackType else [],
      if 16 in chosen then e.brokerServiceEpoch else [],
      if 17 in chosen then e.brokerConnectionEpoch else 0,
      if 18 in chosen then e.brokerClientId else -1,
      if 19 in chosen then e.brokerRequestId else 0,
      if 20 in chosen then e.brokerErrorCode else 0,
      if 21 in chosen then e.brokerMessage else [],
      if 22 in chosen then e.brokerAdvancedOrderRejectJson else [],
      if 23 in chosen then e.brokerWhyHeld else [],
      if 24 in chosen then e.brokerExecutionId else [],
      if 25 in chosen then e.brokerRemainingQuantity else [ZERO],
      if 26 in chosen then e.brokerMarketCapPrice else [ZERO],
      if 27 in chosen then e.instrument else [],
      if 28 in chosen then e.side else [],
      if 29 in chosen then e.qty else [ZERO],
      if 30 in chosen then e.price else [ZERO],
      if 31 in chosen then e.status else [],
      if 32 in chosen then e.reason else [],
      if 33 in chosen then e.source else []
    )
  }

  lemma HeldFieldsRead(f: Fields, e: Event, chosen: set<nat>)
    requires Holds(f, e, chosen)
    ensures KindsOk(f) && EventOf(f) == Raw(e, chosen)
  {
    hide Holds, TextOk, TextOr, IntOk, IntOr, DoubleOk, DoubleOr, Ascii;
    TextsHeld0(f, e, chosen);
    TextsHeld1(f, e, chosen);
    TextsHeld2(f, e, chosen);
    TextsHeld3(f, e, chosen);
    TextsHeld4(f, e, chosen);
    IntsHeld0(f, e, chosen);
    IntsHeld1(f, e, chosen);
    IntsHeld2(f, e, chosen);
    DoublesHeld(f, e, chosen);
  }

  lemma RawIsRead(e: Event, chosen: set<nat>)
    ensures Acceptable(Raw(e, chosen)) <==> Readable(e, chosen)
    ensures ReadAs(e, chosen, WithRequestIds(Raw(e, chosen)))
  {
    hide Ascii, ReadAs;
    RawIsReadAs(e, chosen);
  }

  lemma RawIsReadAs(e: Event, chosen: set<nat>)
    ensures ReadAs(e, chosen, WithRequestIds(Raw(e, chosen)))
  {
  }

  /** A printed object whose members are the chosen fields of an event, in any order, and any members under keys
      that mean nothing to the journal. */
  ghost predicate Prints(ms: seq<Member>, e: Event, chosen: set<nat>) {
    && ms != [] && DistinctKeys(ms) && (forall i :: 0 <= i < |ms| ==> Printable(ms[i]) && !Economic(ms[i].key))
    && (forall i :: 0 <= i < COUNT ==> (i in chosen <==> PrintedAt(ms, Ascii(Key(i)))))
    && (forall i, k :: 0 <= i < COUNT && 0 <= k < |ms| && ms[k].key == Ascii(Key(i)) ==> ms[k].field == FieldAt(e, i))
  }

  predicate PrintedAt(ms: seq<Member>, key: bytes) {
    exists k :: 0 <= k < |ms| && ms[k].key == key
  }

  lemma PrintedFieldsHold(ms: seq<Member>, e: Event, chosen: set<nat>)
    requires Prints(ms, e, chosen)
    ensures Holds(AddAll(map[], ms), e, chosen)
    ensures forall k :: k in AddAll(map[], ms) ==> !Economic(k)
  {
    hide Key, FieldAt, Ascii, Printable, AddAll, Economic;
    AddAllLooksUp(map[], ms);
    var f := AddAll(map[], ms);
    forall i | 0 <= i < COUNT
      ensures Ascii(Key(i)) in f <==> i in chosen
      ensures i in chosen ==> f[Ascii(Key(i))] == FieldAt(e, i) {
      if i in chosen {
        var k :| 0 <= k < |ms| && ms[k].key == Ascii(Key(i));
        assert f[ms[k].key] == ms[k].field;
      }
    }
    forall k | k in f ensures !Economic(k) {
      var i :| 0 <= i < |ms| && ms[i].key == k;
    }
  }

  /** A line with any of the fields of an event, in any order and among any others, is read exactly when its strings
      are UTF-8 and the fields are readable, and gives each field as printed and every other one at its default. */
  lemma AnyFieldsReadBack(ms: seq<Member>, e: Event, chosen: set<nat>)
    requires Prints(ms, e, chosen)
    ensures
      var read := ParseLine(PrintObject(ms));
      && (read.Some? <==> ValidText(ms) && Readable(e, chosen))
      && (read.Some? ==> ReadAs(e, chosen, read.value))
  {
    PrintedIsObject(ms, e, chosen);
    hide PrintObject, ParseDocument, ReadFields, AddAll, Readable, ReadAs, Economic, Prints, Holds;
    ObjectRoundTrip(ms);
    if ValidText(ms) {
      PrintedFieldsHold(ms, e, chosen);
      HeldFieldsGive(AddAll(map[], ms), e, chosen);
    }
  }

  lemma HeldFieldsGive(f: Fields, e: Event, chosen: set<nat>)
    requires Holds(f, e, chosen) && forall k :: k in f ==> !Economic(k)
    ensures ReadFields(f).Some? <==> Readable(e, chosen)
    ensures ReadFields(f).Some? ==> ReadAs(e, chosen, ReadFields(f).value)
  {
    hide KindsOk, EventOf, WithRequestIds, Acceptable, Readable, ReadAs, Economic, Holds, Raw;
    HeldFieldsRead(f, e, chosen);
    RawIsRead(e, chosen);
  }

  lemma PrintedIsObject(ms: seq<Member>, e: Event, chosen: set<nat>)
    requires Prints(ms, e, chosen)
    ensures ms != [] && DistinctKeys(ms) && forall i :: 0 <= i < |ms| ==> Printable(ms[i])
  {
  }

  // ---- Lines that are refused

  /** The kind of value each key takes: three integer widths, number texts, and text. */
  predicate RightKind(i: nat, field: Field) {
    if i in {0, 18, 20} then field.Number? && Fit(field.text, Int32).Some?
    else if i in {2, 3, 19} then field.Number? && Fit(field.text, Int64).Some?
    else if i == 17 then field.Number? && Fit(field.text, UInt64).Some?
    else if i in {25, 26, 29, 30} then field.Number?
    else field.Text?
  }

  lemma KindsRead0(f: Fields, i: nat)
    requires KindsOk(f) && 0 <= i < 9 && Ascii(Key(i)) in f
    ensures RightKind(i, f[Ascii(Key(i))])
  {
    hide Fit, Ascii;
  }

  lemma KindsRead1(f: Fields, i: nat)
    requires KindsOk(f) && 9 <= i < 17 && Ascii(Key(i)) in f
    ensures RightKind(i, f[Ascii(Key(i))])
  {
    hide Fit, Ascii;
  }

  lemma KindsRead2(f: Fields, i: nat)
    requires KindsOk(f) && 17 <= i < 25 && Ascii(Key(i)) in f
    ensures RightKind(i, f[Ascii(Key(i))])
  {
    hide Fit, Ascii;
  }

  lemma KindsRead3(f: Fields, i: nat)
    requires KindsOk(f) && 25 <= i < 34 && Ascii(Key(i)) in f
    ensures RightKind(i, f[Ascii(Key(i))])
  {
    hide Fit, Ascii;
  }

  lemma KindsRead(f: Fields, i: nat)
    requires KindsOk(f) && i < COUNT && Ascii(Key(i)) in f
    ensures RightKind(i, f[Ascii(Key(i))])
  {
    hide KindsOk, Key, RightKind;
    if i < 9 {
      KindsRead0(f, i);
    } else if i < 17 {
      KindsRead1(f, i);
    } else if i < 25 {
      KindsRead2(f, i);
    } else {
      KindsRead3(f, i);
    }
  }

  /** Any text of the grammar of JSON objects that holds these fields, whatever its white space, escapes and other
      members: read exactly when the fields are readable, and gives them. */
  lemma AnyTextIsRead(line: bytes, f: Fields, e: Event, chosen: set<nat>)
    requires JsonGrammar.IsDocument(line, f) && Holds(f, e, chosen)
    requires forall k :: k in f ==> !(Ascii("broker_econ_") <= k)
    ensures
      var read := ParseLine(line);
      && (read.Some? <==> Readable(e, chosen))
      && (read.Some? ==> ReadAs(e, chosen, read.value))
  {
    hide ParseDocument, ReadFields, Readable, ReadAs, Holds, JsonGrammar.IsDocument;
    JsonGrammar.DocumentMeans(line, f);
    forall k | k in f ensures !Economic(k) {
      if Economic(k) {
        EconomicStarts(k);
      }
    }
    HeldFieldsGive(f, e, chosen);
  }

  lemma EconomicStarts(k: bytes)
    requires Economic(k)
    ensures Ascii("broker_econ_") <= k
  {
  }

  /** A line is refused when a key of an event has a value of the wrong kind, or one that does not fit its width. */
  lemma WrongKindIsRefused(ms: seq<Member>, i: nat, k: nat)
    requires ms != [] && DistinctKeys(ms) && forall m :: 0 <= m < |ms| ==> Printable(ms[m])
    requires i < COUNT && k < |ms| && ms[k].key == Ascii(Key(i)) && !RightKind(i, ms[k].field)
    ensures ParseLine(PrintObject(ms)).None?
  {
    hide PrintObject, ParseDocument, AddAll, KindsOk, EventOf, WithRequestIds, Acceptable, Key, RightKind, Economic;
    ObjectRoundTrip(ms);
    AddAllLooksUp(map[], ms);
    if KindsOk(AddAll(map[], ms)) {
      KindsRead(AddAll(map[], ms), i);
    }
  }

  /** A line with a field of broker economics is refused. */
  lemma EconomicsAreRefused(ms: seq<Member>, k: nat)
    requires ms != [] && DistinctKeys(ms) && forall m :: 0 <= m < |ms| ==> Printable(ms[m])
    requires k < |ms| && Ascii("broker_econ_") <= ms[k].key
    ensures ParseLine(PrintObject(ms)).None?
  {
    hide PrintObject, ParseDocument, AddAll, KindsOk, EventOf, WithRequestIds, Acceptable;
    ObjectRoundTrip(ms);
    AddAllLooksUp(map[], ms);
    assert Economic(ms[k].key);
  }

  // ---- The whole event

  function Below(n: nat): (s: set<nat>)
    ensures forall i: nat :: i in s <==> i < n
  {
    if n == 0 then {} else Below(n - 1) + {n - 1}
  }

  lemma WholeIsPrinted(e: Event)
    requires NumbersPrint(e)
    ensures Prints(MembersOf(e), Normalised(e), Below(COUNT))
  {
    hide Key, FieldAt, Ascii, Printable, DistinctKeys, Economic, Normalised, Below, Prints;
    MembersArePrintable(e);
    var ms := MembersOf(e);
    forall i | 0 <= i < COUNT
      ensures ms[i].key == Ascii(Key(i)) && ms[i].field == FieldAt(Normalised(e), i) && !Economic(ms[i].key) {
      GoodKey(i);
    }
    ListedInOrder(ms, Normalised(e));
  }

  lemma ListedInOrder(ms: seq<Member>, e: Event)
    requires |ms| == COUNT && DistinctKeys(ms)
    requires forall i :: 0 <= i < COUNT ==> Printable(ms[i]) && !Economic(ms[i].key)
    requires forall i :: 0 <= i < COUNT ==> ms[i].key == Ascii(Key(i)) && ms[i].field == FieldAt(e, i)
    ensures Prints(ms, e, Below(COUNT))
  {
    hide Key, FieldAt, Ascii, Printable, Economic, Below;
    forall i | 0 <= i < COUNT ensures PrintedAt(ms, Ascii(Key(i))) {
      assert ms[i].key == Ascii(Key(i));
    }
    forall i, k | 0 <= i < COUNT && 0 <= k < COUNT && ms[k].key == Ascii(Key(i))
      ensures ms[k].field == FieldAt(e, i) {
      assert ms[i].key == ms[k].key;
    }
  }

  /** A printed line is read back exactly when the event is storable, and then gives the event up to
      the schema version and the request ids. */
  lemma EventRoundTrip(e: Event)
    requires NumbersPrint(e)
    ensures ParseLine(BuildLine(e)) == if Storable(e) then Some(Normalised(e)) else None
  {
    hide FieldAt, Key, PrintObject, ParseLine, Prints;
    WholeIsPrinted(e);
    AnyFieldsReadBack(MembersOf(e), Normalised(e), Below(COUNT));
    ValidMembers(e);
    WholeIsRead(e, ParseLine(BuildLine(e)));
  }

  lemma WholeIsRead(e: Event, read: Option<Event>)
    requires read.Some? ==> ReadAs(Normalised(e), Below(COUNT), read.value)
    ensures read.Some? ==> read.value == Normalised(e)
    ensures StringsValid(e) && Readable(Normalised(e), Below(COUNT)) <==> Storable(e)
  {
    hide FieldAt, Key, Ascii, StringsValid;
  }

  /** Rebuilding the line from the event that was read gives the same line. */
  lemma RebuildsSameLine(e: Event)
    ensures BuildLine(Normalised(e)) == BuildLine(e)
  {
    var n := Normalised(e);
    assert Normalised(n) == n;
    assert MembersOf(n) == MembersOf(e);
  }
}
