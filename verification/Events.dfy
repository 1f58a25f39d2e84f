/**
 * Transaction events: stored natively, or parsed into typed attribute values,
 * serialised and compressed, then decoded and printed when they are read.
 * Protocol Buffers, zstd and floating point are parameters.
 */
module Events {
  import opened Results
  import opened Decimal

  type Bytes = seq<bv8>

  /** A double by its bit pattern; nothing here computes with it. */
  type Float64 = bv64

  datatype Attribute = Attribute(key: string, value: string)

  datatype Event = Event(atType: string, kind: string, attributes: seq<Attribute>, pkgPath: string)

  datatype Value =
    | BoolValue(b: bool)
    | Int64Value(i: int)
    | DoubleValue(f: Float64)
    | StringValue(s: string)

  datatype ProtoAttribute = ProtoAttribute(key: string, value: Option<Value>)

  datatype ProtoEvent =
    ProtoEvent(atType: string, kind: string, attributes: seq<ProtoAttribute>, pkgPath: Option<string>)

  /** Foreign code. Marshalling fails on text that is not UTF-8. */
  datatype Foreign = Foreign(
    marshal: seq<ProtoEvent> -> Option<Bytes>,
    unmarshal: Bytes -> Option<seq<ProtoEvent>>,
    compress: Bytes -> Bytes,
    decompress: Bytes -> Option<Bytes>,
    parseFloat: string -> Option<Float64>,
    formatFloat: Float64 -> string)
  {
    /** What is assumed of serialiser and compressor: each undoes itself, and data is never empty. */
    ghost predicate Lossless() {
      && (forall m :: marshal(m).Some? && m != [] ==>
            marshal(m).value != [] && unmarshal(marshal(m).value) == Some(m))
      && (forall b :: b != [] ==> compress(b) != [] && decompress(compress(b)) == Some(b))
    }
  }

  // ----- One attribute value -----

  /** Attempts in order: bool, int64, float64; whatever none accepts stays text. */
  function ParseAttributeValue(x: Foreign, s: string): Value {
    if s == "true" then BoolValue(true)
    else if s == "false" then BoolValue(false)
    else if ParseInt(s).Ok? then Int64Value(ParseInt(s).value)
    else if x.parseFloat(s).Some? then DoubleValue(x.parseFloat(s).value)
    else StringValue(s)
  }

  function PrintValue(x: Foreign, v: Option<Value>): string {
    match v
    case None => ""
    case Some(StringValue(s)) => s
    case Some(Int64Value(i)) => FormatInt(i)
    case Some(BoolValue(b)) => if b then "true" else "false"
    case Some(DoubleValue(f)) => x.formatFloat(f)
  }

  /** An attribute value after storing it compressed and reading it. */
  function Reread(x: Foreign, s: string): string {
    PrintValue(x, Some(ParseAttributeValue(x, s)))
  }

  /** No int64, yet a float64: also every integer too large for int64. */
  predicate TakenAsDouble(x: Foreign, s: string) {
    s != "true" && s != "false" && ParseInt(s).Err? && x.parseFloat(s).Some?
  }

  /** When a value survives: a condition on the value before it is stored. */
  predicate Survives(x: Foreign, s: string) {
    && (ParseInt(s).Ok? ==> CanonicalInt(s))
    && (TakenAsDouble(x, s) ==> x.formatFloat(x.parseFloat(s).value) == s)
  }

  lemma WordsAreNotNumbers()
    ensures ParseInt("true").Err? && ParseInt("false").Err?
  {
    assert "true"[0] == 't' && "false"[0] == 'f';
  }

  /** A value reads back as written exactly when it survives. */
  lemma RereadIff(x: Foreign, s: string)
    ensures Reread(x, s) == s <==> Survives(x, s)
  {
    WordsAreNotNumbers();
    if ParseInt(s).Ok? {
      FormatOfParseInt(s);
    }
  }

  lemma ParseIntOfFormat(i: int)
    requires -(MAX_INT64 as int) - 1 <= i <= MAX_INT64
    ensures ParseInt(FormatInt(i)) == Ok(i) && CanonicalInt(FormatInt(i))
  {
    var n := if i < 0 then -i else i;
    ParseUintOfFormat(n);
    FormatUintIsCanonical(n);
    var s := FormatInt(i);
    if i < 0 {
      assert s[1..] == FormatUint(n) && s[0] == '-';
    } else {
      assert IsDigit(s[0]);
    }
  }

  /** An integer text keeps its value and comes back in its one canonical form. */
  lemma IntegersNormalise(x: Foreign, s: string)
    requires ParseInt(s).Ok?
    ensures ParseInt(Reread(x, s)) == ParseInt(s)
    ensures CanonicalInt(Reread(x, s))
    ensures Reread(x, Reread(x, s)) == Reread(x, s)
  {
    WordsAreNotNumbers();
    ParseIntOfFormat(ParseInt(s).value);
  }

  /** Two integer texts become the same text exactly when they are the same number. */
  lemma IntegersMergeIff(x: Foreign, s: string, t: string)
    requires ParseInt(s).Ok? && ParseInt(t).Ok?
    ensures Reread(x, s) == Reread(x, t) <==> ParseInt(s) == ParseInt(t)
  {
    IntegersNormalise(x, s);
    IntegersNormalise(x, t);
    WordsAreNotNumbers();
  }

  // ----- Whole event lists -----

  function ToProtoAttributes(x: Foreign, attrs: seq<Attribute>): seq<ProtoAttribute> {
    if attrs == [] then []
    else
      var last := attrs[|attrs| - 1];
      ToProtoAttributes(x, attrs[..|attrs| - 1]) + [ProtoAttribute(last.key, Some(ParseAttributeValue(x, last.value)))]
  }

  function ToProtoEvent(x: Foreign, e: Event): ProtoEvent {
    ProtoEvent(e.atType, e.kind, ToProtoAttributes(x, e.attributes), Some(e.pkgPath))
  }

  function ToProto(x: Foreign, events: seq<Event>): seq<ProtoEvent> {
    if events == [] then []
    else
      var e := events[|events| - 1];
      ToProto(x, events[..|events| - 1]) + [ToProtoEvent(x, e)]
  }

  function FromProtoAttributes(x: Foreign, attrs: seq<ProtoAttribute>): seq<Attribute> {
    if attrs == [] then []
    else
      var last := attrs[|attrs| - 1];
      FromProtoAttributes(x, attrs[..|attrs| - 1]) + [Attribute(last.key, PrintValue(x, last.value))]
  }

  function FromProtoEvent(x: Foreign, e: ProtoEvent): Event {
    Event(e.atType, e.kind, FromProtoAttributes(x, e.attributes), if e.pkgPath.Some? then e.pkgPath.value else "")
  }

  function FromProto(x: Foreign, events: seq<ProtoEvent>): seq<Event> {
    if events == [] then []
    else
      var e := events[|events| - 1];
      FromProto(x, events[..|events| - 1]) + [FromProtoEvent(x, e)]
  }

  datatype EventResult = Native(events: seq<Event>) | Compressed(data: Bytes)
  {
    function GetNativeEvents(): seq<Event> {
      if Native? then events else []
    }

    function GetCompressedData(): Bytes {
      if Compressed? then data else []
    }
  }

  datatype Failure = MarshalFailed | DecompressFailed | UnmarshalFailed

  /** The first k elements, one longer. */
  lemma Longer<T>(s: seq<T>, k: nat)
    requires k < |s|
    ensures s[..k + 1] != [] && s[..k + 1][|s[..k + 1]| - 1] == s[k] && s[..k + 1][..|s[..k + 1]| - 1] == s[..k]
  {
  }

  method SerializeEvent(x: Foreign, events: seq<Event>) returns (r: Result<Bytes, Failure>)
    ensures r == match x.marshal(ToProto(x, events)) case Some(b) => Ok(b) case None => Err(MarshalFailed)
  {
    var protoEvents: seq<ProtoEvent>, k := [], 0;
    while k < |events|
      invariant 0 <= k <= |events|
      invariant protoEvents == ToProto(x, events[..k])
    {
      var event := events[k];
      var protoAttrs: seq<ProtoAttribute>, j := [], 0;
      while j < |event.attributes|
        invariant 0 <= j <= |event.attributes|
        invariant protoAttrs == ToProtoAttributes(x, event.attributes[..j])
      {
        var attribute := event.attributes[j];
        protoAttrs := protoAttrs + [ProtoAttribute(attribute.key, Some(ParseAttributeValue(x, attribute.value)))];
        Longer(event.attributes, j);
        j := j + 1;
      }
      assert event.attributes[..j] == event.attributes;
      protoEvents := protoEvents + [ProtoEvent(event.atType, event.kind, protoAttrs, Some(event.pkgPath))];
      Longer(events, k);
      k := k + 1;
    }
    assert events[..k] == events;
    var bytes := x.marshal(protoEvents);
    if bytes.None? {
      return Err(MarshalFailed);
    }
    return Ok(bytes.value);
  }

  /** Compresses only when asked to and only lists of two or more events. */
  method EventSolver(x: Foreign, events: seq<Event>, useCompressed: bool) returns (r: Result<EventResult, Failure>)
    ensures !(useCompressed && |events| >= 2) ==> r == Ok(Native(events))
    ensures useCompressed && |events| >= 2 ==>
              r == match x.marshal(ToProto(x, events))
                   case Some(b) => Ok(Compressed(x.compress(b)))
                   case None => Err(MarshalFailed)
  {
    if useCompressed && |events| >= 2 {
      var serialized := SerializeEvent(x, events);
      if serialized.Err? {
        return Err(serialized.error);
      }
      return Ok(Compressed(x.compress(serialized.value)));
    }
    var nativeEvents: seq<Event>, k := [], 0;
    while k < |events|
      invariant 0 <= k <= |events|
      invariant nativeEvents == events[..k]
    {
      var event := events[k];
      var attributes: seq<Attribute>, j := [], 0;
      while j < |event.attributes|
        invariant 0 <= j <= |event.attributes|
        invariant attributes == event.attributes[..j]
      {
        attributes := attributes + [Attribute(event.attributes[j].key, event.attributes[j].value)];
        j := j + 1;
      }
      assert attributes == event.attributes;
      nativeEvents := nativeEvents + [Event(event.atType, event.kind, attributes, event.pkgPath)];
      k := k + 1;
    }
    assert nativeEvents == events;
    return Ok(Native(nativeEvents));
  }

  /** What `decodeEvents` answers. */
  function Decoded(x: Foreign, data: Bytes): Result<seq<Event>, Failure> {
    if data == [] then Ok([])
    else match x.decompress(data)
      case None => Err(DecompressFailed)
      case Some(raw) =>
        match x.unmarshal(raw)
        case None => Err(UnmarshalFailed)
        case Some(events) => Ok(FromProto(x, events))
  }

  method DecodeEvents(x: Foreign, data: Bytes) returns (r: Result<seq<Event>, Failure>)
    ensures r == Decoded(x, data)
  {
    if |data| == 0 {
      return Ok([]);
    }
    var raw := x.decompress(data);
    if raw.None? {
      return Err(DecompressFailed);
    }
    var message := x.unmarshal(raw.value);
    if message.None? {
      return Err(UnmarshalFailed);
    }
    var protoEvents := message.value;
    var events: seq<Event>, k := [], 0;
    while k < |protoEvents|
      invariant 0 <= k <= |protoEvents|
      invariant events == FromProto(x, protoEvents[..k])
    {
      var event := protoEvents[k];
      var attributes: seq<Attribute>, j := [], 0;
      while j < |event.attributes|
        invariant 0 <= j <= |event.attributes|
        invariant attributes == FromProtoAttributes(x, event.attributes[..j])
      {
        var attribute := event.attributes[j];
        attributes := attributes + [Attribute(attribute.key, PrintValue(x, attribute.value))];
        Longer(event.attributes, j);
        j := j + 1;
      }
      assert event.attributes[..j] == event.attributes;
      var pkgPath := "";
      if event.pkgPath.Some? {
        pkgPath := event.pkgPath.value;
      }
      events := events + [Event(event.atType, event.kind, attributes, pkgPath)];
      Longer(protoEvents, k);
      k := k + 1;
    }
    assert protoEvents[..k] == protoEvents;
    return Ok(events);
  }

  /** The events part of a transaction row, and of the answer made from it. */
  datatype FullTxData =
    FullTxData(txHash: string, height: Uint64, events: seq<Event>, compressed: Bytes, compressionOn: bool)

  datatype Transaction = Transaction(txHash: string, height: Uint64, events: seq<Event>)

  /** What `processTransaction` stores of an event result. */
  function StoredRow(txHash: string, height: Uint64, result: EventResult): FullTxData {
    FullTxData(txHash, height, result.GetNativeEvents(), result.GetCompressedData(), result.Compressed?)
  }

  method ToTransaction(x: Foreign, f: FullTxData) returns (r: Result<Transaction, Failure>)
    ensures !f.compressionOn ==> r == Ok(Transaction(f.txHash, f.height, f.events))
    ensures f.compressionOn ==>
              r == match Decoded(x, f.compressed)
                   case Ok(events) => Ok(Transaction(f.txHash, f.height, events))
                   case Err(error) => Err(error)
  {
    var tx := Transaction(f.txHash, f.height, []);
    if f.compressionOn {
      var decoded := DecodeEvents(x, f.compressed);
      if decoded.Err? {
        return Err(decoded.error);
      }
      tx := tx.(events := decoded.value);
    } else {
      tx := tx.(events := f.events);
    }
    return Ok(tx);
  }

  // ----- Reading back what was stored -----

  /** Same attributes in the same order, each value reread. */
  predicate AttributesReread(x: Foreign, before: seq<Attribute>, after: seq<Attribute>) {
    |after| == |before| && forall j :: 0 <= j < |before| ==>
      after[j].key == before[j].key && after[j].value == Reread(x, before[j].value)
  }

  predicate EventReread(x: Foreign, before: Event, after: Event) {
    && after.atType == before.atType && after.kind == before.kind && after.pkgPath == before.pkgPath
    && AttributesReread(x, before.attributes, after.attributes)
  }

  predicate EventsReread(x: Foreign, before: seq<Event>, after: seq<Event>) {
    |after| == |before| && forall k :: 0 <= k < |before| ==> EventReread(x, before[k], after[k])
  }

  lemma {:induction false} AttributesComeBack(x: Foreign, attrs: seq<Attribute>)
    ensures |ToProtoAttributes(x, attrs)| == |attrs|
    ensures AttributesReread(x, attrs, FromProtoAttributes(x, ToProtoAttributes(x, attrs)))
    decreases |attrs|
  {
    if attrs != [] {
      var init := attrs[..|attrs| - 1];
      AttributesComeBack(x, init);
      var p := ToProtoAttributes(x, attrs);
      assert p[..|p| - 1] == ToProtoAttributes(x, init);
    }
  }

  lemma {:induction false} EventsComeBack(x: Foreign, events: seq<Event>)
    ensures |ToProto(x, events)| == |events|
    ensures EventsReread(x, events, FromProto(x, ToProto(x, events)))
    decreases |events|
  {
    if events != [] {
      var init, e := events[..|events| - 1], events[|events| - 1];
      EventsComeBack(x, init);
      AttributesComeBack(x, e.attributes);
      var p := ToProto(x, events);
      assert p[..|p| - 1] == ToProto(x, init);
      var before, back := FromProto(x, ToProto(x, init)), FromProtoEvent(x, ToProtoEvent(x, e));
      assert FromProto(x, p) == before + [back];
      OneMoreReread(x, init, e, before, back);
      assert events == init + [e];
    }
  }

  lemma OneMoreReread(x: Foreign, init: seq<Event>, e: Event, before: seq<Event>, back: Event)
    requires EventsReread(x, init, before) && EventReread(x, e, back)
    ensures EventsReread(x, init + [e], before + [back])
  {
    hide EventReread;
  }

  /** Every attribute value of the list survives. */
  predicate AllSurvive(x: Foreign, events: seq<Event>) {
    forall k, j :: 0 <= k < |events| && 0 <= j < |events[k].attributes| ==> Survives(x, events[k].attributes[j].value)
  }

  lemma RereadIsSameIff(x: Foreign, before: seq<Event>, after: seq<Event>)
    requires EventsReread(x, before, after)
    ensures after == before <==> AllSurvive(x, before)
  {
    forall k, j | 0 <= k < |before| && 0 <= j < |before[k].attributes|
      ensures after[k].attributes[j].value == before[k].attributes[j].value <==>
                Survives(x, before[k].attributes[j].value)
    {
      assert EventReread(x, before[k], after[k]);
      RereadIff(x, before[k].attributes[j].value);
    }
    if AllSurvive(x, before) {
      forall k | 0 <= k < |before|
        ensures after[k] == before[k]
      {
        assert EventReread(x, before[k], after[k]);
        SameAttributes(before[k].attributes, after[k].attributes);
      }
    }
  }

  lemma SameAttributes(a: seq<Attribute>, b: seq<Attribute>)
    requires |a| == |b| && forall j :: 0 <= j < |a| ==> a[j].key == b[j].key && a[j].value == b[j].value
    ensures a == b
  {
  }

  /**
   * Stores the events of a transaction and answers a request for it. A stored
   * transaction always reads back, with the same events, types, package paths and
   * attribute keys in the same order; it is the original exactly when it was
   * stored natively or every attribute value survives.
   */
  method StoreAndRead(x: Foreign, txHash: string, height: Uint64, events: seq<Event>, useCompressed: bool)
    returns (stored: bool, read: Result<Transaction, Failure>)
    requires x.Lossless()
    ensures stored <==> !(useCompressed && |events| >= 2) || x.marshal(ToProto(x, events)).Some?
    ensures stored ==> read.Ok? && read.value.txHash == txHash && read.value.height == height
    ensures stored && !(useCompressed && |events| >= 2) ==> read.value.events == events
    ensures stored && useCompressed && |events| >= 2 ==> EventsReread(x, events, read.value.events)
    ensures stored && useCompressed && |events| >= 2 ==> (read.value.events == events <==> AllSurvive(x, events))
  {
    var result := EventSolver(x, events, useCompressed);
    if result.Err? {
      return false, Err(result.error);
    }
    stored := true;
    read := ToTransaction(x, StoredRow(txHash, height, result.value));
    EventsComeBack(x, events);
    if useCompressed && |events| >= 2 {
      RereadIsSameIff(x, events, read.value.events);
    }
  }
}
